/**
 * The in-memory feature-toggle store used as a test double: one mutable
 * table `features`, looked up with filters and updated in place.
 */
module FeatureToggleStore {
  import opened Wrappers
  import opened ArrayOps
  import opened FeatureToggle

  class FakeFeatureToggleStore {
    /** The table, in insertion order; names are not required to be unique. */
    var features: seq<Feature>

    constructor ()
      ensures features == []
    {
      features := [];
    }

    // ------------------------------------------------------------------
    // Lookups

    /** `exists(key)`: some entry is named `key`. */
    function Exists(key: string): (b: bool)
      reads this
      ensures b <==> exists i :: 0 <= i < |features| && features[i].name == key
    {
      Any(features, NameIs(key))
    }

    /** `get(key)`: the first entry named `key`, or `NotFoundError`. */
    function Get(key: string): (r: Result<Feature, StoreError>)
      reads this
      ensures r.Failure? <==> !Exists(key)
      ensures r.Failure? ==> r.error == NotFoundError("Could not find feature with name " + key)
      ensures r.Success? ==> exists i :: FirstNamed(features, i, key) && features[i] == r.value
    {
      match Find(features, NameIs(key))
      case Some(feature) => Success(feature)
      case None => Failure(NotFoundError("Could not find feature with name " + key))
    }

    /** `getAll()`: the entries whose `archived` is not truthy, in table order. */
    function GetAll(): (r: seq<Feature>)
      reads this
      ensures forall i :: 0 <= i < |r| ==> r[i] in features && !Truthy(r[i].archived)
      ensures forall j :: 0 <= j < |features| && !Truthy(features[j].archived) ==> features[j] in r
      ensures Subsequence(r, features)
      ensures forall f :: multiset(r)[f] == if !Truthy(f.archived) then multiset(features)[f] else 0
    {
      var keep := (f: Feature) => !Truthy(f.archived);
      FilterMembers(features, keep);
      FilterSubsequence(features, keep);
      FilterMultiplicity(features, keep);
      Filter(features, keep)
    }

    /**
     * `getFilterQuery(query)`: the callback `getBy` and `count` filter with.
     * Each condition applies only when its query field is truthy, so an absent
     * or `false` field (or an empty project) matches every entry.
     */
    static function GetFilterQuery(query: StoreQuery): (p: Feature -> bool)
      ensures forall f :: p(f) <==>
        && (TruthyString(query.project) ==> f.project == query.project.value)
        && (Truthy(query.archived) ==> f.archived == Some(true))
        && (Truthy(query.stale) ==> f.stale == Some(true))
    {
      (f: Feature) =>
        var projectMatch := if TruthyString(query.project) then f.project == query.project.value else true;
        var archiveMatch := if Truthy(query.archived) then f.archived == query.archived else true;
        var staleMatch := if Truthy(query.stale) then f.stale == query.stale else true;
        projectMatch && archiveMatch && staleMatch
    }

    /** `getBy(query)`: the entries the query's filter accepts, in table order. */
    function GetBy(query: StoreQuery): (r: seq<Feature>)
      reads this
      ensures forall i :: 0 <= i < |r| ==> r[i] in features && GetFilterQuery(query)(r[i])
      ensures forall j :: 0 <= j < |features| && GetFilterQuery(query)(features[j]) ==> features[j] in r
      ensures Subsequence(r, features)
      ensures forall f :: multiset(r)[f] == if GetFilterQuery(query)(f) then multiset(features)[f] else 0
    {
      var keep := GetFilterQuery(query);
      FilterMembers(features, keep);
      FilterSubsequence(features, keep);
      FilterMultiplicity(features, keep);
      Filter(features, keep)
    }

    /** `count(query)`: how many entries `getBy(query)` returns. */
    function Count(query: StoreQuery): (n: nat)
      reads this
      ensures n == |GetBy(query)|
      ensures n <= |features|
    {
      |Filter(features, GetFilterQuery(query))|
    }

    /** `getAllByNames(names)`: the entries whose name is listed, in table order. */
    function GetAllByNames(names: seq<string>): (r: seq<Feature>)
      reads this
      ensures forall i :: 0 <= i < |r| ==> r[i] in features && r[i].name in names
      ensures forall j :: 0 <= j < |features| && features[j].name in names ==> features[j] in r
      ensures Subsequence(r, features)
      ensures forall f :: multiset(r)[f] == if f.name in names then multiset(features)[f] else 0
    {
      var keep := NameIn(names);
      FilterMembers(features, keep);
      FilterSubsequence(features, keep);
      FilterMultiplicity(features, keep);
      Filter(features, keep)
    }

    /** `getArchivedFeatures(project)`: the entries with `archived === true`, whatever `project` is. */
    function GetArchivedFeatures(project: string): (r: seq<Feature>)
      reads this
      ensures forall i :: 0 <= i < |r| ==> r[i] in features && r[i].archived == Some(true)
      ensures forall j :: 0 <= j < |features| && features[j].archived == Some(true) ==> features[j] in r
      ensures Subsequence(r, features)
      ensures forall f :: multiset(r)[f] == if f.archived == Some(true) then multiset(features)[f] else 0
    {
      var keep := (f: Feature) => f.archived == Some(true);
      FilterMembers(features, keep);
      FilterSubsequence(features, keep);
      FilterMultiplicity(features, keep);
      Filter(features, keep)
    }

    /**
     * `getFeatureToggleList(query, userId, archived = false)`: the entries with
     * `archived !== archived`; an entry without the property is always kept.
     */
    function GetFeatureToggleList(archived: bool := false): (r: seq<Feature>)
      reads this
      ensures forall i :: 0 <= i < |r| ==> r[i] in features && r[i].archived != Some(archived)
      ensures forall j :: 0 <= j < |features| && features[j].archived != Some(archived) ==> features[j] in r
      ensures Subsequence(r, features)
      ensures forall f :: multiset(r)[f] == if f.archived != Some(archived) then multiset(features)[f] else 0
    {
      var keep := (f: Feature) => f.archived != Some(archived);
      FilterMembers(features, keep);
      FilterSubsequence(features, keep);
      FilterMultiplicity(features, keep);
      Filter(features, keep)
    }

    /** `getProjectId(name)`: the project of the first entry named `name`. */
    function GetProjectId(name: string): (r: Result<string, StoreError>)
      reads this
      ensures r.Failure? <==> !Exists(name)
      ensures r.Failure? ==> r.error == Get(name).error
      ensures r.Success? ==> exists i :: FirstNamed(features, i, name) && features[i].project == r.value
    {
      match Get(name)
      case Success(f) => Success(f.project)
      case Failure(e) => Failure(e)
    }

    /** `getFeatureMetadata(name)`: what `get(name)` returns. */
    function GetFeatureMetadata(name: string): (r: Result<Feature, StoreError>)
      reads this
      ensures r.Failure? <==> !Exists(name)
      ensures r.Failure? ==> r.error == NotFoundError("Could not find feature with name " + name)
      ensures r.Success? ==> exists i :: FirstNamed(features, i, name) && features[i] == r.value
    {
      Get(name)
    }

    /** `getVariants(featureName)`: the `variants` of the first entry with that name. */
    function GetVariants(featureName: string): (r: Result<Option<seq<Variant>>, StoreError>)
      reads this
      ensures r.Failure? <==> !Exists(featureName)
      ensures r.Failure? ==> r.error == NotFoundError("Could not find feature with name " + featureName)
      ensures r.Success? ==> exists i :: FirstNamed(features, i, featureName) && features[i].variants == r.value
    {
      match Get(featureName)
      case Success(f) => Success(f.variants)
      case Failure(e) => Failure(e)
    }

    /** `getVariantsForEnv(featureName, env)`: the environment is ignored. */
    function GetVariantsForEnv(featureName: string, environment: string): (r: Result<Option<seq<Variant>>, StoreError>)
      reads this
      ensures r.Failure? <==> !Exists(featureName)
      ensures r.Failure? ==> r.error == NotFoundError("Could not find feature with name " + featureName)
      ensures r.Success? ==> exists i :: FirstNamed(features, i, featureName) && features[i].variants == r.value
    {
      GetVariants(featureName)
    }

    /**
     * `getAllVariants()`: one record per entry of `getAll()`, in the same order,
     * for the environment "development", enabled, with the entry's variants.
     */
    function GetAllVariants(): (r: seq<FeatureEnvironment>)
      reads this
      ensures |r| == |GetAll()|
      ensures forall i :: 0 <= i < |r| ==>
        && r[i].featureName == GetAll()[i].name
        && r[i].variants == GetAll()[i].variants
        && r[i].environment == "development"
        && r[i].enabled
    {
      var all := GetAll();
      seq(|all|, i requires 0 <= i < |all| =>
        FeatureEnvironment(featureName := all[i].name, environment := "development",
                           variants := all[i].variants, enabled := true))
    }

    // ------------------------------------------------------------------
    // How the lookups relate

    /** A query with no truthy field filters nothing out: `{ archived: false }` returns every entry. */
    lemma FalsyQueryMatchesAll(query: StoreQuery)
      requires !TruthyString(query.project) && !Truthy(query.archived) && !Truthy(query.stale)
      ensures GetBy(query) == features
      ensures Count(query) == |features|
    {
      FilterAllOrNone(features, GetFilterQuery(query));
    }

    /** `getFeatureToggleList(_, _, true)` is exactly `getAll()`: both keep the entries not archived `true`. */
    lemma ToggleListOfTrueIsGetAll()
      ensures GetFeatureToggleList(true) == GetAll()
    {
      FilterCongruent(features, (f: Feature) => f.archived != Some(true), (f: Feature) => !Truthy(f.archived));
    }

    /**
     * The default `getFeatureToggleList()` (archived = false) and `getAll()`
     * agree on an entry exactly when its `archived` is absent: both keep it.
     * An entry archived `false` is only in `getAll()`, one archived `true` only
     * in the list.
     */
    lemma DefaultToggleListVersusGetAll(j: int)
      requires 0 <= j < |features|
      ensures features[j].archived.None? ==> features[j] in GetAll() && features[j] in GetFeatureToggleList()
      ensures features[j].archived == Some(false) ==> features[j] in GetAll() && features[j] !in GetFeatureToggleList()
      ensures features[j].archived == Some(true) ==> features[j] !in GetAll() && features[j] in GetFeatureToggleList()
    {
    }

    /** `getArchivedFeatures` does not depend on its project argument. */
    lemma ArchivedFeaturesIgnoreProject(project1: string, project2: string)
      ensures GetArchivedFeatures(project1) == GetArchivedFeatures(project2)
    {
    }

    /** Every entry is either in `getAll()` or in `getArchivedFeatures(_)`, never both. */
    lemma GetAllAndArchivedSplitTheTable(project: string)
      ensures |GetAll()| + |GetArchivedFeatures(project)| == |features|
    {
      FilterComplement(features, (f: Feature) => !Truthy(f.archived), (f: Feature) => f.archived == Some(true));
    }

    /** `getAllVariants()` has one record per entry of `getAll()`, so as many as the table has unarchived entries. */
    lemma AllVariantsCountsUnarchived(project: string)
      ensures |GetAllVariants()| == |features| - |GetArchivedFeatures(project)|
    {
      GetAllAndArchivedSplitTheTable(project);
    }

    // ------------------------------------------------------------------
    // Insertion and removal

    /** `create(project, data)`: appends `{ ...data, project }`; a duplicate name is not checked. */
    method Create(project: string, data: FeatureDTO) returns (inserted: Feature)
      modifies this
      ensures inserted == Inserted(project, data)
      ensures features == old(features) + [inserted]
      ensures Exists(data.name)
      ensures old(Exists(data.name)) ==> Get(data.name) == old(Get(data.name))
      ensures !old(Exists(data.name)) ==> Get(data.name) == Success(inserted)
    {
      ghost var first := FindIndex(features, NameIs(data.name));
      inserted := Inserted(project, data);
      features := features + [inserted];
      if first >= 0 {
        assert FirstNamed(old(features), first, data.name) && FirstNamed(features, first, data.name);
      } else {
        assert FirstNamed(features, |features| - 1, data.name);
      }
    }

    /**
     * `delete(key)`: `splice(findIndex(name === key), 1)`. It removes the first
     * entry named `key`; when there is none, `splice(-1, 1)` removes the last entry.
     */
    method Delete(key: string)
      modifies this
      ensures old(Exists(key)) ==> exists i :: FirstNamed(old(features), i, key) && features == old(features)[..i] + old(features)[i + 1..]
      ensures !old(Exists(key)) && old(features) != [] ==> features == old(features)[..|old(features)| - 1]
      ensures !old(Exists(key)) && old(features) == [] ==> features == []
    {
      var index := FindIndex(features, NameIs(key));
      features := SpliceOne(features, index);
      if index >= 0 {
        assert FirstNamed(old(features), index, key);
        assert features == old(features)[..index] + old(features)[index + 1..];
      }
    }

    /** `batchDelete(names)`: keeps, in order, exactly the entries whose name is not listed. */
    method BatchDelete(featureNames: seq<string>)
      modifies this
      ensures forall i :: 0 <= i < |features| ==> features[i] in old(features) && features[i].name !in featureNames
      ensures forall j :: 0 <= j < |old(features)| && old(features)[j].name !in featureNames ==> old(features)[j] in features
      ensures forall f :: multiset(features)[f] == if f.name in featureNames then 0 else multiset(old(features))[f]
      ensures Subsequence(features, old(features))
      ensures forall n :: n in featureNames ==> !Exists(n)
    {
      var keep := (f: Feature) => f.name !in featureNames;
      FilterMembers(features, keep);
      FilterSubsequence(features, keep);
      FilterMultiplicity(features, keep);
      features := Filter(features, keep);
    }

    /** `deleteAll()`: empties the table. */
    method DeleteAll()
      modifies this
      ensures features == []
      ensures forall key :: !Exists(key)
    {
      features := [];
    }

    // ------------------------------------------------------------------
    // Flag updates in place

    /** `archive(name)`: sets `archived` on the first entry with that name, or throws. */
    method Archive(featureName: string) returns (r: Result<Feature, StoreError>)
      modifies this
      ensures r.Failure? <==> !old(Exists(featureName))
      ensures r.Failure? ==> features == old(features)
      ensures r.Failure? ==> r.error == NotFoundError("Could not find feature toggle with name " + featureName)
      ensures r.Success? ==>
        exists i ::
          && FirstNamed(old(features), i, featureName)
          && features == old(features)[i := old(features)[i].(archived := Some(true))]
          && r.value == features[i]
    {
      var i := FindIndex(features, NameIs(featureName));
      if i < 0 {
        r := Failure(NotFoundError("Could not find feature toggle with name " + featureName));
      } else {
        features := features[i := features[i].(archived := Some(true))];
        r := Success(features[i]);
        assert FirstNamed(old(features), i, featureName);
      }
    }

    /**
     * The loop shared by the batch updates: applies `change` to every entry
     * that `selected` accepts and returns those entries after the change.
     * (`batchArchive`, `batchRevive` and `batchStale` select by listed name.)
     */
    method ChangeSelected(selected: Feature -> bool, change: Feature -> Feature) returns (changed: seq<Feature>)
      requires forall f :: selected(change(f)) == selected(f)
      modifies this
      ensures |features| == |old(features)|
      ensures forall i :: 0 <= i < |features| ==>
        features[i] == if selected(old(features)[i]) then change(old(features)[i]) else old(features)[i]
      ensures changed == Filter(features, selected)
    {
      var table := features;
      ghost var original := features;
      changed := [];
      var i := 0;
      while i < |table|
        invariant 0 <= i <= |table| == |original|
        invariant forall j :: 0 <= j < i ==>
          table[j] == if selected(original[j]) then change(original[j]) else original[j]
        invariant forall j :: i <= j < |table| ==> table[j] == original[j]
        invariant changed == Filter(table[..i], selected)
      {
        ghost var prefix := table[..i];
        var feature := table[i];
        if selected(feature) {
          feature := change(feature);
          table := table[i := feature];
          changed := changed + [feature];
        }
        assert table[..i + 1] == prefix + [feature];
        FilterSnoc(prefix, feature, selected);
        i := i + 1;
      }
      assert table[..i] == table;
      features := table;
    }

    /** `batchArchive(names)`: archives every listed entry and returns them. */
    method BatchArchive(featureNames: seq<string>) returns (r: seq<Feature>)
      modifies this
      ensures |features| == |old(features)|
      ensures forall i :: 0 <= i < |features| ==>
        features[i] == if old(features)[i].name in featureNames then old(features)[i].(archived := Some(true)) else old(features)[i]
      ensures r == GetAllByNames(featureNames)
      ensures forall i :: 0 <= i < |r| ==> r[i].archived == Some(true)
      ensures forall i :: 0 <= i < |GetAll()| ==> GetAll()[i].name !in featureNames
    {
      r := ChangeSelected(NameIn(featureNames), (f: Feature) => f.(archived := Some(true)));
    }

    /** `batchRevive(names)`: un-archives every listed entry and returns them. */
    method BatchRevive(featureNames: seq<string>) returns (r: seq<Feature>)
      modifies this
      ensures |features| == |old(features)|
      ensures forall i :: 0 <= i < |features| ==>
        features[i] == if old(features)[i].name in featureNames then old(features)[i].(archived := Some(false)) else old(features)[i]
      ensures r == GetAllByNames(featureNames)
      ensures forall i :: 0 <= i < |r| ==> r[i].archived == Some(false)
      ensures forall j :: 0 <= j < |features| && features[j].name in featureNames ==> features[j] in GetAll()
    {
      r := ChangeSelected(NameIn(featureNames), (f: Feature) => f.(archived := Some(false)));
    }

    /** `batchStale(names, stale)`: sets `stale` on every listed entry and returns them. */
    method BatchStale(featureNames: seq<string>, stale: bool) returns (r: seq<Feature>)
      modifies this
      ensures |features| == |old(features)|
      ensures forall i :: 0 <= i < |features| ==>
        features[i] == if old(features)[i].name in featureNames then old(features)[i].(stale := Some(stale)) else old(features)[i]
      ensures r == GetAllByNames(featureNames)
      ensures forall i :: 0 <= i < |r| ==> r[i].stale == Some(stale)
    {
      r := ChangeSelected(NameIn(featureNames), (f: Feature) => f.(stale := Some(stale)));
    }

    // ------------------------------------------------------------------
    // Replace and move

    /**
     * `update(project, data)`: removes the first entry named `data.name` and
     * appends it overridden by `data`; `project` is not used. Throws when no
     * entry has that name.
     */
    method Update(project: string, data: FeatureDTO) returns (r: Result<Feature, StoreError>)
      modifies this
      ensures r.Failure? <==> !old(Exists(data.name))
      ensures r.Failure? ==> features == old(features)
      ensures r.Failure? ==> r.error == NotFoundError("Could not find feature to update")
      ensures r.Success? ==> FirstNamed(old(features), FindIndex(old(features), NameIs(data.name)), data.name)
      ensures r.Success? ==>
        var i := FindIndex(old(features), NameIs(data.name));
        && r.value == Merge(old(features)[i], data)
        && features == old(features)[..i] + old(features)[i + 1..] + [r.value]
      ensures r.Success? ==> |features| == |old(features)| && features[|features| - 1] == r.value
    {
      var found := Exists(data.name);
      if found {
        var id := FindIndex(features, NameIs(data.name));
        var stored := Find(features, NameIs(data.name));
        var updated := Merge(stored.value, data);
        features := SpliceOne(features, id);
        ghost var spliced := features;
        features := features + [updated];
        r := Success(updated);
        assert FirstNamed(old(features), id, data.name);
        assert spliced == old(features)[..id] + old(features)[id + 1..];
      } else {
        r := Failure(NotFoundError("Could not find feature to update"));
      }
    }

    /**
     * `revive(name)`: un-archives the first entry with that name and passes it
     * to `update`, which moves it to the end. With no such entry the source
     * reads `project` of `undefined`, a `TypeError`.
     */
    method Revive(featureName: string) returns (r: Result<Feature, StoreError>)
      modifies this
      ensures r.Failure? <==> !old(Exists(featureName))
      ensures r.Failure? ==> features == old(features)
      ensures r.Failure? ==> r.error == TypeError("Cannot read properties of undefined (reading 'project')")
      ensures r.Success? ==> FirstNamed(old(features), FindIndex(old(features), NameIs(featureName)), featureName)
      ensures r.Success? ==>
        var i := FindIndex(old(features), NameIs(featureName));
        && r.value == old(features)[i].(archived := Some(false))
        && features == old(features)[..i] + old(features)[i + 1..] + [r.value]
      ensures r.Success? ==> |features| == |old(features)| && features[|features| - 1] == r.value
      ensures r.Success? ==> r.value.name == featureName && r.value.archived == Some(false)
    {
      var i := FindIndex(features, NameIs(featureName));
      if i < 0 {
        r := Failure(TypeError("Cannot read properties of undefined (reading 'project')"));
        return;
      }
      ghost var original := features;
      var revive := features[i].(archived := Some(false));
      features := features[i := revive];
      ghost var marked := features;
      FindIndexAfterReplace(original, i, revive, featureName);
      assert marked[i].name == featureName;
      MergeSelf(revive);
      r := Update(revive.project, AsDTO(revive));
      RemoveAfterReplace(original, i, revive);
    }

    /** Replacing the first entry with a name by one of the same name keeps it the first. */
    static lemma FindIndexAfterReplace(s: seq<Feature>, i: int, x: Feature, key: string)
      requires 0 <= i < |s| && FindIndex(s, NameIs(key)) == i && x.name == key
      ensures FindIndex(s[i := x], NameIs(key)) == i
    {
      assert NameIs(key)(s[i := x][i]);
      assert forall j :: 0 <= j < i ==> s[i := x][j] == s[j];
    }

    /** Removing a replaced element is removing the original one. */
    static lemma RemoveAfterReplace(s: seq<Feature>, i: int, x: Feature)
      requires 0 <= i < |s|
      ensures s[i := x][..i] + s[i := x][i + 1..] == s[..i] + s[i + 1..]
    {
    }

    // ------------------------------------------------------------------
    // Variants and last-seen times

    /** `saveVariants(project, name, variants)`: replaces the variants of the first entry with that name. */
    method SaveVariants(project: string, featureName: string, newVariants: seq<Variant>) returns (r: Result<Feature, StoreError>)
      modifies this
      ensures r.Failure? <==> !old(Exists(featureName))
      ensures r.Failure? ==> features == old(features) && r.error == old(Get(featureName)).error
      ensures r.Success? ==>
        exists i ::
          && FirstNamed(old(features), i, featureName)
          && features == old(features)[i := old(features)[i].(variants := Some(newVariants))]
          && r.value == features[i]
      ensures r.Success? ==> GetVariants(featureName) == Success(Some(newVariants))
    {
      var i := FindIndex(features, NameIs(featureName));
      if i < 0 {
        r := Failure(NotFoundError("Could not find feature with name " + featureName));
      } else {
        assert FirstNamed(old(features), i, featureName);
        features := features[i := features[i].(variants := Some(newVariants))];
        r := Success(features[i]);
        assert FirstNamed(features, i, featureName);
      }
    }

    /** `saveVariantsOnEnv(name, env, variants)`: `saveVariants` on project "default"; returns the variants. */
    method SaveVariantsOnEnv(featureName: string, environment: string, newVariants: seq<Variant>) returns (r: Result<seq<Variant>, StoreError>)
      modifies this
      ensures r.Failure? <==> !old(Exists(featureName))
      ensures r.Failure? ==> features == old(features) && r.error == old(Get(featureName)).error
      ensures r.Success? ==> r.value == newVariants
      ensures r.Success? ==>
        exists i ::
          && FirstNamed(old(features), i, featureName)
          && features == old(features)[i := old(features)[i].(variants := Some(newVariants))]
    {
      var saved := SaveVariants("default", featureName, newVariants);
      if saved.Failure? {
        r := Failure(saved.error);
      } else {
        r := Success(newVariants);
      }
    }

    /** `dropAllVariants()`: sets `variants` to the empty list on every entry. */
    method DropAllVariants()
      modifies this
      ensures |features| == |old(features)|
      ensures forall i :: 0 <= i < |features| ==> features[i] == old(features)[i].(variants := Some([]))
      ensures forall key :: Exists(key) ==> GetVariants(key) == Success(Some([]))
    {
      var i := 0;
      while i < |features|
        invariant 0 <= i <= |features| == |old(features)|
        invariant forall j :: 0 <= j < i ==> features[j] == old(features)[j].(variants := Some([]))
        invariant features[i..] == old(features)[i..]
      {
        assert features[i] == old(features)[i];
        features := features[i := features[i].(variants := Some([]))];
        i := i + 1;
      }
    }

    /**
     * `setLastSeen(data)` with the clock reading `now`. The reports are first
     * grouped by environment into a plain object `{}`; an environment named
     * like an inherited `Object.prototype` property skips the group's
     * initialisation, and the `push` that follows throws a `TypeError` before
     * any entry is touched. Otherwise every listed name's first entry gets
     * `lastSeenAt := now` and every other entry is unchanged.
     */
    method SetLastSeen(data: seq<LastSeenInput>, now: int) returns (r: Result<(), StoreError>)
      modifies this
      ensures r.Failure? <==> exists m :: 0 <= m < |data| && data[m].environment in ObjectPrototypeProperties
      ensures r.Failure? ==> features == old(features) && r.error == TypeError("acc[environment].push is not a function")
      ensures r.Success? ==> |features| == |old(features)|
      ensures r.Success? ==> forall i :: 0 <= i < |features| ==>
        features[i] == if FirstNamed(old(features), i, old(features)[i].name) && Reported(data, old(features)[i].name)
                       then old(features)[i].(lastSeenAt := Some(now))
                       else old(features)[i]
    {
      var k := 0;
      while k < |data|
        invariant 0 <= k <= |data|
        invariant forall m :: 0 <= m < k ==> data[m].environment !in ObjectPrototypeProperties
      {
        if data[k].environment in ObjectPrototypeProperties {
          r := Failure(TypeError("acc[environment].push is not a function"));
          return;
        }
        k := k + 1;
      }
      ghost var original := features;
      var table := features;
      k := 0;
      while k < |data|
        invariant 0 <= k <= |data|
        invariant |table| == |original|
        invariant forall i :: 0 <= i < |table| ==> table[i].name == original[i].name
        invariant forall i :: 0 <= i < |table| ==>
          table[i] == if FirstNamed(original, i, original[i].name) && Reported(data[..k], original[i].name)
                      then original[i].(lastSeenAt := Some(now))
                      else original[i]
      {
        var name := data[k].featureName;
        assert data[..k + 1] == data[..k] + [data[k]];
        forall i | 0 <= i < |table| ensures Reported(data[..k + 1], original[i].name) <==> Reported(data[..k], original[i].name) || name == original[i].name {
          ReportedSnoc(data[..k], data[k], original[i].name);
        }
        var index := FindIndex(table, NameIs(name));
        if index >= 0 {
          assert FirstNamed(original, index, name);
          forall i | 0 <= i < |table| && FirstNamed(original, i, original[i].name) && original[i].name == name ensures i == index {
            FirstNamedUnique(original, i, index, name);
          }
          table := table[index := table[index].(lastSeenAt := Some(now))];
        } else {
          forall i | 0 <= i < |table| ensures original[i].name != name {
            assert table[i].name != name;
          }
        }
        k := k + 1;
      }
      assert data[..k] == data;
      features := table;
      r := Success(());
    }
  }
}
