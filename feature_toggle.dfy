/**
 * The records the feature-toggle store holds and takes: a stored feature
 * toggle, the data transfer object passed to `create` and `update`, the
 * partial query of `getBy`/`count`, and the error the store throws.
 * Optional JavaScript properties are `Option`s; `None` is an absent property.
 */
module FeatureToggle {
  import opened Wrappers

  /** A variant of a feature toggle; the store only stores and returns variants. */
  datatype Variant = Variant(name: string, weight: int, stickiness: string)

  /** A stored feature toggle (the fields of `FeatureToggle` the store reads or writes). */
  datatype Feature = Feature(
    name: string,
    project: string,
    archived: Option<bool>,
    stale: Option<bool>,
    variants: Option<seq<Variant>>,
    lastSeenAt: Option<int>)

  /** The data passed to `create` and `update`: every property but the name may be absent. */
  datatype FeatureDTO = FeatureDTO(
    name: string,
    project: Option<string>,
    archived: Option<bool>,
    stale: Option<bool>,
    variants: Option<seq<Variant>>,
    lastSeenAt: Option<int>)

  /** A `Partial<IFeatureToggleStoreQuery>`: each condition may be absent. */
  datatype StoreQuery = StoreQuery(project: Option<string>, archived: Option<bool>, stale: Option<bool>)

  /** The per-environment variant record `getAllVariants` builds. */
  datatype FeatureEnvironment = FeatureEnvironment(
    featureName: string,
    environment: string,
    variants: Option<seq<Variant>>,
    enabled: bool)

  /** One report passed to `setLastSeen`. */
  datatype LastSeenInput = LastSeenInput(featureName: string, environment: string)

  /**
   * The property names a plain object `{}` inherits from `Object.prototype`.
   * Each reads as a truthy value (a method, or the prototype itself for
   * `__proto__`) that has no `push` method.
   */
  const ObjectPrototypeProperties: set<string> := {
    "constructor", "__proto__", "__defineGetter__", "__defineSetter__",
    "__lookupGetter__", "__lookupSetter__", "hasOwnProperty", "isPrototypeOf",
    "propertyIsEnumerable", "toString", "toLocaleString", "valueOf"
  }

  /** Some report in `data` names `name`. */
  predicate Reported(data: seq<LastSeenInput>, name: string) {
    exists m :: 0 <= m < |data| && data[m].featureName == name
  }

  /** One more report adds exactly its name to the reported names. */
  lemma ReportedSnoc(data: seq<LastSeenInput>, report: LastSeenInput, name: string)
    ensures Reported(data + [report], name) <==> Reported(data, name) || report.featureName == name
  {
    if Reported(data + [report], name) && report.featureName != name {
      var m :| 0 <= m < |data| + 1 && (data + [report])[m].featureName == name;
      assert data[m].featureName == name;
    }
    if Reported(data, name) {
      var m :| 0 <= m < |data| && data[m].featureName == name;
      assert (data + [report])[m].featureName == name;
    }
    if report.featureName == name {
      assert (data + [report])[|data|].featureName == name;
    }
  }

  /** What the store throws: `NotFoundError`, or the `TypeError` of reading a property of `undefined`. */
  datatype StoreError = NotFoundError(message: string) | TypeError(message: string)

  /** JavaScript truthiness of an optional boolean: only `true` is truthy. */
  predicate Truthy(b: Option<bool>) {
    b == Some(true)
  }

  /** JavaScript truthiness of an optional string: present and non-empty. */
  predicate TruthyString(s: Option<string>) {
    s.Some? && s.value != ""
  }

  /** The callback `(f) => f.name === key`. */
  function NameIs(key: string): (p: Feature -> bool)
    ensures forall f :: p(f) <==> f.name == key
  {
    (f: Feature) => f.name == key
  }

  /** The callback `(f) => names.includes(f.name)`. */
  function NameIn(names: seq<string>): (p: Feature -> bool)
    ensures forall f :: p(f) <==> f.name in names
  {
    (f: Feature) => f.name in names
  }

  /** `i` is the position of the first feature named `key` in `fs`. */
  predicate FirstNamed(fs: seq<Feature>, i: int, key: string) {
    0 <= i < |fs| && fs[i].name == key && forall j :: 0 <= j < i ==> fs[j].name != key
  }

  /** Spread of one required property: a present property of the right-hand object wins. */
  function Override<T>(stored: T, patch: Option<T>): T {
    if patch.Some? then patch.value else stored
  }

  /** Spread of one optional property: a present property of the right-hand object wins. */
  function OverrideOptional<T>(stored: Option<T>, patch: Option<T>): Option<T> {
    if patch.Some? then patch else stored
  }

  /** `{ ...old, ...data }`: `stored` (the `old` of `update`) with every property `data` has replaced. */
  function Merge(stored: Feature, data: FeatureDTO): (r: Feature)
    ensures r.name == data.name
    ensures data.project.Some? ==> r.project == data.project.value
    ensures data.project.None? ==> r.project == stored.project
  {
    Feature(
      data.name,
      Override(stored.project, data.project),
      OverrideOptional(stored.archived, data.archived),
      OverrideOptional(stored.stale, data.stale),
      OverrideOptional(stored.variants, data.variants),
      OverrideOptional(stored.lastSeenAt, data.lastSeenAt))
  }

  /** `{ ...data, project }`: the record `create` inserts. */
  function Inserted(project: string, data: FeatureDTO): (r: Feature)
    ensures r.name == data.name && r.project == project
  {
    Feature(project := project, name := data.name, archived := data.archived,
            stale := data.stale, variants := data.variants, lastSeenAt := data.lastSeenAt)
  }

  /** A stored feature passed where a DTO is expected (as `revive` does): it has the properties the feature has. */
  function AsDTO(f: Feature): (d: FeatureDTO)
    ensures d.name == f.name
  {
    FeatureDTO(f.name, Some(f.project), f.archived, f.stale, f.variants, f.lastSeenAt)
  }

  /** Merging a feature with itself (the call `update(revive.project, revive)`) gives it back. */
  lemma MergeSelf(f: Feature)
    ensures Merge(f, AsDTO(f)) == f
  {
  }

  /** A DTO with only a name leaves everything else of the stored feature. */
  lemma MergeNameOnly(f: Feature)
    ensures Merge(f, FeatureDTO(f.name, None, None, None, None, None)) == f
  {
  }

  /** Merging twice with the same data is merging once. */
  lemma MergeIdempotent(f: Feature, d: FeatureDTO)
    ensures Merge(Merge(f, d), d) == Merge(f, d)
  {
  }

  /** The first position of a name is unique. */
  lemma FirstNamedUnique(fs: seq<Feature>, i: int, j: int, key: string)
    requires FirstNamed(fs, i, key) && FirstNamed(fs, j, key)
    ensures i == j
  {
  }
}
