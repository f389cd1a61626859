# In-memory feature-toggle store

A model of `FakeFeatureToggleStore`, the in-memory feature-toggle store that
the feature-flag platform's test suites use in place of the database. The
store keeps one mutable table, `features`. It inserts into it, looks entries
up with filters, flips `archived`, `stale`, `variants` and `lastSeenAt` on
entries in place, removes entries, and moves an updated entry to the end. The
model proves what each operation does to the table and what it returns.

Files:

- `wrappers.dfy` (`Wrappers`): `Option` for optional JavaScript properties and
  `Result` for an operation that returns a value or throws.
- `array_ops.dfy` (`ArrayOps`): the JavaScript array built-ins the store is
  written with: `find`, `findIndex`, `some`, `filter`, and `splice(start, 1)`
  with JavaScript's rule for a negative start. Also lemmas about `filter`:
  order, multiplicity, congruence, complement.
- `feature_toggle.dfy` (`FeatureToggle`): the records. `Feature` is a stored
  toggle and `FeatureDTO` is the data passed to `create` and `update`. Also
  the partial store query, the error type, JavaScript truthiness of optional
  fields, and the object spreads `{ ...old, ...data }` and
  `{ ...data, project }`.
- `fake_feature_toggle_store.dfy` (`FeatureToggleStore`): the class
  `FakeFeatureToggleStore` with `var features: seq<Feature>`. Lookups are
  functions that read `this`. Operations that change the table are methods
  that modify `this`; their postconditions state the new table in terms of
  the old one.

The store's quirks are modelled as written, not corrected:

- `delete` of a missing name calls `splice(-1, 1)`, so it removes the last
  entry.
- `update` and `revive` move the entry to the end of the table.
- `create` does not check for a duplicate name. A later `get` still returns
  the older entry.
- Each filter condition of `getBy`/`count` applies only when its query field
  is truthy, so `{ archived: false }` matches everything.
- `getAll` drops entries whose `archived` is truthy. `getFeatureToggleList`
  keeps entries with `archived !== archived`. With the default `false`, it
  therefore returns the archived entries and those without the property.
- `revive` of a missing name reads `project` of `undefined`. That throws a
  `TypeError`, not a `NotFoundError`.

Elsewhere the platform treats a feature's name as a unique key. This store
does not enforce that. The model follows the code: all "first entry named k"
statements allow duplicates.

## Model

| member | source | states |
|---|---|---|
| `ArrayOps.FindIndex` | src/lib/features/feature-toggle/fakes/fake-feature-toggle-store.ts:121 | the result is -1 exactly when no element matches; otherwise it is a matching index with no match before it |
| `ArrayOps.Find` | src/lib/features/feature-toggle/fakes/fake-feature-toggle-store.ts:137 | the result is `undefined` exactly when `findIndex` gives -1; otherwise it is the element at that index |
| `ArrayOps.Any` | src/lib/features/feature-toggle/fakes/fake-feature-toggle-store.ts:133 | true exactly when some element matches, i.e. when `findIndex` is not -1 |
| `ArrayOps.Filter` | src/lib/features/feature-toggle/fakes/fake-feature-toggle-store.ts:145 | the result is never longer than the input, and is as long exactly when every element passes |
| `ArrayOps.FilterMembers` | src/lib/features/feature-toggle/fakes/fake-feature-toggle-store.ts:145 | every kept element is an input element that passes, and every input element that passes is kept |
| `ArrayOps.FilterSubsequence` | src/lib/features/feature-toggle/fakes/fake-feature-toggle-store.ts:145 | the kept elements appear in the input's order |
| `ArrayOps.SpliceStart` | src/lib/features/feature-toggle/fakes/fake-feature-toggle-store.ts:120-123 | where `splice` starts: a negative start counts back from the end, clamped at 0; a non-negative one is clamped at the length |
| `ArrayOps.SpliceOne` | src/lib/features/feature-toggle/fakes/fake-feature-toggle-store.ts:120-123 | removes exactly the element at the start position, shifting the rest down, or nothing if the start is at the end; `splice(-1, 1)` drops the last element of a non-empty array |
| `ArrayOps.FilterAppend` | src/lib/features/feature-toggle/fakes/fake-feature-toggle-store.ts:37-39 | filtering a concatenation is the concatenation of the filters, so filtering keeps order |
| `ArrayOps.FilterSnoc` | src/lib/features/feature-toggle/fakes/fake-feature-toggle-store.ts:40-42 | filtering a sequence extended by one element extends the filter by that element exactly when it passes |
| `ArrayOps.FilterMultiplicity` | src/lib/features/feature-toggle/fakes/fake-feature-toggle-store.ts:60-62 | every element occurs in the filter as often as in the input if it passes, and not at all otherwise |
| `ArrayOps.FilterCongruent` | src/lib/features/feature-toggle/fakes/fake-feature-toggle-store.ts:171 | two callbacks that agree on every element give the same filter |
| `ArrayOps.FilterAllOrNone` | src/lib/features/feature-toggle/fakes/fake-feature-toggle-store.ts:155 | a callback every element passes gives back the whole array; one none pass gives the empty array |
| `ArrayOps.FilterComplement` | src/lib/features/feature-toggle/fakes/fake-feature-toggle-store.ts:175 | filtering by a callback and by its negation gives lengths that add up to the input's |
| `FeatureToggle.NameIs` | src/lib/features/feature-toggle/fakes/fake-feature-toggle-store.ts:26 | the callback `(f) => f.name === key` accepts exactly the features with that name |
| `FeatureToggle.NameIn` | src/lib/features/feature-toggle/fakes/fake-feature-toggle-store.ts:37-39 | the callback `(f) => names.includes(f.name)` accepts exactly the features whose name is listed |
| `FeatureToggle.Merge` | src/lib/features/feature-toggle/fakes/fake-feature-toggle-store.ts:194 | `{ ...old, ...data }`: the name is `data`'s; the project is `data`'s when present, else the stored one's |
| `FeatureToggle.Inserted` | src/lib/features/feature-toggle/fakes/fake-feature-toggle-store.ts:114 | `{ ...data, project }` has `data`'s name and the given project |
| `FeatureToggle.AsDTO` | src/lib/features/feature-toggle/fakes/fake-feature-toggle-store.ts:163 | a stored feature passed as the update data keeps its name |
| `FeatureToggle.MergeSelf` | src/lib/features/feature-toggle/fakes/fake-feature-toggle-store.ts:163 | merging a feature with itself, the call `update(revive.project, revive)`, gives the feature back |
| `FeatureToggle.MergeNameOnly` | src/lib/features/feature-toggle/fakes/fake-feature-toggle-store.ts:194 | update data that carries only the name leaves the stored feature as it was |
| `FeatureToggle.MergeIdempotent` | src/lib/features/feature-toggle/fakes/fake-feature-toggle-store.ts:194 | merging twice with the same data is the same as merging once |
| `FeatureToggle.FirstNamedUnique` | src/lib/features/feature-toggle/fakes/fake-feature-toggle-store.ts:192-193 | there is only one first position of a name, so `findIndex` and `find` in `update` pick the same entry |
| `FeatureToggle.ReportedSnoc` | src/lib/features/feature-toggle/fakes/fake-feature-toggle-store.ts:203-216 | one more last-seen report adds exactly its feature name to the reported names |
| `FeatureToggleStore.FakeFeatureToggleStore.constructor` | src/lib/features/feature-toggle/fakes/fake-feature-toggle-store.ts:23 | a new store has an empty table |
| `FeatureToggleStore.FakeFeatureToggleStore.Exists` | src/lib/features/feature-toggle/fakes/fake-feature-toggle-store.ts:132-134 | true exactly when some entry has the name |
| `FeatureToggleStore.FakeFeatureToggleStore.Get` | src/lib/features/feature-toggle/fakes/fake-feature-toggle-store.ts:136-142 | fails with `NotFoundError` (and the source's message) exactly when `exists` is false; otherwise returns the first entry with that name |
| `FeatureToggleStore.FakeFeatureToggleStore.GetAll` | src/lib/features/feature-toggle/fakes/fake-feature-toggle-store.ts:144-146 | keeps, in table order, exactly the entries whose `archived` is not truthy (absent or `false`), each as many times as it occurs in the table |
| `FeatureToggleStore.FakeFeatureToggleStore.GetFilterQuery` | src/lib/features/feature-toggle/fakes/fake-feature-toggle-store.ts:92-108 | accepts a feature exactly when each truthy query field matches: a non-empty project equal, `archived: true` needs `archived === true`, `stale: true` needs `stale === true`; other fields impose nothing |
| `FeatureToggleStore.FakeFeatureToggleStore.GetBy` | src/lib/features/feature-toggle/fakes/fake-feature-toggle-store.ts:152-156 | keeps, in table order, exactly the entries the query's filter accepts, each as many times as it occurs in the table |
| `FeatureToggleStore.FakeFeatureToggleStore.Count` | src/lib/features/feature-toggle/fakes/fake-feature-toggle-store.ts:80-82 | equals the length of `getBy(query)` and is at most the table's length |
| `FeatureToggleStore.FakeFeatureToggleStore.GetAllByNames` | src/lib/features/feature-toggle/fakes/fake-feature-toggle-store.ts:84-86 | keeps, in table order, exactly the entries whose name is listed, each as many times as it occurs in the table |
| `FeatureToggleStore.FakeFeatureToggleStore.GetArchivedFeatures` | src/lib/features/feature-toggle/fakes/fake-feature-toggle-store.ts:174-176 | keeps, in table order, exactly the entries with `archived === true`, each as many times as it occurs in the table |
| `FeatureToggleStore.FakeFeatureToggleStore.GetFeatureToggleList` | src/lib/features/feature-toggle/fakes/fake-feature-toggle-store.ts:166-172 | keeps, in table order, exactly the entries whose `archived` is not the given boolean (default `false`), including every entry without the property, each as many times as it occurs in the table |
| `FeatureToggleStore.FakeFeatureToggleStore.GetProjectId` | src/lib/features/feature-toggle/fakes/fake-feature-toggle-store.ts:88-90 | fails with `get`'s error exactly when the name is missing; otherwise is the project of the first entry with that name |
| `FeatureToggleStore.FakeFeatureToggleStore.GetFeatureMetadata` | src/lib/features/feature-toggle/fakes/fake-feature-toggle-store.ts:148-150 | with the name missing, `NotFoundError` with `get`'s message; otherwise the first entry with the name, as `get` returns it |
| `FeatureToggleStore.FakeFeatureToggleStore.GetVariants` | src/lib/features/feature-toggle/fakes/fake-feature-toggle-store.ts:231-234 | fails with `NotFoundError` exactly when the name is missing; otherwise is the (possibly absent) `variants` of the first entry with that name |
| `FeatureToggleStore.FakeFeatureToggleStore.GetVariantsForEnv` | src/lib/features/feature-toggle/fakes/fake-feature-toggle-store.ts:247-253 | ignores the environment: with the name missing, `NotFoundError`; otherwise the possibly absent `variants` of the first entry with the name, as `getVariants` returns |
| `FeatureToggleStore.FakeFeatureToggleStore.GetAllVariants` | src/lib/features/feature-toggle/fakes/fake-feature-toggle-store.ts:236-245 | one record per entry of `getAll()`, in order, with that entry's name and variants, environment "development" and enabled |
| `FeatureToggleStore.FakeFeatureToggleStore.FalsyQueryMatchesAll` | src/lib/features/feature-toggle/fakes/fake-feature-toggle-store.ts:92-108 | a query with no truthy field (e.g. `{ archived: false }`) makes `getBy` return the whole table and `count` its length |
| `FeatureToggleStore.FakeFeatureToggleStore.ToggleListOfTrueIsGetAll` | src/lib/features/feature-toggle/fakes/fake-feature-toggle-store.ts:166-172 | `getFeatureToggleList(_, _, true)` equals `getAll()` |
| `FeatureToggleStore.FakeFeatureToggleStore.DefaultToggleListVersusGetAll` | src/lib/features/feature-toggle/fakes/fake-feature-toggle-store.ts:144-172 | an entry without `archived` is in both `getAll()` and the default `getFeatureToggleList()`; one archived `false` only in `getAll()`; one archived `true` only in the list |
| `FeatureToggleStore.FakeFeatureToggleStore.ArchivedFeaturesIgnoreProject` | src/lib/features/feature-toggle/fakes/fake-feature-toggle-store.ts:174-176 | `getArchivedFeatures` gives the same result for every project argument |
| `FeatureToggleStore.FakeFeatureToggleStore.GetAllAndArchivedSplitTheTable` | src/lib/features/feature-toggle/fakes/fake-feature-toggle-store.ts:144-176 | `getAll()` and `getArchivedFeatures(_)` together have as many entries as the table |
| `FeatureToggleStore.FakeFeatureToggleStore.AllVariantsCountsUnarchived` | src/lib/features/feature-toggle/fakes/fake-feature-toggle-store.ts:236-245 | `getAllVariants()` has one record per entry not archived `true` |
| `FeatureToggleStore.FakeFeatureToggleStore.Create` | src/lib/features/feature-toggle/fakes/fake-feature-toggle-store.ts:110-117 | appends exactly `{ ...data, project }` at the end, leaving every existing entry; the name then exists; with a duplicate name `get` still returns the older entry, otherwise the new one |
| `FeatureToggleStore.FakeFeatureToggleStore.Delete` | src/lib/features/feature-toggle/fakes/fake-feature-toggle-store.ts:119-124 | removes the first entry with the name when there is one; otherwise removes the last entry of a non-empty table and leaves an empty one empty |
| `FeatureToggleStore.FakeFeatureToggleStore.BatchDelete` | src/lib/features/feature-toggle/fakes/fake-feature-toggle-store.ts:59-64 | keeps, in order and with their multiplicity, exactly the entries whose name is not listed; no listed name exists afterwards |
| `FeatureToggleStore.FakeFeatureToggleStore.DeleteAll` | src/lib/features/feature-toggle/fakes/fake-feature-toggle-store.ts:126-128 | the table is empty and no name exists |
| `FeatureToggleStore.FakeFeatureToggleStore.Archive` | src/lib/features/feature-toggle/fakes/fake-feature-toggle-store.ts:25-34 | on a present name sets `archived` to `true` on the first match only and returns it, leaving every other entry, field, the length and the order; on a missing name throws `NotFoundError` and leaves the table |
| `FeatureToggleStore.FakeFeatureToggleStore.ChangeSelected` | src/lib/features/feature-toggle/fakes/fake-feature-toggle-store.ts:36-44 | applies the change to exactly the selected entries (for the batch updates: those whose name is listed), keeping length and order, and returns those entries after the change, in order |
| `FeatureToggleStore.FakeFeatureToggleStore.BatchArchive` | src/lib/features/feature-toggle/fakes/fake-feature-toggle-store.ts:36-44 | sets `archived` to `true` on every listed entry and nothing else; returns exactly `getAllByNames(names)`, all archived; no listed name is left in `getAll()` |
| `FeatureToggleStore.FakeFeatureToggleStore.BatchRevive` | src/lib/features/feature-toggle/fakes/fake-feature-toggle-store.ts:66-74 | sets `archived` to `false` on every listed entry and nothing else; returns exactly `getAllByNames(names)`; every listed entry is then in `getAll()` |
| `FeatureToggleStore.FakeFeatureToggleStore.BatchStale` | src/lib/features/feature-toggle/fakes/fake-feature-toggle-store.ts:46-57 | sets `stale` to the given value on every listed entry and nothing else; returns exactly `getAllByNames(names)` |
| `FeatureToggleStore.FakeFeatureToggleStore.Update` | src/lib/features/feature-toggle/fakes/fake-feature-toggle-store.ts:186-200 | with the name present: removes the first match and appends it overridden by `data` at the end, keeping the length; the project argument is unused. With it missing: throws `NotFoundError` and leaves the table |
| `FeatureToggleStore.FakeFeatureToggleStore.Revive` | src/lib/features/feature-toggle/fakes/fake-feature-toggle-store.ts:158-164 | with the name present: the first match, with `archived` set to `false`, moves to the end and is returned. With it missing: a `TypeError` and no change |
| `FeatureToggleStore.FakeFeatureToggleStore.FindIndexAfterReplace` | src/lib/features/feature-toggle/fakes/fake-feature-toggle-store.ts:159-163 | after `revive` changes the first entry with a name in place, `update` finds that same entry first |
| `FeatureToggleStore.FakeFeatureToggleStore.RemoveAfterReplace` | src/lib/features/feature-toggle/fakes/fake-feature-toggle-store.ts:161-164 | removing the entry `revive` changed in place leaves the same table as removing the original entry |
| `FeatureToggleStore.FakeFeatureToggleStore.SaveVariants` | src/lib/features/feature-toggle/fakes/fake-feature-toggle-store.ts:255-263 | replaces the variants of the first entry with the name and nothing else, after which `getVariants` returns them; with the name missing it fails with `get`'s error and leaves the table |
| `FeatureToggleStore.FakeFeatureToggleStore.SaveVariantsOnEnv` | src/lib/features/feature-toggle/fakes/fake-feature-toggle-store.ts:265-272 | changes the table as `saveVariants` does, ignoring the environment, and returns the new variants; fails with `get`'s error when the name is missing |
| `FeatureToggleStore.FakeFeatureToggleStore.DropAllVariants` | src/lib/features/feature-toggle/fakes/fake-feature-toggle-store.ts:309-314 | sets `variants` to `[]` on every entry and changes nothing else, so `getVariants` of every present name returns `[]` |
| `FeatureToggleStore.FakeFeatureToggleStore.SetLastSeen` | src/lib/features/feature-toggle/fakes/fake-feature-toggle-store.ts:202-229 | a report whose environment is an inherited `Object.prototype` property name (`constructor`, `__proto__`, `toString`, …) makes the grouping `reduce` throw a `TypeError`, and the table is unchanged; otherwise the first entry of every reported name gets `lastSeenAt` set to the clock reading, and every other entry, including later duplicates of a name, is unchanged |

## Left out

- The store's calls are asynchronous (they return promises). The model runs every call synchronously and models a thrown error as `Failure`.
- Values are not references. The source hands out the very objects held in the table from `get`, `getAll`, `getBy`, `getAllByNames`, `getArchivedFeatures`, `getFeatureToggleList`, `getFeatureMetadata`, `create`, `archive`, the batch updates, `update`, `revive` and `saveVariants`. That aliasing is not modelled in either direction: a caller writing to a returned object would change the table, and an object returned earlier sees later in-place writes of the store (for example `get` followed by `archive`, `batchStale`, `saveVariants`, `dropAllVariants` or `setLastSeen`). The model returns the entries' values at return time.
- Fields of a feature toggle that the store never reads or writes (description, type, enabled, timestamps other than `lastSeenAt`, and so on) are not modelled. The object spreads copy them unchanged.
- `Variant` keeps only a name, a weight and a stickiness. The store never looks inside a variant.
- `FeatureToggle.Merge`: a property of the update data that is present but set to `undefined` would clear the stored property in JavaScript. The model treats it as absent and keeps the stored value.
- `FeatureToggleStore.FakeFeatureToggleStore.SetLastSeen`: the clock is a parameter `now` read once. The source calls `new Date()` per entry, and the readings can differ by milliseconds. The per-environment groups themselves are not built. The model keeps only their failure (an inherited property name as environment) and the fact that the names in them are the reported names. The order in which the groups are visited therefore does not appear.
- `FeatureToggleStore.FakeFeatureToggleStore.GetFeatureToggleList`: the `query` and `userId` parameters are not modelled because the source ignores them.
- `countByDate` is not modelled. It parses date strings with `new Date(...)`, and the model has no date parsing.
- `disableAllEnvironmentsForFeatures`, `updatePotentiallyStaleFeatures`, `isPotentiallyStale` and `getFeatureTypeCounts` are not modelled. They only throw "Method not implemented."
- `getPlaygroundFeatures` and `destroy` are not modelled. The first is an identity filter with a type cast; the second does nothing.
- The state import/export service, the client metrics HTTP controller and the React components are not part of this model.
- The `TypeError` messages of `revive` on a missing name and of `setLastSeen` on an inherited environment name are the wording of the V8 JavaScript engine. The source does not produce the text itself.
