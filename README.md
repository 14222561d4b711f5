# Locale catalogs: deep merge of JSON message fragments

The site's translations are split across many small JSON files, one per page
section and locale (`…/_/en.json`, `…/_/ua.json`). At start-up
`loadLocaleMessages(locale)` builds one catalog per locale. It starts from `{}`
and, for every discovered file whose path ends in `/<locale>.json`, calls
`deepMerge(catalog, data)`. That call walks the keys of the fragment and
changes the catalog in place:

- a nested object is merged member by member into the object already there,
  which is replaced by a fresh `{}` first when it is missing, falsy or not of
  type "object";
- any other value (string, number, boolean, `null`, array) overwrites the slot.

This project models both operations and proves what the catalog holds.

- `json.dfy` (module `Json`): JSON values and the two JavaScript tests the
  merge applies to them, truthiness and `typeof v === "object"`.
- `i18n.dfy` (module `I18n`) holds three things:
  - `Merge`, the merge stated key by key on values;
  - the class `LocaleMessages`, whose `DeepMerge` is the in-place loop over the
    fragment's keys and is proved to leave exactly `Merge` behind;
  - `LoadLocaleMessages`, the loop over the discovered files, proved to return
    the left fold of `Merge` over the selected fragments in discovery order.
- `merge_props.dfy` (module `MergeProperties`) proves properties of one merge:
  - how a nested object is merged into the one already there;
  - idempotence;
  - merging into `{}` copies the fragment;
  - which key paths survive from the target and from the fragment;
  - when fragment order matters;
  - the array case listed under Findings.
- `load_props.dfy` (module `LoadProperties`) proves properties of the loader:
  - which files are selected and in what order;
  - that the last file to set a key or a nested key path wins;
  - which key paths keep their starting value;
  - the single-file catalog.
- `scenarios.dfy` (module `Scenarios`) checks worked examples on concrete
  catalogs.

## Model

| member | source | states |
|---|---|---|
| Json.IsTruthy | src/i18n/index.ts:7-8 | JavaScript truthiness on JSON values: the falsy values are exactly `null`, `false`, `0` and `""` |
| Json.IsTypeofObject | src/i18n/index.ts:7-8 | `typeof v === "object"` holds of every value except booleans, numbers and strings, and `null` is the only falsy value that passes it |
| Json.IsMergeableObject | src/i18n/index.ts:7 | the source test (truthy, `typeof` "object", not an array) holds exactly of JSON objects: `null`, falsy scalars and arrays take the overwrite branch |
| Json.NeedsFreshObject | src/i18n/index.ts:8-10 | a target slot is replaced by `{}` unless it already holds an object or an array; a missing, falsy or scalar slot is replaced |
| I18n.Merge | src/i18n/index.ts:5-17 | the merged catalog has exactly the keys of target and fragment; keys only in the target keep their value; a non-object fragment value is stored as is; a fragment object leaves an object |
| I18n.LocaleMessages.constructor | src/i18n/index.ts:22 | a new catalog holds exactly the members it is given (`{}` for the loader) |
| I18n.LocaleMessages.DeepMerge | src/i18n/index.ts:5-17 | visiting the fragment's keys in any order and updating in place leaves exactly `Merge(old catalog, fragment)` |
| I18n.LocaleMessages.MergeMember | src/i18n/index.ts:7-14 | one turn of the loop changes only the slot at `key`: a fragment object is merged into the slot's object (or a fresh `{}`), anything else overwrites it |
| I18n.IsLocaleFile | src/i18n/index.ts:25 | `path.endsWith("/" + locale + ".json")` holds exactly when the path ends in a slash, then the locale, then `.json` |
| I18n.Fragments | src/i18n/index.ts:24-27 | the filter selects only the data of files whose path names the locale |
| I18n.FoldMerge | src/i18n/index.ts:24-29 | merging the selected fragments one after the other drops no key: the catalog holds exactly the keys of its start and of every fragment |
| I18n.LoadLocaleMessages | src/i18n/index.ts:21-32 | the catalog is the left fold of the merge from `{}` over the data of exactly the files whose path ends in `/<locale>.json`, in discovery order |
| I18n.NoFileEmptyCatalog | src/i18n/index.ts:21-32 | when no path names the locale, nothing is selected and the catalog is `{}` |
| MergeProperties.Idempotent | src/i18n/index.ts:5-17 | merging a fragment a second time changes nothing |
| MergeProperties.IntoEmpty | src/i18n/index.ts:8-11 | merging a fragment into `{}` gives back the fragment itself |
| MergeProperties.ObjectMerged | src/i18n/index.ts:7-11 | a fragment object is merged into the target's object at that key, not put in its place: every member the fragment lacks keeps its value, the keys are the union, and non-object members of the fragment win; when the target holds no object there (missing, falsy or scalar), the result is the fragment object itself |
| MergeProperties.SourcePathKept | src/i18n/index.ts:6-14 | every key path of the fragment exists in the result, and a non-object value at its end is the one the result holds there |
| MergeProperties.TargetPathKept | src/i18n/index.ts:6-14 | a key path of the target keeps its value when the fragment has only objects along it and lacks its last member |
| MergeProperties.DisjointCommute | src/i18n/index.ts:24-29 | two fragments with no top-level key in common give the same catalog in either order |
| MergeProperties.ConflictOrderMatters | src/i18n/index.ts:12-13 | two fragments setting one key to different non-object values give different catalogs in the two orders: the later one wins |
| MergeProperties.ArrayTargetKept | src/i18n/index.ts:8 | as written, an array in the target passes the target test when the fragment holds an object there, so it is recursed into rather than replaced |
| MergeProperties.ArrayTargetReplaced | src/i18n/index.ts:8-11 | with arrays treated as atomic, a fragment object replaces an array in the target with a copy of itself |
| LoadProperties.FoldUntouched | src/i18n/index.ts:6 | a key that no fragment mentions keeps the value it started with |
| LoadProperties.LastScalarWins | src/i18n/index.ts:12-13 | the last fragment to give a key a non-object value decides that key in the catalog |
| LoadProperties.PathUntouched | src/i18n/index.ts:24-29 | a key path, nested or not, that every fragment spares keeps its starting value through the fold |
| LoadProperties.LastPathWins | src/i18n/index.ts:24-29 | the last fragment to put a non-object value at a key path, nested or not, decides that path when the later fragments spare it |
| LoadProperties.FragmentsAppend | src/i18n/index.ts:24-25 | selection keeps discovery order: the fragments of two runs of files are those of the first run, then those of the second |
| LoadProperties.SplitAt | src/i18n/index.ts:24-25 | the selection is the files before position `i`, then the file at `i` if its path matches, then the files after it |
| LoadProperties.MatchingFileSelected | src/i18n/index.ts:25-27 | every file whose path names the locale contributes its data, right after the fragments of the files before it |
| LoadProperties.OtherFileIgnored | src/i18n/index.ts:25 | a file whose path does not name the locale contributes nothing: dropping it leaves the selection as it was |
| LoadProperties.LocaleFileShape | src/i18n/index.ts:25 | a path is selected exactly when it is some prefix, then `/`, the locale and `.json` |
| LoadProperties.SuffixNeedsSlash | src/i18n/index.ts:25 | the slash is part of the suffix: `x/_/men.json` is not an `en` file, while `x/_/en.json` is |
| LoadProperties.SingleFileCatalog | src/i18n/index.ts:21-32 | a locale with exactly one file gets that file's data as its catalog |
| Scenarios.NestedMembersCombine | src/i18n/index.ts:7-11 | `{a: {x: 1}}` merged with `{a: {y: 2}, b: 3}` is `{a: {x: 1, y: 2}, b: 3}` |
| Scenarios.ScalarReplacedByObject | src/i18n/index.ts:8-11 | `{a: 1}` merged with `{a: {x: 1}}` is `{a: {x: 1}}` |
| Scenarios.ArrayReplacedWhole | src/i18n/index.ts:12-13 | arrays are replaced, not concatenated: `{tags: [1, 2]}` merged with `{tags: [3]}` is `{tags: [3]}` |
| Scenarios.FalsyOverwritesObject | src/i18n/index.ts:12-13 | a falsy fragment value overwrites an object: `{a: {x: 1}}` merged with `{a: ""}` is `{a: ""}` |
| Scenarios.ThreeFilesSelection | src/i18n/index.ts:24-25 | of two `en` files and one `ua` file, the `en` selection is the two `en` files in discovery order |
| Scenarios.TwoFilesOneCatalog | src/i18n/index.ts:21-32 | the `en` catalog of those three files holds both `en` members and nothing from the `ua` file |
| Scenarios.NestedKeyDropped | src/i18n/index.ts:12-13 | no key is dropped at the top level only: `{a: {b: 1}}` then `{a: "x"}` gives `{a: "x"}`, which has no `a.b` |

## Left out

- File discovery through `import.meta.glob` (src/i18n/index.ts:19) happens at build time. The model takes the discovered files as a given sequence of `LocaleModule(path, data)`.
- The `(mod as any).default || mod` unwrapping (src/i18n/index.ts:26) is module-bundler plumbing. Each file's data is handed over as a JSON object directly, so a file whose top level is not an object is not modelled.
- The `messages` record, `createI18n` and its options (src/i18n/index.ts:34-44) configure a third-party library whose behaviour is not visible. `src/main.ts` and the type declarations are not part of this model.
- The value `deepMerge` returns is its `target`, which no caller uses. It is not modelled.
- JavaScript object semantics that a JSON value does not have are not modelled:
  - inherited keys such as `__proto__`;
  - the insertion order of `Object.keys` (the results are proved for every visiting order);
  - reference aliasing, since nested objects and arrays are values here;
  - cyclic inputs.
- Numbers are opaque reals. The merge only tests them for truthiness (`0` is falsy) and never computes with them.
- I18n.Merge: is the corrected merge, not the code as written, in one case. When the target holds an array where the fragment holds an object, `Merge` puts the fragment's object there (`MergeProperties.ArrayTargetReplaced`), while line 8 keeps the array (see Findings).
- I18n.LocaleMessages.DeepMerge: requires `NoArrayClash`, which rules out an array in the catalog at a key path where the fragment holds an object. On that input the code as written keeps the array and adds the object's members to it as properties, which no JSON value can hold (see Findings).
- I18n.LocaleMessages.MergeMember: requires the same, for the slot it updates.
- I18n.LoadLocaleMessages: requires `FoldClashFree`, the same exclusion for every step of the fold.

## Findings

| source | as written | input that shows it | evidently intended | confidence | as-written member | corrected member |
|---|---|---|---|---|---|---|
| src/i18n/index.ts:8 | `typeof target[key] !== "object"` is false for an array, so an array in the catalog is kept and the fragment object's members are added to it as array properties | catalog `{tags: ["x"]}` merged with fragment `{tags: {a: "y"}}` | a fragment object replaces a non-object target value, arrays included, giving `{tags: {a: "y"}}` | medium, not executed | MergeProperties.ArrayTargetKept | MergeProperties.ArrayTargetReplaced |
