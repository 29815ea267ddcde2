# Generics teaching snippets in Dafny

This project models the live code of `app.ts`, a short TypeScript file that
demonstrates generics. It covers three pieces:

- **`DataStrage<T>`** is a generic container restricted to primitive element
  types. The name keeps the file's own spelling. It offers `addItem` (push),
  `removeItem` (remove the first occurrence, with a guard for the not-found
  case) and `getItems` (a copy of the contents).
- **`countAndDescribe`** returns its argument together with a Japanese
  sentence about the argument's `length`.
- **`myMerge`** merges two records with `Object.assign`.

Files:

- `js_array.dfy` (module `JsArray`) holds the forms of `indexOf` and
  `splice` that `app.ts` uses. `indexOf(x)` scans from the front and returns
  -1 when the item is absent. `splice(start, deleteCount)` reads a negative
  start as an offset from the end. The model returns the array left behind,
  not the deleted elements, because `removeItem` ignores those.
- `data_storage.dfy` (module `DataStorage`) holds pure functions over
  `seq<T>` for add and remove. It also holds a reference definition of
  "remove the first occurrence", the unguarded variant of `removeItem`, the
  class `DataStrage` whose method contracts are stated over the pure
  functions, and the usage
  scenario at the bottom of `app.ts`.
- `describe.dfy` (module `Describe`) holds decimal rendering of a count, its
  parser, and `countAndDescribe`.
- `merge.dfy` (module `Merge`) models `myMerge` as right-biased map override.

Equality of elements is Dafny value equality (`T(==)`). The source restricts
`T` to `string | number | boolean | RegExp`. For strings, booleans and numbers
other than `NaN`, JavaScript's strict equality, which `indexOf` uses, agrees
with value equality. `RegExp` values are compared by identity and `NaN` is
never found; both are listed under "## Left out".

## Model

| member | source | states |
|---|---|---|
| JsArray.IndexOf | app.ts:78 | The result is -1 exactly when the item is absent. Otherwise it is an index holding the item, and no earlier index holds it. |
| JsArray.IndexFromFindsFirst | app.ts:78 | A scan from position `k` answers -1 exactly when the item is absent from position `k` on. Otherwise it answers the first position at or after `k` that holds the item. |
| JsArray.Splice | app.ts:88 | `splice(start, deleteCount)` never lengthens the array and removes at most `deleteCount` elements. A non-positive `deleteCount` leaves the array unchanged. The two forms `removeItem` can reach are pinned down by the next two rows. |
| JsArray.SpliceRemovesAt | app.ts:88 | `splice(i, 1)` at a valid index leaves the elements before and after `i`, in order, and shortens the array by one. |
| JsArray.SpliceMinusOneDropsLast | app.ts:84-86 | `splice(-1, 1)` on a non-empty array deletes its last element. This is why `indexOf`'s -1 must not reach `splice`. |
| DataStorage.Add | app.ts:73-75 | `addItem` grows the contents by one. The old contents are the prefix and the new item is last. |
| DataStorage.Remove | app.ts:77-89 | For an absent item, `removeItem` leaves the contents and their order unchanged. For a present item, it shortens them by exactly one. |
| DataStorage.RemoveTakesOneCopy | app.ts:77-88 | For a present item, the removal takes away exactly one copy of the item. Every other value keeps its multiplicity. |
| DataStorage.RemoveDeletesFirstOccurrence | app.ts:77-88 | If `i` is the least index holding the item, the result is `data[..i] + data[i+1..]`. Every other element keeps its relative order. |
| DataStorage.RemoveIsRemoveFirst | app.ts:77-88 | On every input, the guarded `indexOf`/`splice` removal equals an independent recursive "delete first occurrence". |
| DataStorage.RemoveUndoesAdd | app.ts:73-88 | Adding an item that was absent and then removing it restores the previous contents. |
| DataStorage.AddAllAppends | app.ts:73-75 | Any series of `addItem` calls appends exactly those values, in call order. |
| DataStorage.UnguardedRemoveDropsLast | app.ts:81-88 | Without the guard at line 78, removing an absent item from a non-empty storage would delete the last element. The guarded result differs from that. |
| DataStorage.UnguardedRemoveAgreesWhenPresent | app.ts:78-88 | When the item is present, the guard does not change the result. |
| DataStorage.DataStrage.constructor | app.ts:71 | A new storage starts with empty contents. |
| DataStorage.DataStrage.AddItem | app.ts:73-75 | The stored contents become the old contents with the item pushed on the end. |
| DataStorage.DataStrage.RemoveItem | app.ts:77-89 | The stored contents become the guarded removal of the old contents. That is no change for an absent item, and the first occurrence cut out for a present one. |
| DataStorage.DataStrage.GetItems | app.ts:92-94 | The result is a newly allocated array holding the stored contents in insertion order. |
| DataStorage.SnapshotsAreIndependent | app.ts:92-94 | Writing into an array returned by `getItems`, at any position, changes neither the stored contents nor a later snapshot. |
| DataStorage.SnapshotSurvivesUpdates | app.ts:92-94 | An array returned by `getItems` keeps its contents after later `addItem` and `removeItem` calls, while the storage changes as those calls say. |
| DataStorage.TextStorageScenario | app.ts:98-105 | Starting empty, adding "Data1" and "Data2", then removing "Data1" lists exactly `["Data2"]`. |
| Describe.NatToDecimal | app.ts:58 | A count renders as a non-empty string of digits with no leading zero. The string is one character long exactly when the count is below ten. |
| Describe.DecimalRoundTrip | app.ts:58 | Reading the rendered count back as a decimal number gives the count. |
| Describe.CountAndDescribe | app.ts:55-61 | The first component is the element unchanged. The second is the "no values" sentence exactly when the length is 0. Otherwise it is "値は", then a decimal numeral that reads back as the length, then "個です。". |
| Describe.DescriptionDeterminesCount | app.ts:56-59 | Two elements get the same description exactly when their lengths are equal. |
| Describe.ToCodeUnits | app.ts:57-58 | A JavaScript string's `length` counts UTF-16 code units: between the number of characters and twice that, and exactly the number of characters when all lie in the Basic Multilingual Plane. |
| Describe.EmojiCountsTwoCodeUnits | app.ts:57-58 | A string holding one emoji (U+1F600) has `length` 2, so it is described as "値は2個です。". |
| Describe.HobbiesExample | app.ts:63 | `countAndDescribe(["Sports","Cooking"])` is the same array paired with "値は2個です。". |
| Merge.MyMerge | app.ts:30-32 | The result's keys are the union of both arguments' keys. A key of the second argument takes that argument's value. Every other key keeps the first argument's value. |
| Merge.MergeIdempotent | app.ts:30-32 | Merging a record with itself gives the record back. |
| Merge.MergeAbsorbs | app.ts:30-32 | Merging the same second record twice is the same as merging it once. |
| Merge.MergeAssociative | app.ts:30-32 | `myMerge(myMerge(a, b), c) == myMerge(a, myMerge(b, c))`. |
| Merge.MergeCommutesWhenDisjoint | app.ts:30-32 | Argument order matters only when the two records share a property name. |
| Merge.PersonExample | app.ts:39 | Merging `{name, hobbies}` with `{age: 23}` yields all three properties. |
| Merge.CollisionExample | app.ts:30-32 | On a collision, the second argument's value wins. |

## Left out

- `console.log` output (app.ts:41, 63, 105) is not modelled. It has no effect on the modelled values.
- The commented-out `Promise`/`setTimeout` example (app.ts:21-25) is not live code.
- The commented-out `DataStrage<object>` scenario (app.ts:107-116) is not modelled. It depends on reference identity, which the type bound at app.ts:70 excludes.
- `createCourceGoal` and the `Partial`/`Readonly` demonstrations (app.ts:118-138) are not modelled. They are compile-time type utilities and involve a `Date`.
- JsArray.IndexOf: uses value equality. JavaScript's strict equality differs for `NaN`, which is never found by `indexOf`. `NaN` and `RegExp` object identity are not modelled.
- Merge.MyMerge: a pure map merge. It does not model `Object.assign` mutating and returning its first argument. It also does not model the insertion order of property names, or a primitive passed as an argument.
- Describe.NatToDecimal: renders every count in plain decimal. JavaScript uses exponent notation from 10^21 on, which no array or string length reaches.
- Describe.CountAndDescribe: the element is a sequence and `length` is its size, a natural number. A JavaScript string must be passed as its UTF-16 code units (`Describe.ToCodeUnits`), not as a Dafny `string`: a Dafny `string` counts Unicode scalar values, so a character outside the Basic Multilingual Plane would count once instead of twice. JavaScript truthiness of a `NaN` or missing `length` is not modelled.
- `app.js` is stale compiled output that duplicates `myMerge` and `countAndDescribe`. It lacks the class and is not modelled separately.
