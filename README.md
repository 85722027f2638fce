# Multimap of covfefe-coverage, modelled in Dafny

`coverage.js` drives Chrome DevTools' coverage model against a headless
Chrome. The only self-contained logic in that file is the
`Multimap` utility that `defineMultimap()` installs as a global for the
DevTools front end (coverage.js:163-264). A multimap is a table from keys to
sets of values, held in one field `_map`: a JS `Map` from each key to a JS
`Set`. This project models that object and proves what its operations do.

- `jscollections.dfy` (module `JsCollections`) models the two JS built-ins as
  values. A `Set` is a sequence without repetitions in insertion order
  (`SetAdd`, `SetDelete`). A `Map` is the datatype `JsMap`: a sequence of
  distinct keys in insertion order plus a finite map (`Lookup`, `Put`,
  `Remove`, `Size`, `EmptyMap`). A new key goes to the end of the order, and
  overwriting a key keeps its place.
- `multimap.dfy` (module `Multimaps`) holds the class `Multimap`. Its field
  `table` stands for `_map`. The updates `set`, `delete`, `deleteAll` and
  `clear` are methods with `modifies this`, written step by step like the
  source. The reads `get`, `has`, `hasValue`, `size` and `keysArray` are
  functions. `valuesArray` is a method with the source's loop.
  `Valid()` is the representation invariant: the JS collections are well
  formed and no key maps to an empty set. Every update requires and keeps it.

Two points of JS behaviour are written out explicitly.
- In `set`, the fresh empty set is put into the map first and added to
  afterwards. `Set` does the same, so for a moment the table holds an empty
  set.
- In `delete`, `this.get(key)` returns the live stored set when the key is
  present. `Delete` therefore writes the shrunk set back only in that case.
  For an absent key it drops the fresh empty set that `get` made, and the
  `_map.delete(key)` that follows finds nothing.

The repository collects and prints a page's code coverage (coverage.js:18-46)
with DevTools' `CoverageModel.js`, which `coverage.js` only loads
(coverage.js:60) and calls (coverage.js:29-36). `CoverageModel.js` is not
part of this model.

## Model

| member | source | states |
|---|---|---|
| `JsCollections.SetAdd` | coverage.js:184 | `Set.add`: the elements afterwards are the old ones plus the value. Adding a present value changes nothing. Otherwise the size grows by one and the old order is a prefix of the new one. No repetition is introduced. |
| `JsCollections.SetDelete` | coverage.js:230 | `Set.delete`: the elements afterwards are the old ones minus the value. An absent value changes nothing. For a set without repetitions, a present value is cut out of its place and the others keep their order, so the size drops by exactly one. No repetition is introduced. |
| `JsCollections.DistinctCardinality` | coverage.js:219-221 | A sequence without repetitions has as many elements as its set of elements, which links a `Map`'s key order to its size. |
| `JsCollections.DistinctMultiplicity` | coverage.js:255 | Each value of a `Set` occurs in its listing once, or not at all. |
| `JsCollections.JsMap.Size` | coverage.js:220 | `Map.size` equals the number of stored keys. |
| `JsCollections.JsMap.Lookup` | coverage.js:179 | `Map.get` is `undefined` exactly for an absent key, and otherwise gives the stored value. In a well-formed map a value is found exactly when the key is in the key order, the order that `has`, `size` and `keysArray` are stated in. |
| `JsCollections.JsMap.Put` | coverage.js:182 | `Map.set` keeps the map well formed and stores the value under the key. A present key keeps its position, and a new key is appended to the key order. |
| `JsCollections.JsMap.Remove` | coverage.js:239 | `Map.delete` drops the key and its value. The new key order is the old one with the key cut out, so every other key keeps its relative order. The size drops by one exactly when the key was present. |
| `JsCollections.JsMap.PutUnchanged` | coverage.js:184 | Storing a key's own value again leaves the `Map` as it was. `set` relies on this when it adds a value that is already present. |
| `JsCollections.JsMap.RemoveUnchanged` | coverage.js:231 | Deleting an absent key leaves the `Map` as it was. `delete` relies on this for an absent key. |
| `JsCollections.EmptyMap` | coverage.js:170 | `new Map()` and `Map.clear` give a well-formed map with size 0 and no key. |
| `Multimaps.ConcatLength` | coverage.js:252-257 | The list of all values is as long as all the per-key sets put together. |
| `Multimaps.ConcatMultiplicity` | coverage.js:252-257 | When no set repeats a value, the list of all values holds each value once for each key whose set holds it. |
| `Multimaps.SumSizesAtLeastKeys` | coverage.js:252-257 | When no set is empty, the list of all values has at least one value per key. |
| `Multimaps.Multimap.constructor` | coverage.js:168-171 | A new multimap is valid, has size 0 and no key. |
| `Multimaps.Multimap.Set` | coverage.js:178-185 | The invariant holds afterwards, and `has(k)` and `hasValue(k, v)` are true. The key's set gains the value and every other key's set is unchanged. A new key is appended to the key order. `size` grows by one exactly when the key was absent. A second identical call changes nothing. |
| `Multimaps.Multimap.Get` | coverage.js:191-195 | Returns the key's set without repetitions. It is empty exactly when the key is absent, and then nothing is inserted because `get` is a pure read. |
| `Multimaps.Multimap.Has` | coverage.js:201-203 | True exactly when the key is in the key listing, or equally when it holds at least one value. |
| `Multimaps.Multimap.HasValue` | coverage.js:210-214 | False for an absent key, and otherwise membership of the value in the key's set. |
| `Multimaps.Multimap.Size` | coverage.js:219-221 | Equals the number of keys that hold at least one value, and the length of the key listing. |
| `Multimaps.Multimap.Delete` | coverage.js:228-233 | Returns whether the value was in the key's set, and it changed the state exactly when that was true. Afterwards `hasValue(k, v)` is false, the key's set has lost the value, and every other key is unchanged. The key leaves the key order, and `size` drops by one, exactly when its set ran empty. The invariant holds afterwards. |
| `Multimaps.Multimap.DeleteAll` | coverage.js:238-240 | The key is gone and every other key's set is unchanged. `size` drops by one exactly when it was present, and an absent key changes nothing. The invariant holds afterwards. |
| `Multimaps.Multimap.KeysArray` | coverage.js:245-247 | Lists every present key exactly once, in insertion order, `size` keys in all. |
| `Multimaps.Multimap.ValuesArray` | coverage.js:252-257 | The concatenation, in key order, of each key's set. Its length is the sum of the set sizes and at least `size`, and a value occurs once for each key that holds it. |
| `Multimaps.Multimap.Clear` | coverage.js:259-261 | Leaves the multimap valid and empty, with `size` 0 and no key. |

## Left out

- Chrome launch, the DevTools protocol connection, navigation, waiting for the load event, logging and teardown (coverage.js:10-46) are process I/O and asynchronous orchestration.
- `installAgents`, `installProxies` and `unspreadArguments` (coverage.js:105-157) are left out. They wrap remote, promise-returning protocol calls and look up an external protocol schema.
- `createTarget`, the `Common.moduleSetting` stub and the global namespace setup (coverage.js:49-103) only wire up DevTools objects whose code is not part of this model.
- The coverage computation itself (`start`, `stop` and `entries` at coverage.js:29-36) lives in DevTools' `CoverageModel.js`. That file is not part of this model.
- `Map.prototype.keysArray`, `Set.prototype.valuesArray` and `Array.prototype.pushAll` are DevTools extensions whose code is not part of this model. They are modelled abstractly as "keys or values in insertion order" and "append".
- Multimaps.Multimap.Get: returns the key's set as a value. The source returns the live stored `Set` object, so a caller could mutate the table through it and break the invariant. The model does not capture that aliasing.
- Keys and values must be non-reference types, and they are compared by Dafny value equality. JS object keys compared by identity, and JS `SameValueZero` (for example `NaN` equal to itself), are not modelled.
