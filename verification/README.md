# Todo store model

A Dafny model of the core of a small React/Redux to-do list application:

- the todos slice (`src/features/todos/todoSlice.js`): its state, one method per reducer case, and its selectors;
- the two store-facing computations of the home page (`src/components/TodoHomePage.js`): the drag-end reorder and the edit dialog's initial title.

The slice's state is the class `TodoSlice.TodoStore`. It has these fields:

- `items`: the todo records. They are held in one of two shapes, `Items.Arr` (an array) or `Items.Obj` (an object keyed by id).
- `allIds`: the id list.
- `activeFilter`.
- `getStatus` and `addStatus`.
- `error`.
- `mirror`: a ghost field standing for local storage. Every reducer that saves to local storage assigns it.

A network call's outcome is the argument of the reducer case that handles it. Its payload goes to the `...Fulfilled` method; a failure selects the `...Rejected` method.

Three JavaScript details shape the model:

- **Ids and keys.** Ids are JavaScript values (`JsValues.Id`: number, string, `undefined`, `null`). Strict equality (`===`) compares them as values, so the number 1 and the string "1" differ. Indexing an object turns the id into a string key (`JsValues.Key`), so `items[1]` and `items["1"]` are the same slot. The lemmas `JsValues.NumKeyInjective`, `NumKeyIsArrayIndex`, `NegativeNumKeyIsNotArrayIndex` and `NumAndStringShareKey` state what the coercion does.
- **Objects.** A plain object is `JsObjects.Object`: its keys in insertion order plus a map from key to value. `Object.keys` and `Object.values` list array-index keys first, in ascending numeric order, then the other keys in insertion order (`JsObjects.OwnKeys`).
- **Thrown errors.** A `TypeError` the code would throw is a result, not a precondition:
  - reading `.completed` of `undefined` in the filter selector (`TodoSlice.Completion`);
  - toggling an id for which `items[id]` is `undefined`;
  - calling `.filter` on the keyed shape in `clearCompleted`.

The model keeps these behaviours of the code:

- An `activeFilter` other than "all" or "completed" selects the records that are not completed.
- `changeActiveFilter` stores any payload.
- `clearCompleted` works only on the array shape.
- `reorderTodos` leaves `items` an array.
- The fetch and `clearCompleted` reducers do not write local storage.
- `deleteTodoAsync.fulfilled` filters `allIds` with strict `!==`, so deleting a fetched record by its numeric id leaves its string id behind (see Findings).

## Model

| member | source | states |
|---|---|---|
| JsValues.NatToDecimalCanonical | src/features/todos/todoSlice.js:112 | A number's decimal key consists of digits only, spells the number back, and has no leading zero. |
| JsValues.NumKeyInjective | src/features/todos/todoSlice.js:108 | Key coercion (`JsValues.Key`) sends two numeric ids to the same slot only when they are equal. |
| JsValues.NumAndStringShareKey | src/features/todos/todoSlice.js:124 | A number and its decimal string index the same slot, yet they are not strictly equal. |
| JsValues.NumKeyIsArrayIndex | src/features/todos/todoSlice.js:163 | A non-negative number below 2^32-1 keys an array at its own value. |
| JsValues.NegativeNumKeyIsNotArrayIndex | src/features/todos/todoSlice.js:163 | A negative number never keys an array element. |
| JsValues.Filter | src/features/todos/todoSlice.js:150 | `filter` keeps exactly the elements that pass the callback, and never more than the input holds. |
| JsValues.FilterConcat | src/features/todos/todoSlice.js:93 | Filtering keeps the survivors in their original order: it distributes over concatenation. |
| JsValues.FilterPartition | src/features/todos/todoSlice.js:171-172 | Filtering by a test and by its negation splits the input's multiset exactly. |
| JsValues.FilterKeepsAll | src/features/todos/todoSlice.js:150 | When every element passes, `filter` returns the input unchanged. |
| JsObjects.EmptyObject | src/features/todos/todoSlice.js:110 | `{}` is well formed and has no entries. |
| JsObjects.Put | src/features/todos/todoSlice.js:108 | Assignment stores the value under the key and adds the key if it is new. Other keys keep their values. A present key keeps its place; a new key goes last. Well-formedness is preserved. |
| JsObjects.FilterOutCounts | src/features/todos/todoSlice.js:149 | Filtering a key out of the insertion order drops all its occurrences and keeps the count of every other key. |
| JsObjects.Delete | src/features/todos/todoSlice.js:149 | `delete` removes exactly that key and keeps the other values. The remaining keys keep their insertion order, and well-formedness is preserved. |
| JsObjects.InsertByIndex | src/features/todos/todoSlice.js:112 | Inserting a key adds exactly one occurrence of it. The key goes first exactly when the list is empty or its first key is not smaller. |
| JsObjects.InsertByIndexAscending | src/features/todos/todoSlice.js:112 | Inserting a key into an ascending key list keeps it ascending: each key is no larger than the next. |
| JsObjects.SortByIndex | src/features/todos/todoSlice.js:112 | Sorting the array-index keys keeps each key exactly as often as before. |
| JsObjects.SortByIndexAscending | src/features/todos/todoSlice.js:112 | The sorted array-index keys are in ascending numeric order: each key is no larger than the next. |
| JsObjects.OwnKeysCover | src/features/todos/todoSlice.js:112 | `Object.keys` lists every own key and nothing else, each key once. |
| JsObjects.OwnKeys | src/features/todos/todoSlice.js:112 | `Object.keys` lists exactly the keys of the insertion order, each as often: it is a permutation of that order. |
| JsObjects.OwnKeysOrder | src/features/todos/todoSlice.js:112 | `Object.keys` lists the array-index keys first, ascending, then the named keys in insertion order. |
| JsObjects.ValuesAt | src/features/todos/todoSlice.js:161 | When every key is present, the i-th value is the value under the i-th key. |
| JsObjects.ValuesSpec | src/features/todos/todoSlice.js:161 | For a well-formed object, `Object.values` yields one value per own key, in `Object.keys` order. |
| TodoSlice.SelectTodos | src/features/todos/todoSlice.js:161 | `selectTodos` gives the array itself on the array shape. On a well-formed keyed shape it gives the record under each key, in `Object.keys` order. |
| TodoSlice.SpreadLaws | src/features/todos/todoSlice.js:135 | `{...base, ...data}` (`TodoSlice.Spread`) is a shallow merge: each field present in `data` wins, and each field absent from it keeps the value in `base`. Merging with `{}` on either side gives the other record, merging is associative, and merging the same `data` twice equals merging it once. |
| TodoSlice.EditTitleKeepsOtherFields | src/components/TodoModal.js:17 | The edit dialog sends `{ title }` alone, so the edited record takes the new title and keeps its id, `completed` and `userId`. |
| TodoSlice.Toggled | src/features/todos/todoSlice.js:144 | Toggling flips the truthiness of `completed` and keeps id, title and userId. |
| TodoSlice.ToggledTwice | src/features/todos/todoSlice.js:144 | Toggling a record that has `completed` twice gives back the record. |
| TodoSlice.Lookup | src/features/todos/todoSlice.js:163 | `items[id]`, which is also `selectTodoById`. On an object, `items[id]` is found exactly when the id's key is present, and is the value under it. On an array, the result is an element of the array. |
| TodoSlice.LookupArrayByNumber | src/features/todos/todoSlice.js:163 | On an array, a numeric id yields the element at that position, or `undefined` when it is negative or past the end. |
| TodoSlice.KeyedBy | src/features/todos/todoSlice.js:107-110 | Storing values one by one under keys into `{}` gives a well-formed object. |
| TodoSlice.KeyById | src/features/todos/todoSlice.js:107-110 | The keyed payload is a well-formed object. |
| TodoSlice.KeyedByKeys | src/features/todos/todoSlice.js:107-110 | The keyed object holds a key exactly when the key list contains it. |
| TodoSlice.KeyedByLastWins | src/features/todos/todoSlice.js:107-110 | Under each key sits the value stored with its last occurrence. |
| TodoSlice.KeyByIdKeys | src/features/todos/todoSlice.js:107-110 | Every payload record's key is present, and every key present belongs to some payload record. |
| TodoSlice.KeyByIdLastWins | src/features/todos/todoSlice.js:107-110 | Under each key sits the last payload record with that key: later duplicates overwrite earlier ones. |
| TodoSlice.LookupAll | src/features/todos/todoSlice.js:174 | `ids.map((id) => items[id])` has one entry per id, and its i-th entry is `items[ids[i]]`. |
| TodoSlice.FilterIdsByCompletion | src/features/todos/todoSlice.js:170-172 | Filtering the ids throws exactly when some id has no record. Otherwise it keeps exactly the ids whose record's completion matches. |
| TodoSlice.SelectTodosByFilter | src/features/todos/todoSlice.js:165-175 | "all" never throws and has one entry per id. Any other filter throws exactly when some id of `allIds` has no record. |
| TodoSlice.FilterThenLookup | src/features/todos/todoSlice.js:171-174 | When every id resolves, filtering the ids and then looking them up equals looking up every id and filtering the records. |
| TodoSlice.SelectTodosByFilterSpec | src/features/todos/todoSlice.js:165-175 | When every id resolves, the selector follows `allIds` order. "all" gives every record, "completed" exactly the completed ones, and any other filter exactly the rest. |
| TodoSlice.SelectionsPartition | src/features/todos/todoSlice.js:165-175 | The "completed" and "active" selections together hold the "all" selection's records, each exactly as often. |
| TodoSlice.WithoutId | src/features/todos/todoSlice.js:150 | The filter as written keeps exactly the ids not strictly equal to the deleted id. |
| TodoSlice.NumericDeleteKeepsStringIds | src/features/todos/todoSlice.js:150 | A numeric id matches none of the string ids `Object.keys` hands out, so `allIds` stays exactly as it was. |
| TodoSlice.ConsistentResolves | src/features/todos/todoSlice.js:171-172 | When `allIds` and the keys agree, every id resolves, so the filter selector cannot throw. |
| TodoSlice.KeyListConsistent | src/features/todos/todoSlice.js:111-112 | A key list that covers exactly the object's keys, turned into string ids, agrees with the object. |
| TodoSlice.OwnKeysConsistent | src/features/todos/todoSlice.js:111-112 | A well-formed keyed object agrees with its own `Object.keys`, as string ids. |
| TodoSlice.FetchIsConsistent | src/features/todos/todoSlice.js:111-112 | After a fetch, the keys of `allIds` are exactly the keys of `items`. |
| TodoSlice.OwnKeysDistinctStrings | src/features/todos/todoSlice.js:112 | The string ids made from a well-formed object's `Object.keys` are strings, each listed once. |
| TodoSlice.FetchIdsDistinctStrings | src/features/todos/todoSlice.js:112 | After a fetch, `allIds` holds string ids only, each once. |
| TodoSlice.AddKeepsConsistent | src/features/todos/todoSlice.js:124-125 | Adding keeps `allIds` and the keys in agreement. |
| TodoSlice.ReplaceKeepsConsistent | src/features/todos/todoSlice.js:135 | Rewriting a present record (edit, toggle) keeps `allIds` and the keys in agreement. |
| TodoSlice.EditOfMissingIdBreaksConsistency | src/features/todos/todoSlice.js:135 | Editing an absent id adds a key that `allIds` does not list. |
| TodoSlice.WithoutKey | src/features/todos/todoSlice.js:150 | The corrected delete filter drops exactly the ids whose key is the deleted key. |
| TodoSlice.DeleteByKeyKeepsConsistent | src/features/todos/todoSlice.js:149-150 | With ids compared by key, delete keeps `allIds` and the keys in agreement for ids of any type. |
| TodoSlice.DeleteStrictKeepsConsistent | src/features/todos/todoSlice.js:149-150 | The strict `!==` filter keeps `allIds` and the keys in agreement when no other id of `allIds` shares the deleted key. |
| TodoSlice.DanglingIdThrows | src/features/todos/todoSlice.js:171-172 | When "1" is not a key, `allIds` `["1"]` disagrees with the keys and the "completed" selection throws. |
| TodoSlice.DeleteByNumberLeavesDanglingId | src/features/todos/todoSlice.js:147-152 | As written: after fetching a record with id 1, deleting the number 1 leaves "1" in `allIds`. The state is then inconsistent, and the "completed" selection throws. |
| TodoSlice.ToggleTwiceRestores | src/features/todos/todoSlice.js:142-146 | Toggling the same present record twice restores the keyed object exactly. |
| TodoSlice.ToggleTwiceRestoresArray | src/features/todos/todoSlice.js:144 | On the array shape, toggling the same element twice restores the list, when its `completed` is present. |
| TodoSlice.ClearCompletedSplits | src/features/todos/todoSlice.js:93 | Clearing keeps no completed record, splits the list's multiset with the removed ones, and keeps the survivors in order. |
| TodoSlice.FetchThenFilterScenario | src/features/todos/todoSlice.js:106-114 | Fetching `[{id:1, completed:false}, {id:2, completed:true}]` yields `allIds` `["1","2"]`. The "completed" selection is the second record and the "active" selection the first. |
| TodoSlice.ObjectKeys | src/features/todos/todoSlice.js:82 | `Object.keys` gives one key per element on an array, and the own keys of `OwnKeys` on an object. |
| TodoSlice.ObjectKeysResolve | src/features/todos/todoSlice.js:81-82 | Each key that `Object.keys` hands out, read back as a string id, finds its record: the i-th key finds the i-th element of an array, and each key of a well-formed object finds its value. So a store loaded from storage resolves every `allIds` entry. |
| TodoSlice.TodoStore.constructor | src/features/todos/todoSlice.js:80-87 | The initial state: stored `items` (or `[]`), `allIds` its keys, filter "all", both statuses idle, no error. |
| TodoSlice.TodoStore.ChangeActiveFilter | src/features/todos/todoSlice.js:89-91 | The filter becomes the payload verbatim, so dispatching it twice is the same as once. Nothing else changes. |
| TodoSlice.TodoStore.ClearCompleted | src/features/todos/todoSlice.js:92-95 | On the array shape, `items` becomes the non-completed records and `allIds` their ids, and local storage is untouched. On the keyed shape the reducer throws and nothing changes. |
| TodoSlice.TodoStore.ReorderTodos | src/features/todos/todoSlice.js:96-99 | `items` and the mirror become the payload array. `allIds` is untouched. |
| TodoSlice.TodoStore.GetTodosPending | src/features/todos/todoSlice.js:103-105 | The fetch status becomes pending; nothing else changes. |
| TodoSlice.TodoStore.GetTodosFulfilled | src/features/todos/todoSlice.js:106-114 | `items` becomes the keyed payload and `allIds` its keys, and the two agree. The fetch status becomes succeeded. |
| TodoSlice.TodoStore.GetTodosRejected | src/features/todos/todoSlice.js:115-118 | The fetch status becomes failed with the fixed fetch error. Items, ids and mirror are unchanged. |
| TodoSlice.TodoStore.AddTodoPending | src/features/todos/todoSlice.js:119-121 | The add status becomes pending; nothing else changes. |
| TodoSlice.TodoStore.AddTodoFulfilled | src/features/todos/todoSlice.js:122-128 | The new record goes under the id's key and other entries are unchanged. The raw id is appended to `allIds`, the add status becomes succeeded, and the mirror becomes `items`. Agreement between ids and keys is preserved. |
| TodoSlice.TodoStore.AddTodoRejected | src/features/todos/todoSlice.js:129-132 | The add status becomes failed with the fixed add error. Items, ids and mirror are unchanged. |
| TodoSlice.TodoStore.EditTodoFulfilled | src/features/todos/todoSlice.js:133-137 | The record under the key becomes the shallow merge of the old record (or `{}`) with `data`. Other entries and `allIds` are unchanged, and the mirror becomes `items`. |
| TodoSlice.TodoStore.EditTodoRejected | src/features/todos/todoSlice.js:138-141 | The add status becomes failed with the fixed edit error. Items, ids and mirror are unchanged. |
| TodoSlice.TodoStore.ToggleTodoFulfilled | src/features/todos/todoSlice.js:142-146 | The reducer throws, leaving the state unchanged, exactly when `items[id]` is `undefined`. Otherwise `items[id]` afterwards is the old record with `completed` flipped, and the mirror becomes `items`. On the keyed shape only the record under the id's key changes, and agreement between ids and keys is kept. On the array shape only the element at the index the key spells changes, in place. |
| TodoSlice.TodoStore.DeleteTodoFulfilled | src/features/todos/todoSlice.js:147-152 | The key is removed, other entries are unchanged, and the mirror becomes `items`. `allIds` loses exactly the ids strictly equal to the deleted id. Agreement between ids and keys is kept when no other id shares the deleted key. A numeric id leaves an all-string `allIds` (as a fetch or a load leaves it) unchanged. |
| TodoHomePage.IsMoveUnique | src/components/TodoHomePage.js:57-59 | The result of a move from one index to another is determined. |
| TodoHomePage.MoveToSameIndex | src/components/TodoHomePage.js:58-59 | Moving an element to its own index leaves the list as it was. |
| TodoHomePage.CutAndInsertIsMove | src/components/TodoHomePage.js:57-59 | Cutting the element at the source index out and inserting it at the destination index is a move between the two indices. |
| TodoHomePage.CutAndInsertKeepsMultiset | src/components/TodoHomePage.js:57-59 | Cutting an element out and inserting it again keeps every element as often as before. |
| TodoHomePage.ReorderedTodos | src/components/TodoHomePage.js:57-59 | The dragged element ends at the destination index. Elements outside the two indices keep their places, those between shift by one, and the multiset is unchanged. |
| TodoHomePage.HandleDragEnd | src/components/TodoHomePage.js:48-63 | With no destination, nothing changes. Otherwise `items` and the mirror become `Object.values(items)` with the dragged record moved, a permutation of it. |
| TodoHomePage.FirstMatch | src/components/TodoHomePage.js:158 | `find` returns the first record whose id is strictly equal, or nothing when no id matches. |
| TodoHomePage.FindById | src/components/TodoHomePage.js:158 | `find` yields `undefined` exactly when no id is strictly equal; otherwise it yields the first record whose id is. |
| TodoHomePage.EditInitialText | src/components/TodoHomePage.js:158 | On the array shape the initial text is the title of the first record with a strictly equal id, and `None` when no id matches. On the keyed shape it is the title of the record under the id's key, and `None` when the key is absent. |
| TodoHomePage.EditInitialTextCoercion | src/components/TodoHomePage.js:158 | On the keyed shape a number and its decimal string open the same text. On an array of numeric ids, a string id finds nothing. |

## Left out

- The HTTP calls of the async thunks: their payload or failure is a method argument. The text of a caught error is discarded in the source as well.
- Local storage and JSON: the ghost field `mirror` holds the last saved `items`. Reading it back at start-up is the constructor's argument, and a malformed stored string (which makes `JSON.parse` throw) is not modelled.
- `console.log`, Redux Toolkit/Immer dispatch plumbing, and the interleaving of concurrently resolving thunks: the model applies one reducer case at a time.
- React rendering, react-bootstrap, react-beautiful-dnd and `src/components/TodoModal.js`: `src/components/TodoModal.js` is not part of this model.
- The status and error selectors (todoSlice.js:177-179) read a field directly; the fields themselves stand for them.
- TodoSlice.TodoStore.AddTodoFulfilled: requires the keyed shape. On the array shape the source writes an array slot or a named property, possibly leaving holes, and arrays with holes are not modelled.
- TodoSlice.TodoStore.EditTodoFulfilled: requires the keyed shape, for the same reason.
- TodoSlice.TodoStore.DeleteTodoFulfilled: requires the keyed shape; `delete` on an array leaves a hole, which is not modelled.
- TodoHomePage.HandleDragEnd: requires both indices within the list when there is a destination. `splice` clamps an out-of-range index and would insert `undefined`; the drag library only reports indices of rows it rendered.
- TodoSlice.ToggledTwice: requires `completed` to be present. An absent or non-boolean `completed` becomes a boolean after the first toggle, so two toggles do not restore it.
- An id whose key is "__proto__": on a plain object, assigning to that key (todoSlice.js:108, 124, 135) replaces the prototype and adds no own key. The model treats it as an ordinary key.
- Numbers are integers. Fractional ids and numbers whose decimal spelling uses an exponent (at least 10^21) are not modelled.
- Record fields are `Option`s of their JSON types. A field that is present but holds `undefined` counts as absent when merged, and a non-boolean `completed` is not modelled.
- Inherited properties: indexing with a key that the value inherits yields `undefined` in the model. On the array shape that is a key such as "length". On the keyed shape, a plain object inherits "constructor", "toString" and the other `Object.prototype` members, where the code reads a function (todoSlice.js:163, 171-172, 174). For such an id, the model's `Lookup` is `None`, so its "completed" selection throws where the code returns.
- `activeFilter` is a string; other payload types are not modelled.

## Findings

| source | as written | input that shows it | evidently intended | confidence | as-written member | corrected member |
|---|---|---|---|---|---|---|
| src/features/todos/todoSlice.js:150 | `allIds` is filtered with `itemId !== id`. After a fetch the ids are strings from `Object.keys`, while the deleted id is the number the record carries. | Fetch `[{id: 1, ...}]`, then delete 1. The record is gone, `allIds` is still `["1"]`, and the "completed" selection reads `.completed` of `undefined`. | Drop the ids whose key equals the deleted key, so `allIds` and the keys stay in agreement. | high, not executed | TodoSlice.DeleteByNumberLeavesDanglingId | TodoSlice.DeleteByKeyKeepsConsistent |
