/**
 * The todos slice: the todo record, the two shapes the `items` field takes
 * (an array, or an object keyed by id), the selectors, and the store whose
 * methods are the slice's reducer cases. A network call's outcome (its payload,
 * or its failure) is the argument of the `...Fulfilled` or `...Rejected` method
 * that handles it; local storage is the ghost field `mirror`.
 */
module TodoSlice {
  import opened JsValues
  import opened JsObjects

  /** A todo record. A field the record lacks is `None` (an absent id is
      `Undefined`): reading it yields `undefined`. */
  datatype Todo = Todo(id: Id, title: Option<string>, completed: Option<bool>, userId: Option<int>)

  /** `{}`, the record with no fields. */
  const NoFields: Todo := Todo(Undefined, None, None, None)

  /** `item.completed` used as a condition: only `true` is truthy. */
  predicate IsCompleted(t: Todo) { t.completed == Some(true) }

  predicate IsActive(t: Todo) { !IsCompleted(t) }

  /** `{ ...base, ...data }`: each field present in `data` replaces the one in `base`. */
  function Spread(base: Todo, data: Todo): Todo
  {
    Todo(
      if data.id != Undefined then data.id else base.id,
      if data.title.Some? then data.title else base.title,
      if data.completed.Some? then data.completed else base.completed,
      if data.userId.Some? then data.userId else base.userId)
  }

  /** The spread is a shallow merge: a field present in `data` wins, a field
      absent from `data` keeps the value it has in `base`. Spreading into `{}`
      copies `data`, spreading `{}` changes nothing, merging is associative, and
      spreading the same `data` again changes nothing more. */
  lemma SpreadLaws(base: Todo, data: Todo, more: Todo)
    ensures Spread(base, data).id == (if data.id != Undefined then data.id else base.id)
    ensures Spread(base, data).title == (if data.title.Some? then data.title else base.title)
    ensures Spread(base, data).completed == (if data.completed.Some? then data.completed else base.completed)
    ensures Spread(base, data).userId == (if data.userId.Some? then data.userId else base.userId)
    ensures Spread(NoFields, data) == data
    ensures Spread(base, NoFields) == base
    ensures Spread(Spread(base, data), more) == Spread(base, Spread(data, more))
    ensures Spread(Spread(base, data), data) == Spread(base, data)
  {
  }

  /** The edit dialog sends `{ title }` alone: the edited record keeps its id,
      `completed` and `userId`, and takes the new title. */
  lemma EditTitleKeepsOtherFields(base: Todo, title: string)
    ensures Spread(base, NoFields.(title := Some(title))) == base.(title := Some(title))
  {
  }

  /** `{ ...t, completed: !t.completed }` as the toggle writes it. */
  function Toggled(t: Todo): (r: Todo)
    ensures IsCompleted(r) == !IsCompleted(t)
    ensures r.id == t.id && r.title == t.title && r.userId == t.userId
  {
    t.(completed := Some(!IsCompleted(t)))
  }

  /** Toggling twice restores a record whose `completed` field is present. */
  lemma ToggledTwice(t: Todo)
    requires t.completed.Some?
    ensures Toggled(Toggled(t)) == t
  {
    assert Toggled(t).completed == Some(!t.completed.value);
  }

  /** `{ id, title, completed: false }` built from the record the server returns for an add. */
  function AddedRecord(payload: Todo): (r: Todo)
    ensures r.id == payload.id && r.title == payload.title
    ensures r.completed == Some(false) && r.userId == None
  {
    Todo(payload.id, payload.title, Some(false), None)
  }

  datatype Status = Idle | Pending | Succeeded | Failed

  const FetchError: string := "Error fetching todos"
  const AddError: string := "Error adding todo"
  const EditError: string := "Error editing todo"

  /** How an expression ends: with a value, or by throwing a TypeError. */
  datatype Completion<T> = Normal(value: T) | TypeError

  /** The two shapes of `items`: an array of records, or an object keyed by id. */
  datatype Items = Arr(list: seq<Todo>) | Obj(obj: Object<Todo>)

  ghost predicate ItemsWf(items: Items)
  {
    items.Obj? ==> Wf(items.obj)
  }

  /** `items[id]`: on an object the id's key, on an array the element at the
      index the key spells (`undefined` past the end or for a key that is no index). */
  function Lookup(items: Items, id: Id): (r: Option<Todo>)
    ensures items.Obj? ==> (r.Some? <==> Key(id) in items.obj.entries)
    ensures items.Obj? && r.Some? ==> r.value == items.obj.entries[Key(id)]
    ensures items.Arr? && r.Some? ==> r.value in items.list
  {
    match items
    case Obj(o) => if Key(id) in o.entries then Some(o.entries[Key(id)]) else None
    case Arr(list) =>
      var k := Key(id);
      if IsArrayIndex(k) && DecimalValue(k) < |list| then Some(list[DecimalValue(k)]) else None
  }

  /** On the array shape a number indexes by position: `items[n]` is element `n`
      within the length, and `undefined` for a negative number or past the end. */
  lemma LookupArrayByNumber(list: seq<Todo>, n: int)
    requires n < ArrayIndexLimit
    ensures Lookup(Arr(list), Num(n)) == if 0 <= n < |list| then Some(list[n]) else None
  {
    if n >= 0 {
      NumKeyIsArrayIndex(n);
    } else {
      NegativeNumKeyIsNotArrayIndex(n);
    }
  }

  /** `Object.keys(items)`: the positions of an array, spelled in decimal, or an object's own keys. */
  function ObjectKeys(items: Items): (r: seq<string>)
    ensures items.Obj? ==> r == OwnKeys(items.obj)
    ensures items.Arr? ==> |r| == |items.list|
  {
    match items
    case Arr(list) => seq(|list|, i requires 0 <= i < |list| => NatToDecimal(i))
    case Obj(o) => OwnKeys(o)
  }

  /** Every key `Object.keys` hands out, read back as a string id, finds its
      record: on an array the i-th key finds the i-th element, on a well-formed
      object each key finds the value stored under it. */
  lemma ObjectKeysResolve(items: Items)
    ensures items.Arr? && |items.list| <= ArrayIndexLimit ==>
      forall i :: 0 <= i < |items.list| ==> Lookup(items, Str(ObjectKeys(items)[i])) == Some(items.list[i])
    ensures items.Obj? && Wf(items.obj) ==>
      forall i :: 0 <= i < |ObjectKeys(items)| ==>
        ObjectKeys(items)[i] in items.obj.entries
        && Lookup(items, Str(ObjectKeys(items)[i])) == Some(items.obj.entries[ObjectKeys(items)[i]])
  {
    match items
    case Arr(list) =>
      if |list| <= ArrayIndexLimit {
        forall i | 0 <= i < |list|
          ensures Lookup(items, Str(ObjectKeys(items)[i])) == Some(list[i])
        {
          NumKeyIsArrayIndex(i);
        }
      }
    case Obj(o) =>
      if Wf(o) {
        OwnKeysCover(o);
      }
  }

  /** The keys as the string ids `Object.keys` hands out. */
  function StrIds(ks: seq<string>): (r: seq<Id>)
    ensures |r| == |ks| && forall i :: 0 <= i < |ks| ==> r[i] == Str(ks[i])
  {
    seq(|ks|, i requires 0 <= i < |ks| => Str(ks[i]))
  }

  /** `todos.map((todo) => todo.id)` */
  function IdsOf(todos: seq<Todo>): (r: seq<Id>)
    ensures |r| == |todos| && forall i :: 0 <= i < |todos| ==> r[i] == todos[i].id
  {
    seq(|todos|, i requires 0 <= i < |todos| => todos[i].id)
  }

  /** `selectTodos`: `Object.values(items)`. On the array shape that is the
      array itself; on a well-formed keyed shape, the record under each key, in
      `Object.keys` order. */
  function SelectTodos(items: Items): (r: seq<Todo>)
    ensures items.Arr? ==> r == items.list
    ensures items.Obj? && Wf(items.obj) ==>
      var ks := OwnKeys(items.obj);
      && |r| == |ks|
      && forall i :: 0 <= i < |ks| ==> ks[i] in items.obj.entries && r[i] == items.obj.entries[ks[i]]
  {
    match items
    case Arr(list) => list
    case Obj(o) => ValuesSpec(o); Values(o)
  }

  /** The property keys of the records' ids, in payload order. */
  function IdKeys(payload: seq<Todo>): (ks: seq<string>)
    ensures |ks| == |payload| && forall i :: 0 <= i < |payload| ==> ks[i] == Key(payload[i].id)
  {
    seq(|payload|, i requires 0 <= i < |payload| => Key(payload[i].id))
  }

  /** Storing `vs[i]` under `ks[i]` into `{}`, for each `i` in order. */
  function KeyedBy(ks: seq<string>, vs: seq<Todo>): (o: Object<Todo>)
    requires |ks| == |vs|
    ensures Wf(o)
  {
    if ks == [] then EmptyObject()
    else Put(KeyedBy(ks[..|ks| - 1], vs[..|vs| - 1]), ks[|ks| - 1], vs[|vs| - 1])
  }

  /** The fetch reducer's `payload.reduce((acc, todo) => { acc[todo.id] = todo; return acc; }, {})`. */
  function KeyById(payload: seq<Todo>): (o: Object<Todo>)
    ensures Wf(o)
  {
    KeyedBy(IdKeys(payload), payload)
  }

  /** The keyed object holds exactly the given keys. */
  lemma {:induction false} KeyedByKeys(ks: seq<string>, vs: seq<Todo>)
    requires |ks| == |vs|
    ensures forall k :: k in KeyedBy(ks, vs).entries <==> k in ks
  {
    if ks != [] {
      var n := |ks| - 1;
      KeyedByKeys(ks[..n], vs[..n]);
      assert ks == ks[..n] + [ks[n]];
    }
  }

  /** No later key equals key `i`. */
  ghost predicate IsLastOccurrence(ks: seq<string>, i: nat)
    requires i < |ks|
  {
    forall j :: i < j < |ks| ==> ks[j] != ks[i]
  }

  /** The last occurrence of a key before the end is still its last occurrence
      once the final key is dropped. */
  lemma LastOccurrenceInPrefix(ks: seq<string>, i: nat)
    requires i < |ks| - 1 && IsLastOccurrence(ks, i)
    ensures IsLastOccurrence(ks[..|ks| - 1], i)
    ensures ks[|ks| - 1] != ks[i]
  {
    var ks' := ks[..|ks| - 1];
    forall j | i < j < |ks'| ensures ks'[j] != ks'[i] {
      assert ks'[j] == ks[j] && ks'[i] == ks[i];
    }
  }

  /** Under each key sits the value stored with its last occurrence. */
  lemma {:induction false} KeyedByLastWins(ks: seq<string>, vs: seq<Todo>, i: nat)
    requires |ks| == |vs| && i < |ks| && IsLastOccurrence(ks, i)
    ensures ks[i] in KeyedBy(ks, vs).entries && KeyedBy(ks, vs).entries[ks[i]] == vs[i]
  {
    var n := |ks| - 1;
    if i < n {
      LastOccurrenceInPrefix(ks, i);
      KeyedByLastWins(ks[..n], vs[..n], i);
      assert ks[..n][i] == ks[i] && vs[..n][i] == vs[i];
    }
  }

  /** Every record of the payload is stored under its id's key, and every key
      belongs to some record of the payload. */
  lemma KeyByIdKeys(payload: seq<Todo>)
    ensures forall i :: 0 <= i < |payload| ==> Key(payload[i].id) in KeyById(payload).entries
    ensures forall k :: k in KeyById(payload).entries ==>
      exists i :: 0 <= i < |payload| && Key(payload[i].id) == k
  {
    var ks := IdKeys(payload);
    KeyedByKeys(ks, payload);
    forall i | 0 <= i < |payload| ensures Key(payload[i].id) in KeyById(payload).entries {
      assert ks[i] in ks;
    }
  }

  /** No later record of the payload has the same key as record `i`. */
  ghost predicate IsLastWithKey(payload: seq<Todo>, i: nat)
    requires i < |payload|
  {
    forall j :: i < j < |payload| ==> Key(payload[j].id) != Key(payload[i].id)
  }

  /** Under each key the keyed object holds the last record of the payload with that key. */
  lemma KeyByIdLastWins(payload: seq<Todo>, i: nat)
    requires i < |payload| && IsLastWithKey(payload, i)
    ensures Key(payload[i].id) in KeyById(payload).entries
    ensures KeyById(payload).entries[Key(payload[i].id)] == payload[i]
  {
    KeyedByLastWins(IdKeys(payload), payload, i);
  }

  /** `items[id]` for each id: `ids.map((id) => items[id])`. */
  function LookupAll(items: Items, ids: seq<Id>): (r: seq<Option<Todo>>)
    ensures |r| == |ids|
    ensures forall i :: 0 <= i < |ids| ==> r[i] == Lookup(items, ids[i])
  {
    if ids == [] then [] else [Lookup(items, ids[0])] + LookupAll(items, ids[1..])
  }

  /** `ids.filter((id) => items[id].completed)` when `completed`, else
      `ids.filter((id) => !items[id].completed)`; reading `.completed` of
      `undefined` throws. */
  function FilterIdsByCompletion(items: Items, ids: seq<Id>, completed: bool): (r: Completion<seq<Id>>)
    ensures r.TypeError? <==> exists i :: 0 <= i < |ids| && Lookup(items, ids[i]).None?
    ensures r.Normal? ==> forall x :: x in r.value <==>
      x in ids && Lookup(items, x).Some? && IsCompleted(Lookup(items, x).value) == completed
  {
    if ids == [] then Normal([])
    else
      assert forall i :: 0 < i < |ids| ==> ids[i] == ids[1..][i - 1];
      match Lookup(items, ids[0])
      case None => TypeError
      case Some(t) =>
        match FilterIdsByCompletion(items, ids[1..], completed)
        case TypeError => TypeError
        case Normal(rest) => Normal((if IsCompleted(t) == completed then [ids[0]] else []) + rest)
  }

  /** `selectTodosByFilter`: the ids of `allIds`, in that order, whose records
      match the filter ("all": every id; "completed": completed records; any
      other value: the others), mapped to their records. */
  function SelectTodosByFilter(items: Items, allIds: seq<Id>, activeFilter: string): (r: Completion<seq<Option<Todo>>>)
    ensures activeFilter == "all" ==> r.Normal? && |r.value| == |allIds|
    ensures activeFilter != "all" ==>
      (r.TypeError? <==> exists i :: 0 <= i < |allIds| && Lookup(items, allIds[i]).None?)
  {
    if activeFilter == "all" then Normal(LookupAll(items, allIds))
    else
      match FilterIdsByCompletion(items, allIds, activeFilter == "completed")
      case TypeError => TypeError
      case Normal(ids) => Normal(LookupAll(items, ids))
  }

  /** A selected value that is a completed record. */
  predicate IsCompletedValue(v: Option<Todo>) { v.Some? && IsCompleted(v.value) }

  predicate IsNotCompletedValue(v: Option<Todo>) { !IsCompletedValue(v) }

  /** Every id resolves to a record. */
  ghost predicate AllResolve(items: Items, ids: seq<Id>)
  {
    forall i :: 0 <= i < |ids| ==> Lookup(items, ids[i]).Some?
  }

  /** Looking up an id list that starts with `x`. */
  lemma LookupAllCons(items: Items, x: Id, rest: seq<Id>)
    ensures LookupAll(items, [x] + rest) == [Lookup(items, x)] + LookupAll(items, rest)
  {
    assert ([x] + rest)[1..] == rest;
  }

  /** Filtering an id list whose first id resolves. */
  lemma FilterIdsCons(items: Items, ids: seq<Id>, completed: bool)
    requires ids != [] && Lookup(items, ids[0]).Some?
    requires FilterIdsByCompletion(items, ids[1..], completed).Normal?
    ensures FilterIdsByCompletion(items, ids, completed)
         == Normal((if IsCompleted(Lookup(items, ids[0]).value) == completed then [ids[0]] else [])
                   + FilterIdsByCompletion(items, ids[1..], completed).value)
  {
  }

  lemma LookupAllSplit(items: Items, ids: seq<Id>)
    requires ids != []
    ensures LookupAll(items, ids) == [Lookup(items, ids[0])] + LookupAll(items, ids[1..])
  {
  }

  lemma AllResolveTail(items: Items, ids: seq<Id>)
    requires ids != [] && AllResolve(items, ids)
    ensures Lookup(items, ids[0]).Some? && AllResolve(items, ids[1..])
  {
    forall i | 0 <= i < |ids[1..]| ensures Lookup(items, ids[1..][i]).Some? {
      assert ids[1..][i] == ids[i + 1];
    }
  }

  /** Filtering the ids and then looking them up equals looking every id up and
      then filtering the records. */
  lemma {:induction false} FilterThenLookup(items: Items, ids: seq<Id>, completed: bool, keep: Option<Todo> -> bool)
    requires AllResolve(items, ids)
    requires forall v: Option<Todo> :: v.Some? ==> keep(v) == (IsCompleted(v.value) == completed)
    ensures FilterIdsByCompletion(items, ids, completed).Normal?
    ensures LookupAll(items, FilterIdsByCompletion(items, ids, completed).value)
         == Filter(LookupAll(items, ids), keep)
  {
    if ids != [] {
      AllResolveTail(items, ids);
      FilterThenLookup(items, ids[1..], completed, keep);
      var t := Lookup(items, ids[0]);
      var rest := FilterIdsByCompletion(items, ids[1..], completed).value;
      FilterIdsCons(items, ids, completed);
      LookupAllSplit(items, ids);
      FilterCons(t, LookupAll(items, ids[1..]), keep);
      if IsCompleted(t.value) == completed {
        LookupAllCons(items, ids[0], rest);
      } else {
        assert [] + rest == rest;
      }
    }
  }

  /** When every id of `allIds` resolves, the selector does not throw; "all"
      selects every record in `allIds` order, "completed" exactly the completed
      ones and every other filter exactly the others, each in that order. */
  lemma SelectTodosByFilterSpec(items: Items, allIds: seq<Id>, activeFilter: string)
    requires AllResolve(items, allIds)
    ensures var r := SelectTodosByFilter(items, allIds, activeFilter);
      var all := LookupAll(items, allIds);
      && r.Normal?
      && (forall v :: v in all ==> v.Some?)
      && (activeFilter == "all" ==> r.value == all)
      && (activeFilter == "completed" ==> r.value == Filter(all, IsCompletedValue))
      && (activeFilter != "all" && activeFilter != "completed" ==> r.value == Filter(all, IsNotCompletedValue))
  {
    var all := LookupAll(items, allIds);
    LookupAllResolved(items, allIds);
    if activeFilter != "all" {
      if activeFilter == "completed" {
        FilterThenLookup(items, allIds, true, IsCompletedValue);
      } else {
        FilterThenLookup(items, allIds, false, IsNotCompletedValue);
      }
    }
  }

  lemma {:induction false} LookupAllResolved(items: Items, ids: seq<Id>)
    requires AllResolve(items, ids)
    ensures forall v :: v in LookupAll(items, ids) ==> v.Some?
  {
    if ids != [] {
      assert AllResolve(items, ids[1..]) by {
        forall i | 0 <= i < |ids[1..]| ensures Lookup(items, ids[1..][i]).Some? {
          assert ids[1..][i] == ids[i + 1];
        }
      }
      LookupAllResolved(items, ids[1..]);
    }
  }

  /** The "completed" and the "active" selections split the "all" selection:
      together they hold each of its records exactly as often. */
  lemma SelectionsPartition(items: Items, allIds: seq<Id>)
    requires AllResolve(items, allIds)
    ensures var all := SelectTodosByFilter(items, allIds, "all");
      var done := SelectTodosByFilter(items, allIds, "completed");
      var active := SelectTodosByFilter(items, allIds, "active");
      && all.Normal? && done.Normal? && active.Normal?
      && multiset(done.value) + multiset(active.value) == multiset(all.value)
  {
    SelectTodosByFilterSpec(items, allIds, "all");
    SelectTodosByFilterSpec(items, allIds, "completed");
    SelectTodosByFilterSpec(items, allIds, "active");
    FilterPartition(LookupAll(items, allIds), IsCompletedValue, IsNotCompletedValue);
  }

  /** `allIds.filter((itemId) => itemId !== id)`: strict equality, so a number never matches a string. */
  function WithoutId(ids: seq<Id>, id: Id): (r: seq<Id>)
    ensures forall x :: x in r <==> x in ids && x != id
  {
    Filter(ids, x => x != id)
  }

  /** A numeric id is never strictly equal to the string ids `Object.keys` hands
      out, so deleting by it leaves such an id list exactly as it was. */
  lemma NumericDeleteKeepsStringIds(ids: seq<Id>, n: int)
    requires forall x :: x in ids ==> x.Str?
    ensures WithoutId(ids, Num(n)) == ids
  {
    forall i | 0 <= i < |ids| ensures ids[i] != Num(n) {
      assert ids[i] in ids;
    }
    FilterKeepsAll(ids, x => x != Num(n));
  }

  /** The store's intended invariant: `items` is keyed and its keys are exactly the keys of `allIds`. */
  ghost predicate Consistent(items: Items, allIds: seq<Id>)
  {
    && items.Obj?
    && (forall x :: x in allIds ==> Key(x) in items.obj.entries)
    && (forall k :: k in items.obj.entries ==> exists x :: x in allIds && Key(x) == k)
  }

  /** A consistent store resolves every id of `allIds`, so no selector throws. */
  lemma ConsistentResolves(items: Items, allIds: seq<Id>)
    requires Consistent(items, allIds)
    ensures AllResolve(items, allIds)
  {
    forall i | 0 <= i < |allIds| ensures Lookup(items, allIds[i]).Some? {
      assert allIds[i] in allIds;
    }
  }

  /** A key list that covers exactly the object's keys, as string ids, is consistent with it. */
  lemma KeyListConsistent(o: Object<Todo>, ks: seq<string>)
    requires forall k :: k in ks <==> k in o.entries
    ensures Consistent(Obj(o), StrIds(ks))
  {
    var ids := StrIds(ks);
    forall x | x in ids ensures Key(x) in o.entries {
      var i :| 0 <= i < |ids| && ids[i] == x;
      assert ks[i] in ks;
    }
    forall k | k in o.entries ensures exists x :: x in ids && Key(x) == k {
      var i :| 0 <= i < |ks| && ks[i] == k;
      assert ids[i] in ids && Key(ids[i]) == k;
    }
  }

  /** Any well-formed keyed object is consistent with its own `Object.keys`, as string ids. */
  lemma OwnKeysConsistent(o: Object<Todo>)
    requires Wf(o)
    ensures Consistent(Obj(o), StrIds(OwnKeys(o)))
  {
    OwnKeysCover(o);
    KeyListConsistent(o, OwnKeys(o));
  }

  /** Fetch success leaves a consistent store: `allIds` lists every key of the
      keyed payload and nothing else. */
  lemma FetchIsConsistent(payload: seq<Todo>)
    ensures Consistent(Obj(KeyById(payload)), StrIds(OwnKeys(KeyById(payload))))
  {
    OwnKeysConsistent(KeyById(payload));
  }

  /** The string ids of a well-formed object's keys are distinct. */
  lemma OwnKeysDistinctStrings(o: Object<Todo>)
    requires Wf(o)
    ensures var ids := StrIds(OwnKeys(o));
      && (forall x :: x in ids ==> x.Str?)
      && (forall i, j :: 0 <= i < j < |ids| ==> ids[i] != ids[j])
  {
    var ks := OwnKeys(o);
    var ids := StrIds(ks);
    OwnKeysCover(o);
    forall i, j | 0 <= i < j < |ids| ensures ids[i] != ids[j] {
      NoDuplicatesDistinct(ks, i, j);
    }
  }

  /** After a fetch `allIds` holds string ids only, each once. */
  lemma FetchIdsDistinctStrings(payload: seq<Todo>)
    ensures var ids := StrIds(OwnKeys(KeyById(payload)));
      && (forall x :: x in ids ==> x.Str?)
      && (forall i, j :: 0 <= i < j < |ids| ==> ids[i] != ids[j])
  {
    OwnKeysDistinctStrings(KeyById(payload));
  }

  lemma NoDuplicatesDistinct(s: seq<string>, i: nat, j: nat)
    requires NoDuplicates(s)
    requires i < j < |s|
    ensures s[i] != s[j]
  {
    var rest := s[i + 1..];
    assert s == s[..i] + [s[i]] + rest;
    assert rest[j - i - 1] == s[j];
    assert s[j] in multiset(rest);
    assert multiset(s)[s[i]] == multiset(s[..i])[s[i]] + 1 + multiset(rest)[s[i]];
  }

  /** Adding keeps a consistent store consistent: the new key is also the key of the pushed id. */
  lemma AddKeepsConsistent(o: Object<Todo>, allIds: seq<Id>, payload: Todo)
    requires Consistent(Obj(o), allIds)
    ensures Consistent(Obj(Put(o, Key(payload.id), AddedRecord(payload))), allIds + [payload.id])
  {
    var r := Put(o, Key(payload.id), AddedRecord(payload));
    var ids := allIds + [payload.id];
    forall k | k in r.entries ensures exists x :: x in ids && Key(x) == k {
      if k == Key(payload.id) {
        assert payload.id in ids;
      } else {
        var x :| x in allIds && Key(x) == k;
        assert x in ids;
      }
    }
  }

  /** Editing or toggling a record that is present keeps a consistent store consistent. */
  lemma ReplaceKeepsConsistent(o: Object<Todo>, allIds: seq<Id>, id: Id, t: Todo)
    requires Consistent(Obj(o), allIds)
    requires Key(id) in o.entries
    ensures Consistent(Obj(Put(o, Key(id), t)), allIds)
  {
  }

  /** Editing an id the object lacks adds a key that `allIds` does not list. */
  lemma EditOfMissingIdBreaksConsistency(o: Object<Todo>, allIds: seq<Id>, id: Id, data: Todo)
    requires Consistent(Obj(o), allIds)
    requires Key(id) !in o.entries
    ensures !Consistent(Obj(Put(o, Key(id), Spread(NoFields, data))), allIds)
  {
  }

  /** The corrected delete: drop from `allIds` every id with the deleted key. */
  function WithoutKey(ids: seq<Id>, id: Id): (r: seq<Id>)
    ensures forall x :: x in r <==> x in ids && Key(x) != Key(id)
  {
    Filter(ids, x => Key(x) != Key(id))
  }

  /** With the ids compared by key, delete keeps a consistent store consistent, whatever type the id has. */
  lemma DeleteByKeyKeepsConsistent(o: Object<Todo>, allIds: seq<Id>, id: Id)
    requires Consistent(Obj(o), allIds)
    ensures Consistent(Obj(Delete(o, Key(id))), WithoutKey(allIds, id))
  {
    var r := Delete(o, Key(id));
    var ids := WithoutKey(allIds, id);
    forall k | k in r.entries ensures exists x :: x in ids && Key(x) == k {
      var x :| x in allIds && Key(x) == k;
      assert x in ids;
    }
  }

  /** The strict filter of the code keeps a consistent store consistent when no
      other id of `allIds` shares the deleted key: then `!==` and the by-key
      comparison drop the same ids. */
  lemma DeleteStrictKeepsConsistent(o: Object<Todo>, allIds: seq<Id>, id: Id)
    requires Consistent(Obj(o), allIds)
    requires forall x :: x in allIds && Key(x) == Key(id) ==> x == id
    ensures Consistent(Obj(Delete(o, Key(id))), WithoutId(allIds, id))
  {
    DeleteByKeyKeepsConsistent(o, allIds, id);
    forall x ensures x in WithoutId(allIds, id) <==> x in WithoutKey(allIds, id) {
    }
  }

  /** What the strict delete of the code does to `allIds`, in the two cases above. */
  lemma StrictDeleteFacts(o: Object<Todo>, allIds: seq<Id>, id: Id)
    ensures Consistent(Obj(o), allIds) && (forall x :: x in allIds && Key(x) == Key(id) ==> x == id) ==>
      Consistent(Obj(Delete(o, Key(id))), WithoutId(allIds, id))
    ensures (forall x :: x in allIds ==> x.Str?) && id.Num? ==> WithoutId(allIds, id) == allIds
  {
    if Consistent(Obj(o), allIds) && forall x :: x in allIds && Key(x) == Key(id) ==> x == id {
      DeleteStrictKeepsConsistent(o, allIds, id);
    }
    if (forall x :: x in allIds ==> x.Str?) && id.Num? {
      NumericDeleteKeepsStringIds(allIds, id.n);
    }
  }

  /** The numbers 1 and 2 become the keys "1" and "2". */
  lemma SmallNumberKeys()
    ensures Key(Num(1)) == "1" && Key(Num(2)) == "2"
    ensures IsArrayIndex("1") && IsArrayIndex("2")
    ensures DecimalValue("1") == 1 && DecimalValue("2") == 2
  {
    NumKeyIsArrayIndex(1);
    NumKeyIsArrayIndex(2);
  }

  /** Keying one record stores it under its key. */
  lemma KeyedByOne(k: string, v: Todo)
    ensures KeyedBy([k], [v]) == Object([k], map[k := v])
  {
    assert [k][..0] == [] && [v][..0] == [];
  }

  /** Keying two records with distinct keys stores each under its key, in that order. */
  lemma KeyedByTwo(k1: string, k2: string, v1: Todo, v2: Todo)
    requires k1 != k2
    ensures KeyedBy([k1, k2], [v1, v2]) == Object([k1, k2], map[k1 := v1, k2 := v2])
  {
    assert [k1, k2][..1] == [k1] && [v1, v2][..1] == [v1];
    KeyedByOne(k1, v1);
  }

  /** An object whose only key is an array index enumerates just that key. */
  lemma OwnKeysOneIndex<V>(o: Object<V>, a: string)
    requires o.order == [a] && IsArrayIndex(a)
    ensures OwnKeys(o) == [a]
  {
    assert [a][1..] == [];
    assert Filter([a], IsArrayIndex) == [a];
    assert Filter([a], IsNamedKey) == [];
  }

  /** An object with two array-index keys, added in ascending order, enumerates them in that order. */
  lemma OwnKeysTwoIndices<V>(o: Object<V>, a: string, b: string)
    requires o.order == [a, b] && IsArrayIndex(a) && IsArrayIndex(b)
    requires DecimalValue(a) <= DecimalValue(b)
    ensures OwnKeys(o) == [a, b]
  {
    assert [a, b][1..] == [b] && [b][1..] == [];
    assert Filter([b], IsArrayIndex) == [b];
    assert Filter([a, b], IsArrayIndex) == [a, b];
    assert Filter([b], IsNamedKey) == [];
    assert Filter([a, b], IsNamedKey) == [];
    assert SortByIndex([b]) == [b];
    assert SortByIndex([a, b]) == InsertByIndex(a, [b]);
  }

  /** Keying `[t]` with id 1 stores it under "1". */
  lemma FetchOneObject(t: Todo)
    requires t.id == Num(1)
    ensures KeyById([t]) == Object(["1"], map["1" := t])
  {
    assert IdKeys([t]) == [Key(t.id)];
    SmallNumberKeys();
    KeyedByOne("1", t);
  }

  /** An object whose only key is "1" enumerates just that key. */
  lemma OwnKeysOne<V>(o: Object<V>)
    requires o.order == ["1"]
    ensures OwnKeys(o) == ["1"]
  {
    SmallNumberKeys();
    OwnKeysOneIndex(o, "1");
  }

  /** Fetching one record with id 1 keys it under "1" and sets `allIds` to `["1"]`. */
  lemma FetchOneRecord(t: Todo)
    requires t.id == Num(1)
    ensures KeyById([t]) == Object(["1"], map["1" := t])
    ensures StrIds(OwnKeys(KeyById([t]))) == [Str("1")]
  {
    FetchOneObject(t);
    OwnKeysOne(KeyById([t]));
  }

  /** After the record under "1" is deleted, the id "1" no longer resolves and
      the "completed" selection throws. */
  lemma DanglingIdThrows(o: Object<Todo>, ids: seq<Id>)
    requires "1" !in o.entries && ids == [Str("1")]
    ensures !Consistent(Obj(o), ids)
    ensures SelectTodosByFilter(Obj(o), ids, "completed").TypeError?
  {
    assert Lookup(Obj(o), ids[0]).None?;
  }

  /** Deleting the number 1 from an object whose `allIds` is `["1"]`: the strict
      filter keeps "1", which then dangles. */
  lemma DeleteOneLeavesDanglingId(o: Object<Todo>, ids: seq<Id>)
    requires ids == [Str("1")]
    ensures WithoutId(ids, Num(1)) == [Str("1")]
    ensures !Consistent(Obj(Delete(o, Key(Num(1)))), WithoutId(ids, Num(1)))
    ensures SelectTodosByFilter(Obj(Delete(o, Key(Num(1)))), WithoutId(ids, Num(1)), "completed").TypeError?
  {
    NumericDeleteKeepsStringIds(ids, 1);
    SmallNumberKeys();
    DanglingIdThrows(Delete(o, "1"), ids);
  }

  /** As written, delete of the numeric id 1 after a fetch of one record with id 1
      removes the record but leaves the string id "1" in `allIds`; the "completed"
      selection then reads `.completed` of `undefined` and throws. */
  lemma DeleteByNumberLeavesDanglingId(t: Todo)
    requires t.id == Num(1)
    ensures var o := KeyById([t]);
      var ids := StrIds(OwnKeys(o));
      && Consistent(Obj(o), ids)
      && ids == [Str("1")]
      && WithoutId(ids, Num(1)) == [Str("1")]
      && !Consistent(Obj(Delete(o, Key(Num(1)))), WithoutId(ids, Num(1)))
      && SelectTodosByFilter(Obj(Delete(o, Key(Num(1)))), WithoutId(ids, Num(1)), "completed").TypeError?
  {
    var o := KeyById([t]);
    var ids := StrIds(OwnKeys(o));
    FetchOneRecord(t);
    FetchIsConsistent([t]);
    DeleteOneLeavesDanglingId(o, ids);
  }

  /** Toggling the same record twice gives back the keyed object it started from,
      when the record's `completed` field is present. */
  lemma ToggleTwiceRestores(o: Object<Todo>, k: string)
    requires Wf(o) && k in o.entries && o.entries[k].completed.Some?
    ensures var once := Put(o, k, Toggled(o.entries[k]));
      Put(once, k, Toggled(once.entries[k])) == o
  {
    var t := o.entries[k];
    ToggledTwice(t);
    var once := Put(o, k, Toggled(t));
    var twice := Put(once, k, Toggled(once.entries[k]));
    assert twice.entries == o.entries;
  }

  /** On the array shape, toggling the same element twice gives back the list,
      when the element's `completed` field is present. */
  lemma ToggleTwiceRestoresArray(list: seq<Todo>, i: nat)
    requires i < |list| && list[i].completed.Some?
    ensures var once := list[i := Toggled(list[i])];
      once[i := Toggled(once[i])] == list
  {
    ToggledTwice(list[i]);
  }

  /** Clearing completed records keeps exactly the others, in their order: no
      completed record remains, and the kept and the removed records together
      are the original list. */
  lemma ClearCompletedSplits(list: seq<Todo>)
    ensures forall t :: t in Filter(list, IsActive) ==> !IsCompleted(t)
    ensures multiset(Filter(list, IsActive)) + multiset(Filter(list, IsCompleted)) == multiset(list)
    ensures forall a, b :: list == a + b ==> Filter(list, IsActive) == Filter(a, IsActive) + Filter(b, IsActive)
  {
    FilterPartition(list, IsActive, IsCompleted);
    forall a, b | list == a + b
      ensures Filter(list, IsActive) == Filter(a, IsActive) + Filter(b, IsActive)
    {
      FilterConcat(a, b, IsActive);
    }
  }

  /** The keys of two records are their ids' keys, in payload order. */
  lemma IdKeysOfTwo(t1: Todo, t2: Todo)
    ensures IdKeys([t1, t2]) == [Key(t1.id), Key(t2.id)]
  {
  }

  /** Keying `[t1, t2]` with ids 1 and 2 stores them under "1" and "2", in that order. */
  lemma ScenarioObject(t1: Todo, t2: Todo)
    requires t1.id == Num(1) && t2.id == Num(2)
    ensures KeyById([t1, t2]) == Object(["1", "2"], map["1" := t1, "2" := t2])
  {
    IdKeysOfTwo(t1, t2);
    SmallNumberKeys();
    KeyedByTwo("1", "2", t1, t2);
  }

  /** After keying `[t1, t2]` with ids 1 and 2, the ids "1" and "2" find the two records. */
  lemma ScenarioLookups(t1: Todo, t2: Todo)
    requires t1.id == Num(1) && t2.id == Num(2)
    ensures Lookup(Obj(KeyById([t1, t2])), Str("1")) == Some(t1)
    ensures Lookup(Obj(KeyById([t1, t2])), Str("2")) == Some(t2)
  {
    var o := KeyById([t1, t2]);
    ScenarioObject(t1, t2);
    assert o.entries == map["1" := t1, "2" := t2];
  }

  /** An object whose keys are "1" then "2" enumerates them in that order. */
  lemma OwnKeysOneTwo<V>(o: Object<V>)
    requires o.order == ["1", "2"]
    ensures OwnKeys(o) == ["1", "2"]
  {
    SmallNumberKeys();
    OwnKeysTwoIndices(o, "1", "2");
  }

  /** The keys "1" and "2" as string ids. */
  lemma StrIdsOneTwo()
    ensures StrIds(["1", "2"]) == [Str("1"), Str("2")]
  {
  }

  /** Fetching `[t1, t2]` with ids 1 and 2 sets `allIds` to `["1", "2"]`. */
  lemma ScenarioKeys(t1: Todo, t2: Todo)
    requires t1.id == Num(1) && t2.id == Num(2)
    ensures StrIds(OwnKeys(KeyById([t1, t2]))) == [Str("1"), Str("2")]
  {
    var o := KeyById([t1, t2]);
    assert o.order == ["1", "2"] by {
      ScenarioObject(t1, t2);
    }
    OwnKeysOneTwo(o);
    StrIdsOneTwo();
  }

  /** Looking up two ids gives the two lookups, in order. */
  lemma LookupAllOfTwo(items: Items, a: Id, b: Id)
    ensures LookupAll(items, [a, b]) == [Lookup(items, a), Lookup(items, b)]
  {
    assert [a, b][1..] == [b] && [b][1..] == [];
  }

  /** Over two ids whose records are an active one then a completed one, the
      "completed" selection is the second record and the "active" one the first. */
  lemma SelectionsOfTwo(items: Items, a: Id, b: Id, t1: Todo, t2: Todo)
    requires Lookup(items, a) == Some(t1) && Lookup(items, b) == Some(t2)
    requires !IsCompleted(t1) && IsCompleted(t2)
    ensures SelectTodosByFilter(items, [a, b], "completed") == Normal([Some(t2)])
    ensures SelectTodosByFilter(items, [a, b], "active") == Normal([Some(t1)])
  {
    var all := LookupAll(items, [a, b]);
    LookupAllOfTwo(items, a, b);
    assert AllResolve(items, [a, b]);
    SelectTodosByFilterSpec(items, [a, b], "completed");
    SelectTodosByFilterSpec(items, [a, b], "active");
    assert !IsCompletedValue(Some(t1)) && IsCompletedValue(Some(t2));
    FilterOfTwo(Some(t1), Some(t2), IsCompletedValue);
    FilterOfTwo(Some(t1), Some(t2), IsNotCompletedValue);
    assert [] + [Some(t2)] == [Some(t2)] && [Some(t1)] + [] == [Some(t1)];
  }

  /** Fetching `[{id: 1, completed: false, ...}, {id: 2, completed: true, ...}]`
      yields `allIds` `["1", "2"]`; the "completed" selection is the second record
      and the "active" selection the first. */
  lemma FetchThenFilterScenario(t1: Todo, t2: Todo)
    requires t1.id == Num(1) && t1.completed == Some(false)
    requires t2.id == Num(2) && t2.completed == Some(true)
    ensures var o := KeyById([t1, t2]);
      var ids := StrIds(OwnKeys(o));
      && ids == [Str("1"), Str("2")]
      && SelectTodosByFilter(Obj(o), ids, "completed") == Normal([Some(t2)])
      && SelectTodosByFilter(Obj(o), ids, "active") == Normal([Some(t1)])
  {
    ScenarioKeys(t1, t2);
    ScenarioLookups(t1, t2);
    SelectionsOfTwo(Obj(KeyById([t1, t2])), Str("1"), Str("2"), t1, t2);
  }

  /** The store: the slice's state and its reducer cases. */
  class TodoStore {
    var items: Items
    var allIds: seq<Id>
    var activeFilter: string
    var getStatus: Status
    var addStatus: Status
    var error: Option<string>
    /** What local storage holds under the key "todos"; `None` when nothing is stored. */
    ghost var mirror: Option<Items>

    ghost predicate Valid()
      reads this
    {
      ItemsWf(items)
    }

    /** The initial state: `items` is what local storage holds (an empty array
        when it holds nothing) and `allIds` its `Object.keys`. */
    constructor (stored: Option<Items>)
      requires stored.Some? ==> ItemsWf(stored.value)
      ensures Valid()
      ensures items == (if stored.Some? then stored.value else Arr([]))
      ensures allIds == StrIds(ObjectKeys(items))
      ensures activeFilter == "all"
      ensures getStatus == Idle && addStatus == Idle && error == None
      ensures mirror == stored
    {
      items := if stored.Some? then stored.value else Arr([]);
      allIds := StrIds(ObjectKeys(if stored.Some? then stored.value else Arr([])));
      activeFilter := "all";
      getStatus, addStatus := Idle, Idle;
      error := None;
      mirror := stored;
    }

    /** `changeActiveFilter`: stores the payload as it is; nothing else changes. */
    method ChangeActiveFilter(filter: string)
      modifies this`activeFilter
      ensures activeFilter == filter
    {
      activeFilter := filter;
    }

    /** `clearCompleted`: on the array shape, keeps the records that are not
        completed, in their order, and sets `allIds` to their ids; local storage
        is not written. On the keyed shape `items.filter` is not a function: the
        reducer throws and the state stays as it was. */
    method ClearCompleted() returns (threw: bool)
      requires Valid()
      modifies this`items, this`allIds
      ensures Valid()
      ensures threw <==> old(items).Obj?
      ensures threw ==> items == old(items) && allIds == old(allIds)
      ensures !threw ==> items == Arr(Filter(old(items).list, IsActive))
      ensures !threw ==> allIds == IdsOf(items.list)
    {
      if items.Obj? {
        return true;
      }
      items := Arr(Filter(items.list, IsActive));
      allIds := IdsOf(items.list);
      return false;
    }

    /** `reorderTodos`: `items` becomes the payload array, which is also saved to
        local storage; `allIds` is left as it was. */
    method ReorderTodos(payload: seq<Todo>)
      modifies this`items, this`mirror
      ensures Valid()
      ensures items == Arr(payload) && mirror == Some(items)
      ensures SelectTodos(items) == payload
    {
      items := Arr(payload);
      mirror := Some(items);
    }

    /** `getTodosAsync.pending` */
    method GetTodosPending()
      modifies this`getStatus
      ensures getStatus == Pending
    {
      getStatus := Pending;
    }

    /** `getTodosAsync.fulfilled`: `items` becomes the payload keyed by id and
        `allIds` its keys; local storage is not written. */
    method GetTodosFulfilled(payload: seq<Todo>)
      modifies this`items, this`allIds, this`getStatus
      ensures Valid()
      ensures items == Obj(KeyById(payload))
      ensures allIds == StrIds(OwnKeys(items.obj))
      ensures getStatus == Succeeded
      ensures Consistent(items, allIds)
    {
      items := Obj(KeyById(payload));
      allIds := StrIds(OwnKeys(items.obj));
      getStatus := Succeeded;
      FetchIsConsistent(payload);
    }

    /** `getTodosAsync.rejected` */
    method GetTodosRejected()
      modifies this`getStatus, this`error
      ensures getStatus == Failed && error == Some(FetchError)
    {
      getStatus := Failed;
      error := Some(FetchError);
    }

    /** `addTodoAsync.pending` */
    method AddTodoPending()
      modifies this`addStatus
      ensures addStatus == Pending
    {
      addStatus := Pending;
    }

    /** `addTodoAsync.fulfilled`: the new record goes under the payload id's key,
        the raw id is pushed onto `allIds`, and `items` is saved. */
    method AddTodoFulfilled(payload: Todo)
      requires Valid() && items.Obj?
      modifies this`items, this`allIds, this`addStatus, this`mirror
      ensures Valid()
      ensures items == Obj(Put(old(items).obj, Key(payload.id), AddedRecord(payload)))
      ensures allIds == old(allIds) + [payload.id]
      ensures addStatus == Succeeded
      ensures mirror == Some(items)
      ensures forall k :: k in old(items).obj.entries && k != Key(payload.id) ==>
        k in items.obj.entries && items.obj.entries[k] == old(items).obj.entries[k]
      ensures old(Consistent(items, allIds)) ==> Consistent(items, allIds)
    {
      if Consistent(items, allIds) {
        AddKeepsConsistent(items.obj, allIds, payload);
      }
      items := Obj(Put(items.obj, Key(payload.id), AddedRecord(payload)));
      allIds := allIds + [payload.id];
      addStatus := Succeeded;
      mirror := Some(items);
    }

    /** `addTodoAsync.rejected`: `items`, `allIds` and local storage stay as they were. */
    method AddTodoRejected()
      modifies this`addStatus, this`error
      ensures addStatus == Failed && error == Some(AddError)
    {
      addStatus := Failed;
      error := Some(AddError);
    }

    /** `editTodoAsync.fulfilled`: `items[id] = { ...items[id], ...data }` (just
        `data` when the id is absent), then `items` is saved; `allIds` stays. */
    method EditTodoFulfilled(id: Id, data: Todo)
      requires Valid() && items.Obj?
      modifies this`items, this`mirror
      ensures Valid()
      ensures var base := Lookup(old(items), id);
        items == Obj(Put(old(items).obj, Key(id), Spread(if base.Some? then base.value else NoFields, data)))
      ensures mirror == Some(items)
      ensures forall k :: k in old(items).obj.entries && k != Key(id) ==>
        k in items.obj.entries && items.obj.entries[k] == old(items).obj.entries[k]
      ensures old(Consistent(items, allIds)) && Key(id) in old(items).obj.entries ==> Consistent(items, allIds)
    {
      var base := Lookup(items, id);
      var merged := Spread(if base.Some? then base.value else NoFields, data);
      if Consistent(items, allIds) && Key(id) in items.obj.entries {
        ReplaceKeepsConsistent(items.obj, allIds, id, merged);
      }
      items := Obj(Put(items.obj, Key(id), merged));
      mirror := Some(items);
    }

    /** `editTodoAsync.rejected`: sets the add status, the only status an edit has. */
    method EditTodoRejected()
      modifies this`addStatus, this`error
      ensures addStatus == Failed && error == Some(EditError)
    {
      addStatus := Failed;
      error := Some(EditError);
    }

    /** `toggleTodoAsync.fulfilled`: flips `completed` of the record `items[id]`
        reads and saves `items`. On the keyed shape that is the record under the
        id's key; on the array shape (after a drag) the element at the index the
        key spells, which is changed in place. Without such a record, reading
        `.completed` of `undefined` throws and the state stays as it was. */
    method ToggleTodoFulfilled(id: Id) returns (threw: bool)
      requires Valid()
      modifies this`items, this`mirror
      ensures Valid()
      ensures threw <==> Lookup(old(items), id).None?
      ensures threw ==> items == old(items) && mirror == old(mirror)
      ensures !threw ==> mirror == Some(items)
      ensures !threw ==> Lookup(items, id) == Some(Toggled(Lookup(old(items), id).value))
      ensures old(items).Obj? && !threw ==>
        items == Obj(Put(old(items).obj, Key(id), Toggled(old(items).obj.entries[Key(id)])))
      ensures old(items).Obj? ==> forall k :: k in old(items).obj.entries && k != Key(id) ==>
        k in items.obj.entries && items.obj.entries[k] == old(items).obj.entries[k]
      ensures old(items).Arr? && !threw ==>
        var i := DecimalValue(Key(id));
        i < |old(items).list| && items == Arr(old(items).list[i := Toggled(old(items).list[i])])
      ensures old(items).Arr? ==> items.Arr? && |items.list| == |old(items).list|
      ensures old(items).Arr? ==> forall j :: 0 <= j < |items.list| && items.list[j] != old(items).list[j] ==>
        !threw && j == DecimalValue(Key(id))
      ensures old(Consistent(items, allIds)) ==> Consistent(items, allIds)
    {
      var found := Lookup(items, id);
      if found.None? {
        return true;
      }
      var t := Toggled(found.value);
      var k := Key(id);
      if items.Obj? {
        if Consistent(items, allIds) {
          ReplaceKeepsConsistent(items.obj, allIds, id, t);
        }
        items := Obj(Put(items.obj, k, t));
      } else {
        var i := DecimalValue(k);
        items := Arr(items.list[i := t]);
      }
      mirror := Some(items);
      return false;
    }

    /** `deleteTodoAsync.fulfilled`: `delete items[id]`, then
        `allIds.filter((itemId) => itemId !== id)`, and saves `items`. The strict
        comparison keeps agreement only when no other id of `allIds` shares the
        deleted key; a numeric id leaves the string ids of a fetch untouched
        (see `DeleteByNumberLeavesDanglingId`). */
    method DeleteTodoFulfilled(id: Id)
      requires Valid() && items.Obj?
      modifies this`items, this`allIds, this`mirror
      ensures Valid()
      ensures items == Obj(Delete(old(items).obj, Key(id)))
      ensures allIds == WithoutId(old(allIds), id)
      ensures mirror == Some(items)
      ensures Key(id) !in items.obj.entries
      ensures forall k :: k in old(items).obj.entries && k != Key(id) ==>
        k in items.obj.entries && items.obj.entries[k] == old(items).obj.entries[k]
      ensures old(Consistent(items, allIds)) && (forall x :: x in old(allIds) && Key(x) == Key(id) ==> x == id) ==>
        Consistent(items, allIds)
      ensures (forall x :: x in old(allIds) ==> x.Str?) && id.Num? ==> allIds == old(allIds)
    {
      StrictDeleteFacts(items.obj, allIds, id);
      items := Obj(Delete(items.obj, Key(id)));
      allIds := WithoutId(allIds, id);
      mirror := Some(items);
    }
  }
}
