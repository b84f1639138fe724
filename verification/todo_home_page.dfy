/**
 * The two computations of the home page component that touch the store: the
 * drag-end handler, which moves one record of `Object.values(items)` to a new
 * position and dispatches the result as `reorderTodos`, and the title the edit
 * dialog starts from.
 */
module TodoHomePage {
  import opened JsValues
  import opened TodoSlice

  /** What the drag library reports when a drag ends: the dragged row's index
      and, unless the row was dropped outside the list, the index it was dropped at. */
  datatype DropResult = DropResult(sourceIndex: nat, destination: Option<nat>)

  /** `r` is `s` with the element at `from` moved to `to`: the elements before
      both positions and after both keep their places, the ones in between shift
      by one towards `from`. */
  ghost predicate IsMove<T>(s: seq<T>, r: seq<T>, from: nat, to: nat)
    requires from < |s| && to < |s|
  {
    && |r| == |s|
    && r[to] == s[from]
    && (forall k :: 0 <= k < from && k < to ==> r[k] == s[k])
    && (forall k :: from < k < |s| && to < k ==> r[k] == s[k])
    && (forall k :: from <= k < to ==> r[k] == s[k + 1])
    && (forall k :: to < k <= from ==> r[k] == s[k - 1])
  }

  /** The move is determined: two lists that are both `s` with the same move are equal. */
  lemma IsMoveUnique<T>(s: seq<T>, r1: seq<T>, r2: seq<T>, from: nat, to: nat)
    requires from < |s| && to < |s|
    requires IsMove(s, r1, from, to) && IsMove(s, r2, from, to)
    ensures r1 == r2
  {
    forall k | 0 <= k < |s| ensures r1[k] == r2[k] {
      if k == to {
      } else if k < from && k < to {
      } else if from < k && to < k {
      } else if from <= k < to {
      } else {
        assert to < k <= from;
      }
    }
  }

  /** Moving an element to its own position changes nothing. */
  lemma MoveToSameIndex<T>(s: seq<T>, r: seq<T>, i: nat)
    requires i < |s|
    requires IsMove(s, r, i, i)
    ensures r == s
  {
    forall k | 0 <= k < |s| ensures r[k] == s[k] {
      if k < i {
      } else if k > i {
      }
    }
  }

  /** Cutting the element at `from` out of `s` and inserting it again at `to` moves it. */
  lemma CutAndInsertIsMove<T>(s: seq<T>, rest: seq<T>, r: seq<T>, from: nat, to: nat)
    requires from < |s| && to < |s|
    requires rest == s[..from] + s[from + 1..]
    requires r == rest[..to] + [s[from]] + rest[to..]
    ensures IsMove(s, r, from, to)
  {
    assert forall k :: 0 <= k < from ==> rest[k] == s[k];
    assert forall k :: from <= k < |rest| ==> rest[k] == s[k + 1];
    assert forall k :: 0 <= k < to ==> r[k] == rest[k];
    assert forall k :: to < k < |r| ==> r[k] == rest[k - 1];
  }

  /** Cutting an element out and inserting it again keeps every element as often as before. */
  lemma CutAndInsertKeepsMultiset<T>(s: seq<T>, rest: seq<T>, r: seq<T>, from: nat, to: nat)
    requires from < |s| && to <= |rest|
    requires rest == s[..from] + s[from + 1..]
    requires r == rest[..to] + [s[from]] + rest[to..]
    ensures multiset(r) == multiset(s)
  {
    var x := s[from];
    assert s == s[..from] + [x] + s[from + 1..];
    assert multiset(s) == multiset(s[..from]) + multiset{x} + multiset(s[from + 1..]);
    assert multiset(rest) == multiset(s[..from]) + multiset(s[from + 1..]);
    assert rest == rest[..to] + rest[to..];
    assert multiset(rest) == multiset(rest[..to]) + multiset(rest[to..]);
    assert multiset(r) == multiset(rest[..to]) + multiset{x} + multiset(rest[to..]);
    assert multiset(r) == multiset(rest) + multiset{x};
    assert multiset(s) == multiset(rest) + multiset{x};
  }

  /** Lines 57-59 of the handler: copy the list, cut the dragged element out at
      `sourceIndex` and insert it again at `destinationIndex`. */
  method ReorderedTodos<T>(todos: seq<T>, sourceIndex: nat, destinationIndex: nat) returns (reordered: seq<T>)
    requires sourceIndex < |todos| && destinationIndex < |todos|
    ensures IsMove(todos, reordered, sourceIndex, destinationIndex)
    ensures multiset(reordered) == multiset(todos)
  {
    reordered := todos;
    var removed := reordered[sourceIndex];
    reordered := reordered[..sourceIndex] + reordered[sourceIndex + 1..];
    ghost var rest := reordered;
    reordered := reordered[..destinationIndex] + [removed] + reordered[destinationIndex..];
    CutAndInsertIsMove(todos, rest, reordered, sourceIndex, destinationIndex);
    CutAndInsertKeepsMultiset(todos, rest, reordered, sourceIndex, destinationIndex);
  }

  /** `handleDragEnd`: a drop outside the list dispatches nothing; otherwise the
      store's `items` becomes the values it held, in `Object.values` order, with
      the dragged record moved to the drop index, and that list is saved. */
  method HandleDragEnd(store: TodoStore, result: DropResult)
    requires result.destination.Some? ==>
      && result.sourceIndex < |SelectTodos(store.items)|
      && result.destination.value < |SelectTodos(store.items)|
    modifies store`items, store`mirror
    ensures result.destination.None? ==> store.items == old(store.items) && store.mirror == old(store.mirror)
    ensures result.destination.Some? ==>
      && store.items.Arr?
      && IsMove(SelectTodos(old(store.items)), store.items.list, result.sourceIndex, result.destination.value)
      && multiset(store.items.list) == multiset(SelectTodos(old(store.items)))
      && store.mirror == Some(store.items)
  {
    if result.destination.None? {
      return;
    }
    var reordered := ReorderedTodos(SelectTodos(store.items), result.sourceIndex, result.destination.value);
    store.ReorderTodos(reordered);
  }

  /** Record `i` is the first whose id is strictly equal to `id`. */
  ghost predicate IsFirstMatch(todos: seq<Todo>, id: Id, i: nat)
  {
    i < |todos| && todos[i].id == id && forall j :: 0 <= j < i ==> todos[j].id != id
  }

  /** The position of the first record whose id is strictly equal to `id`. */
  function FirstMatch(todos: seq<Todo>, id: Id): (r: Option<nat>)
    ensures r.None? <==> forall i :: 0 <= i < |todos| ==> todos[i].id != id
    ensures r.Some? ==> IsFirstMatch(todos, id, r.value)
  {
    if todos == [] then None
    else if todos[0].id == id then Some(0)
    else
      var r := FirstMatch(todos[1..], id);
      assert forall i :: 0 < i < |todos| ==> todos[i] == todos[1..][i - 1];
      if r.Some? then Some(r.value + 1) else None
  }

  /** `todos.find((todo) => todo.id === id)`: the first record whose id is strictly
      equal, `None` (standing for `undefined`) when no id is. */
  function FindById(todos: seq<Todo>, id: Id): (r: Option<Todo>)
    ensures r.None? <==> forall i :: 0 <= i < |todos| ==> todos[i].id != id
    ensures forall i: nat :: IsFirstMatch(todos, id, i) ==> r == Some(todos[i])
  {
    match FirstMatch(todos, id)
    case None => None
    case Some(i) => Some(todos[i])
  }

  /** The edit dialog's initial text (line 158): the title of the record found by
      strict id equality on the array shape, or by key on the keyed shape; `None`
      when no record is found or the record has no title. */
  function EditInitialText(todos: Items, editTodoId: Id): (r: Option<string>)
    ensures todos.Arr? ==> forall i: nat :: IsFirstMatch(todos.list, editTodoId, i) ==> r == todos.list[i].title
    ensures todos.Arr? && (forall i :: 0 <= i < |todos.list| ==> todos.list[i].id != editTodoId) ==> r == None
    ensures todos.Obj? ==>
      r == if Key(editTodoId) in todos.obj.entries then todos.obj.entries[Key(editTodoId)].title else None
  {
    var found := if todos.Arr? then FindById(todos.list, editTodoId) else Lookup(todos, editTodoId);
    if found.Some? then found.value.title else None
  }

  /** On the keyed shape a numeric id and its decimal string open the same text;
      on the array shape a string id matches no record whose id is a number. */
  lemma EditInitialTextCoercion(items: Items, n: int)
    ensures items.Obj? ==> EditInitialText(items, Num(n)) == EditInitialText(items, Str(IntToDecimal(n)))
    ensures items.Arr? && (forall t :: t in items.list ==> t.id.Num?) ==>
      EditInitialText(items, Str(IntToDecimal(n))) == None
  {
    if items.Arr? && (forall t :: t in items.list ==> t.id.Num?) {
      var list := items.list;
      forall i | 0 <= i < |list| ensures list[i].id != Str(IntToDecimal(n)) {
        assert list[i] in list;
      }
    }
  }
}
