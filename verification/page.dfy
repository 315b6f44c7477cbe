/** The page as a whole: the in-memory list, the snapshot kept under the
    `todos` key of local storage, and the rendered view. The event handlers
    addTodo, toggleComplete and deleteTodo each take a page to a page. */
module Page {
  import opened Text
  import opened TodoList
  import opened View

  /** What local storage holds under the `todos` key */
  datatype Storage =
    | Missing                        // `getItem` returns null: never saved
    | Saved(snapshot: seq<Todo>)     // the list as serialized by the last save

  datatype PageState = PageState(todos: seq<Todo>, storage: Storage, view: seq<Todo>)

  /** `JSON.parse(localStorage.getItem('todos')) || []` */
  function Restore(s: Storage): (r: seq<Todo>)
    ensures s == Missing ==> r == []
    ensures forall l :: s == Saved(l) ==> r == l
  {
    match s
    case Missing => []
    case Saved(l) => l
  }

  /** The page right after DOMContentLoaded: the list read back from storage,
      then loadTodos renders it */
  function Open(s: Storage): (p: PageState)
    ensures p.storage == s
    ensures p.todos == Restore(s)
    ensures p.view == p.todos
  {
    var todos := Restore(s);
    PageState(todos, s, LoadView(todos))
  }

  /** The page is consistent: the view mirrors the list item for item, a
      reload would read back exactly the list, and the list is well formed */
  predicate Synced(p: PageState) {
    && p.view == p.todos
    && Restore(p.storage) == p.todos
    && WellFormed(p.todos)
  }

  /** addTodo: on blank input nothing changes (the user gets an alert);
      otherwise the new record is unshifted onto the list, the list is saved,
      and the rendered item is prepended to the view */
  function AddTodo(p: PageState, input: string, freshId: string): (r: PageState)
    ensures AllWhitespace(input) ==> r == p
    ensures !AllWhitespace(input) ==>
      && r.todos == Add(p.todos, input, freshId)
      && r.storage == Saved(r.todos)
      && r.view == [r.todos[0]] + p.view
    ensures Synced(p) && !HasId(p.todos, freshId) ==> Synced(r)
  {
    match NewTodo(input, freshId)
    case EmptyInput => p
    case Created(t) =>
      var todos := Add(p.todos, input, freshId);
      PageState(todos, Saved(todos), Prepend(p.view, t))
  }

  /** toggleComplete: acts only when the id is in the list AND an item with
      that `data-id` is on the page; flips the record, saves, and sets the
      item's `completed` class to the record's new value */
  function ToggleComplete(p: PageState, id: string): (r: PageState)
    ensures !HasId(p.todos, id) || !HasId(p.view, id) ==> r == p
    ensures HasId(p.todos, id) && HasId(p.view, id) ==>
      && r.todos == Toggle(p.todos, id)
      && r.storage == Saved(r.todos)
      && r.view == MarkCompleted(p.view, id, r.todos[FindIndex(p.todos, id)].completed)
    ensures Synced(p) ==> Synced(r)
  {
    var i := FindIndex(p.todos, id);
    if i > -1 && HasId(p.view, id) then
      var todos := Toggle(p.todos, id);
      PageState(todos, Saved(todos), MarkCompleted(p.view, id, todos[i].completed))
    else p
  }

  /** deleteTodo, with the work deferred to `animationend` done at once:
      acts only when an item with that `data-id` is on the page; removes the
      item, filters the id out of the list, and saves */
  function DeleteTodo(p: PageState, id: string): (r: PageState)
    ensures !HasId(p.view, id) ==> r == p
    ensures HasId(p.view, id) ==>
      && r.todos == Delete(p.todos, id)
      && r.storage == Saved(r.todos)
      && r.view == RemoveItem(p.view, id)
    ensures Synced(p) ==> Synced(r)
    ensures Synced(p) && HasId(p.todos, id) ==> |r.todos| == |p.todos| - 1
  {
    if HasId(p.view, id) then
      var todos := Delete(p.todos, id);
      var i := FindIndex(p.view, id);
      assert Synced(p) ==> todos == p.todos[..i] + p.todos[i + 1..] && DistinctIds(todos) by {
        if Synced(p) {
          DeleteDistinct(p.todos, id, i);
          DeleteKeepsDistinct(p.todos, id);
        }
      }
      PageState(todos, Saved(todos), RemoveItem(p.view, id))
    else p
  }

  /** A freshly opened page is consistent whenever the stored list is well
      formed (in particular when nothing was ever saved) */
  lemma OpenSynced(s: Storage)
    requires WellFormed(Restore(s))
    ensures Synced(Open(s))
  {
  }

  /** Reloading a consistent page rebuilds it exactly: same records, same
      order, same view */
  lemma ReloadRestores(p: PageState)
    requires Synced(p)
    ensures Open(p.storage) == p
  {
  }

  /** Loading twice without a change in between gives the same page */
  lemma OpenTwice(s: Storage)
    ensures Open(Open(s).storage) == Open(s)
  {
  }

  /** One user action, as delivered by the page's event listeners */
  datatype Action =
    | AddAction(input: string, freshId: string)
    | ToggleAction(id: string)
    | DeleteAction(id: string)

  /** The handler an action triggers: the add button or Enter key, or a
      task's complete or delete button */
  function Step(p: PageState, a: Action): (r: PageState)
    ensures Restore(p.storage) == p.todos ==> Restore(r.storage) == r.todos
    ensures Synced(p) && (a.AddAction? ==> !HasId(p.todos, a.freshId)) ==> Synced(r)
  {
    match a
    case AddAction(input, freshId) => AddTodo(p, input, freshId)
    case ToggleAction(id) => ToggleComplete(p, id)
    case DeleteAction(id) => DeleteTodo(p, id)
  }

  /** The page after the actions, handled one after the other */
  function Run(p: PageState, actions: seq<Action>): (r: PageState)
    ensures |actions| == 0 ==> r == p
    ensures Restore(p.storage) == p.todos ==> Restore(r.storage) == r.todos
    decreases |actions|
  {
    if |actions| == 0 then p else Run(Step(p, actions[0]), actions[1..])
  }

  /** Every add in the run receives an id not yet in the list it joins */
  predicate FreshIds(p: PageState, actions: seq<Action>)
    decreases |actions|
  {
    || |actions| == 0
    || (&& (actions[0].AddAction? ==> !HasId(p.todos, actions[0].freshId))
        && FreshIds(Step(p, actions[0]), actions[1..]))
  }

  /** Any run of adds, toggles and deletes with fresh ids keeps the page
      consistent, so a reload after it reconstructs the list exactly */
  lemma {:induction false} RunKeepsSynced(p: PageState, actions: seq<Action>)
    requires Synced(p)
    requires FreshIds(p, actions)
    ensures Synced(Run(p, actions))
    ensures Open(Run(p, actions).storage) == Run(p, actions)
    decreases |actions|
  {
    if |actions| > 0 {
      RunKeepsSynced(Step(p, actions[0]), actions[1..]);
    }
  }

  /** Whatever the ids, even colliding ones, every handler saves the list it
      leaves behind, so after any run a reload reads back exactly the list
      (though the page's view may differ, see `SharedIdDesyncs`) */
  lemma RunKeepsSaved(p: PageState, actions: seq<Action>)
    requires Restore(p.storage) == p.todos
    ensures Open(Run(p, actions).storage).todos == Run(p, actions).todos
    ensures Run(p, actions).storage.Missing? ==> Run(p, actions).todos == []
  {
  }

  /** A session from an empty store: add "A", add "B", complete A, delete B */
  lemma Scenario()
    ensures
      var p0 := Open(Missing);
      var p1 := AddTodo(p0, "A", "1");
      var p2 := AddTodo(p1, "B", "2");
      var p3 := ToggleComplete(p2, "1");
      var p4 := DeleteTodo(p3, "2");
      && p2.todos == [Todo("2", "B", false), Todo("1", "A", false)]
      && p3.todos == [Todo("2", "B", false), Todo("1", "A", true)]
      && p4.todos == [Todo("1", "A", true)]
      && p4.view == p4.todos
      && p4.storage == Saved(p4.todos)
  {
    var a, b := Todo("1", "A", false), Todo("2", "B", false);
    var p0 := Open(Missing);
    assert p0 == PageState([], Missing, []);
    TrimFixesTrimmed("A");
    TrimFixesTrimmed("B");
    assert !AllWhitespace("A") && !AllWhitespace("B") by {
      assert !IsWhitespace("A"[0]) && !IsWhitespace("B"[0]);
    }
    var p1 := AddTodo(p0, "A", "1");
    assert p1 == PageState([a], Saved([a]), [a]);
    var p2 := AddTodo(p1, "B", "2");
    assert p2 == PageState([b, a], Saved([b, a]), [b, a]);
    assert FindIndex(p2.todos, "1") == 1;
    assert HasId(p2.view, "1") by { assert p2.view[1].id == "1"; }
    var a' := a.(completed := true);
    var p3 := ToggleComplete(p2, "1");
    assert p3.todos == [b, a'];
    assert p3.view == p3.todos;
    assert HasId(p3.view, "2") by { assert p3.view[0].id == "2"; }
    var p4 := DeleteTodo(p3, "2");
    assert p4.todos == [a'] by {
      DeleteDistinct(p3.todos, "2", 0);
      assert p3.todos[1..] == [a'];
    }
  }

  /** Why adds need fresh ids: `Date.now()` is wall-clock time, so when the
      system clock is set back an add can reuse an id already in the list
      (even one stored before a reload). Deleting that id then filters both
      records out of the list but removes only the first item from the page */
  lemma SharedIdDesyncs()
    ensures
      var p := Run(Open(Missing), [AddAction("A", "1"), AddAction("B", "1"), DeleteAction("1")]);
      && p.todos == []
      && p.view == [Todo("1", "A", false)]
  {
    var a, b := Todo("1", "A", false), Todo("1", "B", false);
    var p0 := Open(Missing);
    assert p0 == PageState([], Missing, []);
    TrimFixesTrimmed("A");
    TrimFixesTrimmed("B");
    assert !AllWhitespace("A") && !AllWhitespace("B") by {
      assert !IsWhitespace("A"[0]) && !IsWhitespace("B"[0]);
    }
    var p1 := Step(p0, AddAction("A", "1"));
    assert p1 == PageState([a], Saved([a]), [a]);
    var p2 := Step(p1, AddAction("B", "1"));
    assert p2 == PageState([b, a], Saved([b, a]), [b, a]);
    assert HasId(p2.view, "1") by { assert p2.view[0].id == "1"; }
    var p3 := Step(p2, DeleteAction("1"));
    assert p3.todos == [] by {
      assert forall t :: t in p3.todos ==> t.id != "1";
    }
    assert p3.view == [a] by {
      assert IsFirstIndex(p2.view, "1", 0);
      assert p2.view[1..] == [a];
    }
    var acts := [AddAction("A", "1"), AddAction("B", "1"), DeleteAction("1")];
    assert Run(p0, acts) == Run(p1, acts[1..]);
    assert Run(p1, acts[1..]) == Run(p2, acts[2..]);
    assert Run(p2, acts[2..]) == Run(p3, []);
  }
}
