/** The rendered `<ul>`: its list items from top to bottom. Each item shows
    one record (its `data-id`, its text, and the `completed` class), so an
    item is modelled by the record it was rendered from. */
module View {
  import opened TodoList

  /** renderTodo's `todoList.prepend(listItem)`: the new item goes on top */
  function Prepend(view: seq<Todo>, t: Todo): (r: seq<Todo>)
    ensures |r| == |view| + 1
    ensures r[0] == t
    ensures r[1..] == view
  {
    [t] + view
  }

  /** `items.forEach(todo => renderTodo(todo))`: each item in turn is put on
      top, so the last one rendered ends up first and `view` ends up below */
  function RenderEach(view: seq<Todo>, items: seq<Todo>): (r: seq<Todo>)
    ensures |r| == |items| + |view|
    ensures r[|items|..] == view
    ensures forall i :: 0 <= i < |items| ==> r[i] == items[|items| - 1 - i]
    decreases |items|
  {
    if |items| == 0 then view
    else
      var r := RenderEach(Prepend(view, items[0]), items[1..]);
      assert r[|items| - 1] == items[0];
      r
  }

  /** `[...todos].reverse()` */
  function Reverse(l: seq<Todo>): (r: seq<Todo>)
    ensures |r| == |l|
    ensures forall i :: 0 <= i < |l| ==> r[i] == l[|l| - 1 - i]
  {
    if |l| == 0 then [] else Reverse(l[1..]) + [l[0]]
  }

  /** loadTodos: render a copy of the list in reverse, each item prepended.
      The two reversals cancel, so the page shows the list in its own
      newest-first order. */
  function LoadView(l: seq<Todo>): (r: seq<Todo>)
    ensures r == l
  {
    var r := RenderEach([], Reverse(l));
    assert forall i :: 0 <= i < |l| ==> r[i] == l[i];
    r
  }

  /** Without the reversal the page would show the list upside down, oldest
      first: the reversal at load time is needed */
  lemma RenderInOrderReverses(l: seq<Todo>)
    ensures RenderEach([], l) == Reverse(l)
  {
  }

  /** `classList.toggle('completed', flag)` on the first item whose
      `data-id` is `id` (what `document.querySelector` returns) */
  function MarkCompleted(view: seq<Todo>, id: string, flag: bool): (r: seq<Todo>)
    ensures |r| == |view|
    ensures forall k :: 0 <= k < |view| ==> r[k].id == view[k].id && r[k].text == view[k].text
    ensures forall i :: IsFirstIndex(view, id, i) ==>
      && r[i].completed == flag
      && forall k :: 0 <= k < |view| && k != i ==> r[k] == view[k]
    ensures !HasId(view, id) ==> r == view
  {
    var i := FindIndex(view, id);
    if i > -1 then view[i := view[i].(completed := flag)] else view
  }

  /** `todoItem.remove()` on the first item whose `data-id` is `id` */
  function RemoveItem(view: seq<Todo>, id: string): (r: seq<Todo>)
    ensures forall i :: IsFirstIndex(view, id, i) ==> r == view[..i] + view[i + 1..]
    ensures !HasId(view, id) ==> r == view
  {
    var i := FindIndex(view, id);
    if i > -1 then view[..i] + view[i + 1..] else view
  }
}
