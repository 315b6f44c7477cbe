/** The in-memory task list and the three operations that change it:
    add (trim, validate, unshift), toggle (findIndex, flip) and delete
    (filter by id). The list is newest-first. */
module TodoList {
  import opened Text

  /** One task record: `{id, text, completed}` */
  datatype Todo = Todo(id: string, text: string, completed: bool)

  /** Some record of `l` carries `id` */
  predicate HasId(l: seq<Todo>, id: string) {
    exists i :: 0 <= i < |l| && l[i].id == id
  }

  /** No two records of `l` share an id */
  predicate DistinctIds(l: seq<Todo>) {
    forall i, j :: 0 <= i < j < |l| ==> l[i].id != l[j].id
  }

  /** Stored task text: not empty, no whitespace at either end */
  predicate ValidText(s: string) {
    s != [] && !IsWhitespace(s[0]) && !IsWhitespace(s[|s| - 1])
  }

  /** The invariant of the list: ids pairwise distinct, every text valid */
  predicate WellFormed(l: seq<Todo>) {
    && DistinctIds(l)
    && forall i :: 0 <= i < |l| ==> ValidText(l[i].text)
  }

  /** `i` is the first index of `l` whose record carries `id` */
  predicate IsFirstIndex(l: seq<Todo>, id: string, i: int) {
    && 0 <= i < |l|
    && l[i].id == id
    && forall k :: 0 <= k < i ==> l[k].id != id
  }

  /** Array.prototype.findIndex with the predicate `todo.id === id`:
      the first matching index, or -1 when there is none */
  function FindIndex(l: seq<Todo>, id: string): (r: int)
    ensures -1 <= r < |l|
    ensures r == -1 <==> !HasId(l, id)
    ensures r != -1 ==> IsFirstIndex(l, id, r)
  {
    if |l| == 0 then -1
    else if l[0].id == id then 0
    else
      var k := FindIndex(l[1..], id);
      if k == -1 then
        assert forall i :: 1 <= i < |l| ==> l[i].id == l[1..][i - 1].id;
        -1
      else k + 1
  }

  /** toggleComplete on the data: flip `completed` of the first record
      carrying `id`; no change when no record carries it */
  function Toggle(l: seq<Todo>, id: string): (r: seq<Todo>)
    ensures |r| == |l|
    ensures forall k :: 0 <= k < |l| ==> r[k].id == l[k].id && r[k].text == l[k].text
    ensures forall i :: IsFirstIndex(l, id, i) ==>
      && r[i].completed == !l[i].completed
      && forall k :: 0 <= k < |l| && k != i ==> r[k] == l[k]
    ensures !HasId(l, id) ==> r == l
    ensures WellFormed(l) ==> WellFormed(r)
  {
    var i := FindIndex(l, id);
    if i > -1 then l[i := l[i].(completed := !l[i].completed)] else l
  }

  /** Toggling the same id twice restores the list */
  lemma ToggleTwice(l: seq<Todo>, id: string)
    ensures Toggle(Toggle(l, id), id) == l
  {
    var t := Toggle(l, id);
    if HasId(l, id) {
      var i := FindIndex(l, id);
      assert IsFirstIndex(t, id, i);
      var u := Toggle(t, id);
      assert forall k :: 0 <= k < |l| ==> u[k] == l[k];
    }
  }

  /** A non-empty list carries `id` at its head or in its tail */
  lemma HasIdCons(l: seq<Todo>, id: string)
    requires |l| > 0
    ensures HasId(l, id) <==> l[0].id == id || HasId(l[1..], id)
  {
    if HasId(l[1..], id) {
      var i :| 0 <= i < |l[1..]| && l[1..][i].id == id;
      assert l[i + 1].id == id;
    }
    if HasId(l, id) && l[0].id != id {
      var i :| 0 <= i < |l| && l[i].id == id;
      assert l[1..][i - 1].id == id;
    }
  }

  /** deleteTodo on the data: `filter(todo => todo.id !== id)` */
  function Delete(l: seq<Todo>, id: string): (r: seq<Todo>)
    ensures |r| <= |l|
    ensures forall t :: t in r <==> t in l && t.id != id
    ensures !HasId(l, id) ==> r == l
    ensures HasId(l, id) ==> |r| < |l|
  {
    if |l| == 0 then []
    else
      HasIdCons(l, id);
      var rest := Delete(l[1..], id);
      if l[0].id == id then rest else [l[0]] + rest
  }

  /** Filtering keeps ids pairwise distinct */
  lemma {:induction false} DeleteKeepsDistinct(l: seq<Todo>, id: string)
    requires DistinctIds(l)
    ensures DistinctIds(Delete(l, id))
  {
    if |l| > 0 {
      DeleteKeepsDistinct(l[1..], id);
      var rest := Delete(l[1..], id);
      assert forall t :: t in rest ==> t.id != l[0].id;
    }
  }

  /** Delete works record by record: it distributes over concatenation, so
      the surviving records keep their relative order */
  lemma {:induction false} DeleteAppend(a: seq<Todo>, b: seq<Todo>, id: string)
    ensures Delete(a + b, id) == Delete(a, id) + Delete(b, id)
  {
    if |a| == 0 {
      assert a + b == b;
    } else {
      assert (a + b)[1..] == a[1..] + b;
      DeleteAppend(a[1..], b, id);
    }
  }

  /** When the record at index `i` is the only one carrying `id`, deleting
      `id` removes exactly that record and keeps the others in order,
      whatever the other records' ids are */
  lemma DeleteOnly(l: seq<Todo>, id: string, i: int)
    requires 0 <= i < |l| && l[i].id == id
    requires forall k :: 0 <= k < |l| && k != i ==> l[k].id != id
    ensures Delete(l, id) == l[..i] + l[i + 1..]
    ensures |Delete(l, id)| == |l| - 1
  {
    var pre, post := l[..i], l[i + 1..];
    assert !HasId(pre, id) by {
      forall k | 0 <= k < |pre|
        ensures pre[k].id != id
      {
        assert pre[k] == l[k];
      }
    }
    assert !HasId(post, id) by {
      forall k | 0 <= k < |post|
        ensures post[k].id != id
      {
        assert post[k] == l[i + 1 + k];
      }
    }
    assert Delete([l[i]], id) == [] by {
      assert [l[i]][1..] == [];
    }
    calc {
      Delete(l, id);
    == { assert l == pre + ([l[i]] + post); }
      Delete(pre + ([l[i]] + post), id);
    == { DeleteAppend(pre, [l[i]] + post, id); }
      Delete(pre, id) + Delete([l[i]] + post, id);
    == { DeleteAppend([l[i]], post, id); }
      pre + post;
    }
  }

  /** With distinct ids, deleting the id found at index `i` removes exactly
      that record and keeps the others in order */
  lemma DeleteDistinct(l: seq<Todo>, id: string, i: int)
    requires DistinctIds(l)
    requires 0 <= i < |l| && l[i].id == id
    ensures Delete(l, id) == l[..i] + l[i + 1..]
    ensures |Delete(l, id)| == |l| - 1
  {
    DeleteOnly(l, id, i);
  }

  /** What pressing "add" makes of the typed text */
  datatype AddOutcome =
    | EmptyInput          // the text is blank: the user is alerted, nothing is stored
    | Created(todo: Todo) // the record to put at the head of the list

  /** addTodo's validation and record construction; `freshId` stands for
      `Date.now().toString()` */
  function NewTodo(input: string, freshId: string): (r: AddOutcome)
    ensures r.EmptyInput? <==> AllWhitespace(input)
    ensures r.Created? ==>
      && r.todo.id == freshId
      && !r.todo.completed
      && ValidText(r.todo.text)
      && TrimmedFrom(r.todo.text, input)
  {
    var text := Trim(input);
    if text == [] then EmptyInput else Created(Todo(freshId, text, false))
  }

  /** addTodo on the data: `unshift` the new record, or leave the list alone
      when the text is blank */
  function Add(l: seq<Todo>, input: string, freshId: string): (r: seq<Todo>)
    ensures AllWhitespace(input) ==> r == l
    ensures !AllWhitespace(input) ==>
      && |r| == |l| + 1
      && r[0] == Todo(freshId, Trim(input), false)
      && r[1..] == l
    ensures WellFormed(l) && !HasId(l, freshId) ==> WellFormed(r)
  {
    match NewTodo(input, freshId)
    case EmptyInput => l
    case Created(t) =>
      var r := [t] + l;
      assert forall k :: 1 <= k < |r| ==> r[k] == l[k - 1];
      r
  }

  /** A second delete of the same id (a duplicate handler) changes nothing */
  lemma DeleteTwice(l: seq<Todo>, id: string)
    ensures Delete(Delete(l, id), id) == Delete(l, id)
  {
  }
}
