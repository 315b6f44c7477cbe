# To-do list page: task list, snapshot and view

This project models the browser to-do list in `script.js`. The page keeps an
in-memory list of task records `{id, text, completed}`, newest first. Three
event handlers change it:

- `addTodo` trims the typed text and rejects blank input. Otherwise it
  `unshift`s a new record that is not completed.
- `toggleComplete` finds the first record with the id and flips its flag.
- `deleteTodo` filters out every record with the id.

After each change, `saveTodos` writes the whole list to local storage under
the key `todos`. The rendered `<ul>` is built by `prepend`-ing one item per
record. On page load, the stored list is read back and rendered in reverse.

The Dafny modules follow that structure:

- `Text` (`text.dfy`): JavaScript whitespace and `String.prototype.trim`,
  proved against a reference definition of trimming.
- `TodoList` (`todo_list.dfy`): the record, the list invariant (distinct ids,
  non-blank trimmed texts), and `findIndex`, toggle, filter-delete and add.
- `View` (`view.dfy`): the rendered items top to bottom, `prepend`, the
  reversed render at load time, and the per-item class toggle and removal.
- `Page` (`page.dfy`): list, storage and view together. It has the three
  handlers, page load, a consistency invariant `Synced`, and runs of user
  actions.

Points of the code the model makes explicit:

- Reading storage: script.js:8 falls back to `[]` only when the key is
  missing (`JSON.parse(null)` is `null`) or holds a falsy value (see Left
  out), and `JSON.parse` throws on
  malformed data. Storage is modelled as either missing or holding a saved
  list.
- Reload order: the reversed render at script.js:157 is needed.
  `View.LoadView` shows that the page then equals the list, newest first, and
  `View.RenderInOrderReverses` shows that without it the list would appear
  upside down.
- Toggle and delete act on the data only when an item with that `data-id` is
  on the page (script.js:97-98, 130-131). The model keeps that check.
  `Page.Synced` says the view mirrors the list, and under it the check never
  blocks a present id.
- Delete removes every record with the id, not just one. It removes exactly
  one record when only one record has the id (`TodoList.DeleteOnly`).
  Distinct ids guarantee that (`TodoList.DeleteDistinct`).
- The toggle handler returns nothing. The new flag reaches the page only
  through the item's `completed` class (script.js:108).

Ids come from `Date.now()`, which is wall-clock time. When the system clock is
set back, a new id can repeat one already in the list, including ids stored
before a reload. The model therefore takes the id as a parameter and requires it to be
fresh wherever consistency is claimed. `Page.SharedIdDesyncs` shows the
failure without freshness: the list loses both records while the page keeps
one item. Storage stays equal to the list on every run, colliding ids
included (`Page.RunKeepsSaved`).

## Model

| member | source | states |
|---|---|---|
| Text.Trim | script.js:68 | the result is empty exactly when the input is all JavaScript whitespace; otherwise it neither starts nor ends with whitespace and is the slice left after cutting whitespace from both ends |
| Text.TrimmedFromUnique | script.js:68 | the reference definition of a trim determines one string, so `Trim` is the only function meeting it |
| Text.TrimmedFromEmpty | script.js:68-69 | any trim of a string is empty exactly when the string is blank: the `text === ''` test rejects precisely whitespace-only input |
| Text.TrimIdempotent | script.js:68 | trimming stored (already trimmed) text again changes nothing |
| Text.TrimFixesTrimmed | script.js:68 | a non-empty string with no whitespace at either end is its own trim |
| TodoList.FindIndex | script.js:95-96 | returns -1 exactly when no record has the id, else the first index whose record has it |
| TodoList.Toggle | script.js:94-102 | same length, ids and texts; only the first record with the id has its flag flipped; no change for an unknown id; keeps the list well formed |
| TodoList.ToggleTwice | script.js:102 | toggling the same id twice gives back the original list |
| TodoList.Delete | script.js:138 | the result holds exactly the records of the list without the id; no change for an unknown id; strictly shorter when the id is present |
| TodoList.DeleteKeepsDistinct | script.js:138 | deleting keeps ids pairwise distinct |
| TodoList.DeleteAppend | script.js:138 | delete distributes over concatenation, so surviving records keep their relative order |
| TodoList.DeleteOnly | script.js:138 | when exactly one record has the id, whatever the other ids, deleting it cuts out just that record, keeps the rest in order, and shortens the list by one |
| TodoList.DeleteDistinct | script.js:138 | with distinct ids, deleting the id at index i yields the list with just that record cut out, one shorter |
| TodoList.DeleteTwice | script.js:134-140 | a second delete of the same id, as from a duplicate listener, changes nothing |
| TodoList.NewTodo | script.js:67-80 | blank input is rejected; otherwise the record carries the given id, is not completed, and holds the trim of the input, which is valid text |
| TodoList.Add | script.js:67-82 | blank input leaves the list unchanged; otherwise the list grows by one, the head is the new record and the tail is the old list; a fresh id keeps the list well formed |
| View.Prepend | script.js:46 | the new item is on top and the old view is unchanged below it |
| View.RenderEach | script.js:46 | prepending items one after another stacks them in reverse above the existing view, which stays unchanged below |
| View.Reverse | script.js:157 | the copy holds the same records in reverse index order |
| View.LoadView | script.js:155-158 | rendering the reversed list by prepending yields a view equal to the list, newest first |
| View.RenderInOrderReverses | script.js:155-158 | rendering the list without reversing it would show it reversed |
| View.MarkCompleted | script.js:97-108 | only the first item with the `data-id` gets its `completed` class set to the flag; nothing changes if no item has it |
| View.RemoveItem | script.js:130-136 | only the first item with the `data-id` is removed, the rest keep their order; nothing changes if no item has it |
| Page.Restore | script.js:8 | nothing saved reads back as the empty list; a saved list reads back unchanged |
| Page.Open | script.js:7-8 | after load the view equals the list read back from storage (empty when nothing was saved) and storage is untouched |
| Page.AddTodo | script.js:67-87 | blank input changes nothing; otherwise list is the added list, storage holds it, and the new item is on top of the old view; with a fresh id a consistent page stays consistent |
| Page.ToggleComplete | script.js:94-122 | no change unless the id is both in the list and on the page; then list is the toggled list, storage holds it, and the first item with the id gets its `completed` class set to the record's new flag; a consistent page stays consistent |
| Page.DeleteTodo | script.js:129-142 | no change unless an item with the id is on the page; then list is the filtered list, storage holds it, and the first item with the id is removed from the page; a consistent page stays consistent and a present id shortens the list by one |
| Page.OpenSynced | script.js:155-161 | a page opened on a well formed stored list (or none) is consistent |
| Page.ReloadRestores | script.js:13-15 | reloading a consistent page reconstructs the same list, order, storage and view |
| Page.OpenTwice | script.js:8 | loading twice without a change in between gives the same page |
| Page.Step | script.js:53-61 | each handler leaves storage equal to the list when it was before, and keeps a consistent page consistent when an added id is fresh |
| Page.Run | script.js:144-150 | handling actions one after the other, whatever their ids, keeps storage equal to the list whenever it started so; an empty run changes nothing |
| Page.RunKeepsSaved | script.js:13-15 | after any run of actions, whatever the ids, a reload reads back exactly the list the run left |
| Page.RunKeepsSynced | script.js:144-150 | every run of adds, toggles and deletes with fresh ids keeps the page consistent, and reloading afterwards restores it exactly |
| Page.Scenario | script.js:67-142 | starting empty, adding A then B gives [B, A]; completing A flips only A; deleting B leaves [A] completed, mirrored and saved |
| Page.SharedIdDesyncs | script.js:77 | two adds with the same id followed by a delete empty the list but leave one item on the page |

## Left out

- DOM construction: `innerHTML`, ARIA attributes, CSS classes other than
  `completed`, and the animation classes and listeners (script.js:21-62,
  105-119, 132). A view item is modelled by the record it was rendered from.
- Markup in task text: the model assumes task text contains no HTML markup.
  `innerHTML` parses the text as HTML (script.js:32-33), so markup in it
  becomes real elements. Those elements can change which element
  script.js:54 and 59 attach the button listeners to, and which element
  `document.querySelector` returns at script.js:97 and 130. On such input
  the source does not keep the view in step with the list, so the
  `Synced` clauses of `Page.ToggleComplete` and `Page.DeleteTodo` hold only
  under this assumption.
- `alert`, `focus` and clearing the input (script.js:71-72, 85-86). These are
  UI side effects. The blank-input path is the no-change branch of
  `Page.AddTodo`.
- `localStorage` and JSON serialization (script.js:8, 14). Storage is an
  abstract value, either missing or holding the last saved list.
  Serialization is taken to round-trip `{id, text, completed}` records
  exactly. Corrupt stored data is not modelled, because there `JSON.parse`
  throws.
- Other tabs and windows: every tab of the origin shares the `todos` key,
  and another tab overwrites it on its own `saveTodos` (script.js:14). The
  model assumes no other tab or window writes the key between this page's
  saves and a reload. `Page.ReloadRestores` and `Page.RunKeepsSaved` hold
  only under this assumption.
- `Date.now()` (script.js:77) depends on the clock. The id is a parameter,
  with a freshness requirement where consistency is claimed.
- The deferral of delete until `animationend`, and event wiring
  (script.js:134-140, 145-150). Delete is an immediate data operation, and
  each click or Enter key is one `Page.Action`.
- CSS selector escaping in `querySelector` with the id (script.js:97, 130).
  Ids are compared as plain strings.
- `saveTodos` failing (script.js:14): `localStorage.setItem` can throw, for
  example a QuotaExceededError or SecurityError, after the list has already
  changed. In `addTodo` that skips `renderTodo` (script.js:83-84), and in
  `toggleComplete` it skips the class toggle (script.js:103, 108). The model
  assumes every write succeeds.
- Stored JSON that is not a list of records: a falsy value such as `0` or
  `""` falls back to `[]` through `||` (script.js:8). A non-array object, a
  number or `true` throws at script.js:157. A non-empty string is spread
  into its characters there, which render as items with id and text
  "undefined", and the next add, toggle or delete throws, because a string
  has no `unshift`, `findIndex` or `filter` (script.js:82, 95, 138).
  `Storage` only holds a missing key or a saved list of records.
- The initial contents of `<ul id="todo-list">`: `Page.Open` renders into an
  empty view. This assumes the page markup leaves the list empty before
  `loadTodos` runs. The markup is not part of this model.
