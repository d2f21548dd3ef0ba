# Todo lists: display order and collection rules

A model of the core of a session-scoped todo-list web application. The
server keeps, per browser session, an ordered collection of todo lists. Each
list has an id, a title and an ordered sequence of todos (id, title, done
flag). The model covers two parts of the source:

- `lib/sort.js`, the display order. `compareByTitle` compares lower-cased
  titles three ways. `sortTodoLists` and `sortTodos` keep the items that are
  not done, then the done ones, and sort each part by that comparator with
  the engine's stable `Array.prototype.sort`.
- The collection rules inside the request handlers of `todos.js`:
  - `loadTodoList` and `loadTodo`, which look things up by id;
  - the title checks of the create-list, add-todo and rename-list forms
    (trim, a length of 1 to 100, and for list titles an exact-match
    uniqueness check);
  - the changes the create-list, toggle-todo and delete-list handlers make
    to the session's lists.

Modules, one per file:

- `Text` (`text.dfy`): lower-casing, JavaScript's `<` on strings, and the
  validator's `trim`.
- `Seqs` (`seqs.dfy`): the JavaScript array operations the code uses
  (`find`/`findIndex`, `filter`, `splice(start, 1)`), on values.
- `Records` (`records.dfy`): the plain record shapes and the two `isDone`
  tests.
- `Sort` (`sort.dfy`): `lib/sort.js`. It is written once, generic in the
  item type, and given the item's title and `isDone` test. `SortTodoLists`
  and `SortTodos` instantiate it.
- `Todos` (`todos.dfy`): `todos.js`. Pure functions give each handler's
  effect on the lists. The class `Session` holds the lists as a field that
  its methods update in place, each proved against those functions.

The sort is proved at two levels:

- An in-place insertion sort over a fresh array (`SortInPlace`) is proved
  equal to a specification function (`SortByTitle`).
- `SortByTitle` is proved to be a permutation, sorted and stable. It is
  also unique: any sorted rearrangement that keeps equal titles in their
  order is `SortByTitle`'s output. So the model does not depend on which
  stable algorithm the JavaScript engine uses.
- The same holds one level up. `DisplayOrderUnique` shows that done-last,
  blocks sorted and blocks stable fix the result. Idempotence follows from
  that.

Two behaviours of the title checks are worth knowing:

- The rename check compares the new title against every list, including the
  one being renamed. So renaming a list to its own title is rejected with
  "must be unique" (`RenameToOwnTitleRejected`).
- List-title uniqueness is exact, case-sensitive equality, while the display
  order compares lower-cased titles. "Work" and "work" are different titles
  but sort as equal (`CaseVariantsTie`).

## Model

| member | source | states |
|---|---|---|
| `Text.LowerChar` | lib/sort.js:3-4 | `toLowerCase` on one character, ASCII only: a capital becomes its own small letter (code plus 32), no capital is left, a character is a letter afterwards exactly when it was one before, and every other character is unchanged |
| `Text.Lower` | lib/sort.js:3-4 | the lower-cased title has the same length, each character lowered, and no capital letter |
| `Text.LowerIgnoresCase` | lib/sort.js:3-4 | two strings lower-case to the same string exactly when they differ at most in the case of ASCII letters |
| `Text.LowerIdempotent` | lib/sort.js:3-4 | lower-casing twice is lower-casing once |
| `Text.Less` | lib/sort.js:6-8 | definition: JavaScript's `<`/`>` on strings, character by character, a proper prefix first; `LessLexicographic` ties it to the direct definition |
| `Text.LessLexicographic` | lib/sort.js:6-8 | `Less(a, b)` holds exactly when the strings first differ at a position where `a` has the smaller character, or `a` is a proper prefix of `b` |
| `Text.LessIrreflexive` | lib/sort.js:6-12 | no title is below itself, so equal keys compare as 0 |
| `Sort.CompareByTitle` | lib/sort.js:2-13 | returns only -1, 0 or 1. It returns 0 exactly when the lower-cased titles are equal, -1 exactly when a's lower-cased title is below b's, and 1 exactly when it is above |
| `Sort.CompareIgnoresCase` | lib/sort.js:2-13 | the comparison gives 0 exactly when the two titles differ at most in the case of ASCII letters |
| `Sort.CaseVariantsTie` | lib/sort.js:2-13 | "Work" and "work" are different titles, and they compare as 0 |
| `Sort.CompareAntisymmetric` | lib/sort.js:6-12 | swapping the arguments negates the result |
| `Sort.CompareTransitive` | lib/sort.js:6-12 | "at most" and "below" both carry from a to b to c, so the comparator is a total preorder |
| `Text.LessTrichotomous` | lib/sort.js:6-8 | for the string `<` the comparator uses, two titles are equal or one is below the other |
| `Text.LessTransitive` | lib/sort.js:6-8 | the string `<` is transitive |
| `Text.LessAsymmetric` | lib/sort.js:6-8 | the string `<` never holds in both directions |
| `Sort.SortByTitle` | lib/sort.js:21-22 | definition: the reference stable sort by `compareByTitle` (insertion from the back); its properties are the lemmas in the rows below |
| `Sort.SortInPlace` | lib/sort.js:21-22 | `a.sort(compareByTitle)` reorders the array in place into exactly `SortByTitle` of its old contents |
| `Sort.InsertInPlace` | lib/sort.js:21-22 | one insertion step on the array: the sorted prefix with the next item inserted after every item at most it; the rest is untouched |
| `Sort.SortByTitlePermutation` | lib/sort.js:21-22 | the sort's output holds the same items, each as often as the input |
| `Sort.SortByTitleSorted` | lib/sort.js:21-22 | the sort's output is in `compareByTitle` order |
| `Sort.SortByTitleStable` | lib/sort.js:21-22 | items with equal lower-cased titles keep their relative order, and their number |
| `Sort.SortedStableUnique` | lib/sort.js:21-22 | two sorted sequences that agree on the order of every group of equal titles are equal |
| `Sort.SortByTitleUnique` | lib/sort.js:21-22 | any sorted, stable rearrangement of the input is the sort's output, so every stable sort agrees |
| `Sort.DisplayOrder` | lib/sort.js:17-24 | definition: the not-done items sorted by title, then the done items sorted by title; its properties are the rows below |
| `Records.TodoIsDone` | lib/sort.js:29-30 | definition: `todo.isDone()` is the todo's done flag |
| `Records.ListIsDone` | lib/sort.js:18-19 | definition: `todoList.isDone()` holds when the list has todos and all of them are done |
| `Seqs.Filter` | lib/sort.js:18-19 | definition: `filter`, the elements that pass the test, in their order |
| `Seqs.FilterMembers` | lib/sort.js:18-19 | an element is kept exactly when it is in the input and passes the test |
| `Seqs.FilterSplit` | lib/sort.js:18-19 | filtering by a test and by its negation together keep every element exactly as often as the input has it |
| `Sort.SortByDoneThenTitle` | lib/sort.js:18-24 | filtering into two fresh arrays, sorting each in place and concatenating gives the display order. No object that existed before is changed |
| `Sort.DisplayOrderPermutation` | lib/sort.js:18-24 | the display order is a permutation of the input |
| `Sort.DisplayOrderSorted` | lib/sort.js:18-24 | every not-done item comes before every done item, and titles are in comparator order within each part |
| `Sort.DisplayOrderStable` | lib/sort.js:21-22 | within each part, items with equal lower-cased titles keep their original order |
| `Sort.DisplayOrderUnique` | lib/sort.js:18-24 | a sequence that puts done items last and keeps each part sorted and stable is the display order |
| `Sort.DisplayOrderIdempotent` | lib/sort.js:17-34 | sorting a display order again returns it unchanged |
| `Sort.SortTodoLists` | lib/sort.js:17-25 | the lists in display order: a permutation, done lists last, each part sorted by title and stable |
| `Sort.SortTodos` | lib/sort.js:28-34 | the same for a list's todos |
| `Text.Trim` | todos.js:92-93 | the submitted value with its leading and trailing JavaScript whitespace removed: a slice of it whose ends are not whitespace |
| `Text.TrimIdempotent` | todos.js:92-93 | trimming a trimmed title changes nothing |
| `Text.TrimTrimmed` | todos.js:92-93 | a value with no whitespace at either end is its own trim |
| `Seqs.FindIndex` | todos.js:301 | `findIndex`/`find`: -1 exactly when no element passes the test, otherwise the first position whose element passes |
| `Todos.ListIndex` | todos.js:301 | `findIndex` by id is -1 exactly when no list has the id, and otherwise the first position with it |
| `Todos.LoadTodoList` | todos.js:62-64 | the first list whose id matches, or nothing exactly when no list has that id |
| `Todos.LoadTodo` | todos.js:68-73 | nothing when the list is missing. Otherwise the first todo of that list with the id, or nothing exactly when none has it |
| `Todos.LengthErrors` | todos.js:94-97 | the two `isLength` checks on the trimmed title: none fails exactly when it has 1 to 100 characters, "required" exactly when it is empty, "too long" exactly when it has more than 100 |
| `Todos.TitleTaken` | todos.js:98-102 | the `custom` uniqueness check fails exactly when some list has exactly this title |
| `Todos.ListTitleErrors` | todos.js:92-103 | a list title is accepted exactly when its trim has 1 to 100 characters and no list has exactly that title. Each failing check, and only it, is reported |
| `Todos.TodoTitleErrors` | todos.js:203-208 | a todo title is accepted exactly when its trim has 1 to 100 characters. Uniqueness is never reported |
| `Todos.AddTodoOutcome` | todos.js:211-236 | a missing list is not found. Otherwise the title is accepted, trimmed, exactly when its length is valid; a rejection reports exactly the todo-title errors, never "must be unique" |
| `Todos.RenameOutcome` | todos.js:256-293 | a missing list is not found. Otherwise the title is accepted, trimmed, exactly when its length is valid and no list, the renamed one included, has that title; a rejection reports exactly the list-title errors |
| `Todos.TakenTitleErrors` | todos.js:92-103 | a valid title that some list already has fails the uniqueness check and no other |
| `Todos.RenameToOwnTitleRejected` | todos.js:262-266 | renaming a list to its current title is rejected with the uniqueness error alone |
| `Todos.AfterCreate` | todos.js:105-118 | the lists are unchanged unless the title passes every check. In that case a new empty list with the trimmed title is appended and every earlier list stays as it was |
| `Todos.CreatePreservesWellFormed` | todos.js:92-115 | creating keeps every title valid and list titles pairwise distinct |
| `Todos.AfterToggle` | todos.js:139-160 | the found todo's done flag is negated, as a new lookup shows. Ids, titles, lengths and every other todo stay as they were, and a missing list or todo changes nothing |
| `Todos.MarkDone` | todos.js:154 | `markDone()`: the todo is done afterwards, with its id and title kept |
| `Todos.MarkUndone` | todos.js:150 | `markUndone()`: the todo is not done afterwards, with its id and title kept |
| `Todos.ToggleAt` | todos.js:149-156 | definition: the found todo replaced by its `markUndone()` or `markDone()` version, depending on `isDone()` |
| `Todos.ToggleAtChanges` | todos.js:149-156 | at a found position the todo's flag is negated, and no other todo, id, title or length changes |
| `Todos.ToggleAtFound` | todos.js:141-156 | a new lookup with the same ids finds the same position in the changed lists |
| `Todos.ToggleAtTwice` | todos.js:149-156 | changing the same position twice restores the lists |
| `Todos.ToggleTwiceRestores` | todos.js:149-156 | toggling the same todo twice restores the lists |
| `Todos.TogglePreservesWellFormed` | todos.js:149-156 | toggling keeps every title valid and list titles distinct |
| `Todos.AfterDestroyAsWritten` | todos.js:298-311 | as written: when a list has the id, exactly the first such list is removed and the rest keep their order |
| `Todos.DestroyAbsentRemovesLast` | todos.js:301-307 | as written: with an id that no list has, the last list is removed from a non-empty collection, and an empty one stays empty |
| `Todos.AfterDestroy` | todos.js:301-307 | as intended: not found exactly when no list has the id. Otherwise the first list with it is removed and the others keep their order |
| `Todos.DestroyCascades` | todos.js:307 | with unique ids, after the delete neither the list nor any of its todos can be looked up, and exactly that list is gone |
| `Todos.DestroyPreservesWellFormed` | todos.js:307 | deleting keeps every title valid and list titles distinct |
| `Seqs.SpliceOne` | todos.js:307 | `splice(start, 1)`: a start inside the array removes that element; a negative start counts from the end; a start past the end removes nothing; a start before the beginning removes the first element |
| `Todos.Session.Rehydrate` | todos.js:41-51 | the rebuilt collection has the stored lists, the same number in the same order. A session without lists gets an empty collection |
| `Todos.Session.CreateList` | todos.js:90-120 | reports the title errors and pushes the new list when there are none, exactly as `AfterCreate` |
| `Todos.Session.ToggleTodo` | todos.js:139-160 | reports whether the todo was found and updates the lists exactly as `AfterToggle` |
| `Todos.Session.DestroyList` | todos.js:298-311 | with the guard as intended: reports whether the id was found and removes that list, or leaves the lists alone |

## Left out

- Express routing, `res.render` and the views, redirects, flash messages, `morgan` logging, static files, `app.listen` and the error handler (todos.js:1-38, 76-88, 313-322) are I/O and framework plumbing. The handlers' flash and render calls are not modelled; errors are kinds (`TitleError`), not message strings.
- The session store and `express-session` configuration are external state. The session is the `Session` object's `todoLists` field.
- `Number(req.params...)` parsing has floating-point and NaN behaviour. Ids are taken as integers.
- `toLowerCase` is modelled for ASCII letters only. JavaScript's `<` compares UTF-16 code units; the model compares Unicode scalar values. The two differ only between characters above U+FFFF and those from U+E000 to U+FFFF.
- The internals of `express-validator` are not modelled. Every validator of a chain runs (no `bail`). `trim` strips JavaScript's `\s` characters. The model assumes that `isLength` counts characters, with a surrogate pair as one character; library releases that also skip variation selectors (U+FE0E, U+FE0F) when counting are not modelled.
- `lib/todolist.js` and `lib/todo.js` are not part of this model. Only the attributes and the two `isDone` tests are used. A list counts as done when it has todos and all of them are done. The following are taken at their plain meaning: `new TodoList(title)` makes an empty list with a fresh id; `TodoList.makeTodoList` rebuilds the same record; `markDone`/`markUndone` set the flag.
- The id counter behind `new TodoList` keeps process-wide state. The new id is a parameter of `AfterCreate` and `Session.CreateList`.
- Todo-list `add`, `setTitle`, `markAllDone`, `findIndexOf` and `removeAt` belong to the classes that are not modelled. So the add-todo and rename handlers are modelled up to their decision (`AddTodoOutcome`, `RenameOutcome`), and not their change to the list.
- The delete-todo handler (todos.js:163-183) and the complete-all handler (todos.js:186-198) are left out, because their effect is `removeAt`/`markAllDone` alone.
- The handlers change JavaScript objects in place through references that `find` returns. The model replaces the record at its position in the sequence, which gives the same result because each list object appears once in the array. Aliasing of one object at two positions is not modelled.
- `Array.prototype.sort` is modelled by an insertion sort. `SortByTitleUnique` shows that every stable sort gives the same output.
- `Session.DestroyList` follows the corrected guard (see Findings). The behaviour as written is `AfterDestroyAsWritten`.

## Findings

| source | as written | input that shows it | evidently intended | confidence | as-written member | corrected member |
|---|---|---|---|---|---|---|
| todos.js:303 | `if (!index === -1)` compares the boolean `!index` with -1 and is never true, so `splice(index, 1)` always runs, also when `findIndex` returned -1 | lists with ids [1, 2] and a delete request for id 3: `splice(-1, 1)` removes list 2 | `if (index === -1)`: answer "not found" and leave the lists unchanged | high; not executed | `Todos.DestroyAbsentRemovesLast` | `Todos.AfterDestroy` |
