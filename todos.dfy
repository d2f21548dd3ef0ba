/** The collection rules behind the request handlers of todos.js: looking a
    list or a todo up by id, the title checks of the three forms, and what
    the create-list, toggle-todo and delete-list handlers do to the
    session's lists. */
module Todos {
  import opened Text
  import opened Seqs
  import opened Records

  /** The `isLength({ max: 100 })` bound on titles. */
  const MaxTitleLength := 100

  /** `todoLists.findIndex(todoList => todoList.id === todoListId)`. */
  function ListIndex(todoLists: seq<TodoList>, todoListId: int): (i: int)
    ensures -1 <= i < |todoLists|
    ensures i == -1 <==> forall l :: l in todoLists ==> l.id != todoListId
    ensures 0 <= i ==> todoLists[i].id == todoListId
    ensures 0 <= i ==> forall j :: 0 <= j < i ==> todoLists[j].id != todoListId
  {
    FindIndex(todoLists, (l: TodoList) => l.id == todoListId)
  }

  /** The position of the first todo of `todoList` with id `todoId`, or -1. */
  function TodoIndex(todoList: TodoList, todoId: int): (j: int)
    ensures -1 <= j < |todoList.todos|
    ensures j == -1 <==> forall t :: t in todoList.todos ==> t.id != todoId
    ensures 0 <= j ==> todoList.todos[j].id == todoId
    ensures 0 <= j ==> forall m :: 0 <= m < j ==> todoList.todos[m].id != todoId
  {
    FindIndex(todoList.todos, (t: Todo) => t.id == todoId)
  }

  /** `loadTodoList(todoListId, todoLists)`: the first list with that id, or
      nothing when no list has it. */
  function LoadTodoList(todoListId: int, todoLists: seq<TodoList>): (r: Option<TodoList>)
    ensures r.None? <==> forall l :: l in todoLists ==> l.id != todoListId
    ensures r.Some? ==> exists i :: 0 <= i < |todoLists| && todoLists[i] == r.value
                                    && r.value.id == todoListId
                                    && forall j :: 0 <= j < i ==> todoLists[j].id != todoListId
  {
    var i := ListIndex(todoLists, todoListId);
    if i == -1 then None else Some(todoLists[i])
  }

  /** `loadTodo(todoListId, todoId, todoLists)`: nothing when the list is
      missing, otherwise the first todo of that list with that id, or
      nothing. */
  function LoadTodo(todoListId: int, todoId: int, todoLists: seq<TodoList>): (r: Option<Todo>)
    ensures LoadTodoList(todoListId, todoLists).None? ==> r.None?
    ensures LoadTodoList(todoListId, todoLists).Some? ==>
              var todos := LoadTodoList(todoListId, todoLists).value.todos;
              && (r.None? <==> forall t :: t in todos ==> t.id != todoId)
              && (r.Some? ==> exists j :: 0 <= j < |todos| && todos[j] == r.value
                                          && r.value.id == todoId
                                          && forall m :: 0 <= m < j ==> todos[m].id != todoId)
  {
    match LoadTodoList(todoListId, todoLists)
    case None => None
    case Some(todoList) =>
      var j := TodoIndex(todoList, todoId);
      if j == -1 then None else Some(todoList.todos[j])
  }

  /** The failures a title check reports, one per failing validator. */
  datatype TitleError =
    | Required    // "The ... title is required."
    | TooLong     // "... title must be between 1 and 100 characters"
    | NotUnique   // "List title must be unique"

  /** The two `isLength` checks of a chain, applied to the trimmed title, in
      chain order. */
  function LengthErrors(title: string): (errs: seq<TitleError>)
    ensures errs == [] <==> 1 <= |title| <= MaxTitleLength
    ensures Required in errs <==> |title| == 0
    ensures TooLong in errs <==> |title| > MaxTitleLength
    ensures NotUnique !in errs
  {
    (if |title| < 1 then [Required] else []) + (if |title| > MaxTitleLength then [TooLong] else [])
  }

  /** The `custom` check of the list-title chains fails: some list already
      has exactly this title. */
  predicate TitleTaken(title: string, todoLists: seq<TodoList>)
    ensures TitleTaken(title, todoLists) <==> exists l :: l in todoLists && l.title == title
  {
    FindIndex(todoLists, (l: TodoList) => l.title == title) != -1
  }

  /** The errors the list-title chain reports for a submitted title: the
      value is trimmed, then its length and its uniqueness among all lists
      are checked; every validator runs, so several errors can be reported.
      The comparison is exact, so titles that differ only in case are
      different titles. */
  function ListTitleErrors(rawTitle: string, todoLists: seq<TodoList>): (errs: seq<TitleError>)
    ensures errs == [] <==> 1 <= |Trim(rawTitle)| <= MaxTitleLength
                            && forall l :: l in todoLists ==> l.title != Trim(rawTitle)
    ensures Required in errs <==> |Trim(rawTitle)| == 0
    ensures TooLong in errs <==> |Trim(rawTitle)| > MaxTitleLength
    ensures NotUnique in errs <==> exists l :: l in todoLists && l.title == Trim(rawTitle)
  {
    var title := Trim(rawTitle);
    LengthErrors(title) + (if TitleTaken(title, todoLists) then [NotUnique] else [])
  }

  /** The errors the todo-title chain reports: only the two length checks on
      the trimmed value; todo titles need not be unique. */
  function TodoTitleErrors(rawTitle: string): (errs: seq<TitleError>)
    ensures errs == [] <==> 1 <= |Trim(rawTitle)| <= MaxTitleLength
    ensures Required in errs <==> |Trim(rawTitle)| == 0
    ensures TooLong in errs <==> |Trim(rawTitle)| > MaxTitleLength
    ensures NotUnique !in errs
  {
    LengthErrors(Trim(rawTitle))
  }

  /** A title as the checks leave it: trimmed, 1 to 100 characters. */
  predicate ValidTitle(title: string)
  {
    IsTrimmed(title) && 1 <= |title| <= MaxTitleLength
  }

  /** What the checks keep true of the session's lists: every title valid,
      and no two lists with the same title. */
  predicate WellFormed(todoLists: seq<TodoList>)
  {
    && (forall l :: l in todoLists ==> ValidTitle(l.title))
    && (forall l, t :: l in todoLists && t in l.todos ==> ValidTitle(t.title))
    && (forall i, j :: 0 <= i < j < |todoLists| ==> todoLists[i].title != todoLists[j].title)
  }

  /** No two lists share an id (the id counter's promise, not checked here). */
  predicate UniqueIds(todoLists: seq<TodoList>)
  {
    forall i, j :: 0 <= i < j < |todoLists| ==> todoLists[i].id != todoLists[j].id
  }

  /** What a handler decides: the list is missing, the title is rejected
      with these errors, or the (trimmed) title is accepted. */
  datatype Outcome = NotFound | Rejected(errors: seq<TitleError>) | Accepted(title: string)

  /** The add-todo handler's decision: a missing list first, then the title
      checks; an accepted title is the one `new Todo(...)` receives. */
  function AddTodoOutcome(todoListId: int, rawTitle: string, todoLists: seq<TodoList>): (o: Outcome)
    ensures o.NotFound? <==> LoadTodoList(todoListId, todoLists).None?
    ensures o.Accepted? <==> LoadTodoList(todoListId, todoLists).Some?
                             && 1 <= |Trim(rawTitle)| <= MaxTitleLength
    ensures o.Accepted? ==> o.title == Trim(rawTitle) && ValidTitle(o.title)
    ensures o.Rejected? ==> o.errors == TodoTitleErrors(rawTitle)
    ensures o.Rejected? ==> o.errors != [] && NotUnique !in o.errors
  {
    if LoadTodoList(todoListId, todoLists).None? then NotFound
    else
      var errors := TodoTitleErrors(rawTitle);
      if errors != [] then Rejected(errors) else Accepted(Trim(rawTitle))
  }

  /** The rename handler's decision: a missing list first, then the
      list-title checks, which compare against every list, the renamed one
      included; an accepted title is the one `setTitle` receives. */
  function RenameOutcome(todoListId: int, rawTitle: string, todoLists: seq<TodoList>): (o: Outcome)
    ensures o.NotFound? <==> LoadTodoList(todoListId, todoLists).None?
    ensures o.Accepted? <==> && LoadTodoList(todoListId, todoLists).Some?
                             && 1 <= |Trim(rawTitle)| <= MaxTitleLength
                             && forall l :: l in todoLists ==> l.title != Trim(rawTitle)
    ensures o.Accepted? ==> o.title == Trim(rawTitle) && ValidTitle(o.title)
    ensures o.Rejected? ==> o.errors == ListTitleErrors(rawTitle, todoLists)
    ensures o.Rejected? ==> o.errors != []
  {
    if LoadTodoList(todoListId, todoLists).None? then NotFound
    else
      var errors := ListTitleErrors(rawTitle, todoLists);
      if errors != [] then Rejected(errors) else Accepted(Trim(rawTitle))
  }

  /** A valid title that a list already has fails the uniqueness check
      alone. */
  lemma TakenTitleErrors(title: string, todoLists: seq<TodoList>, i: int)
    requires 0 <= i < |todoLists| && todoLists[i].title == title
    requires ValidTitle(title)
    ensures ListTitleErrors(title, todoLists) == [NotUnique]
  {
    TrimTrimmed(title);
    assert LengthErrors(title) == [];
    var p := (x: TodoList) => x.title == title;
    assert p(todoLists[i]);
    assert TitleTaken(title, todoLists);
  }

  /** Submitting a list's own title to rename it is rejected as not unique,
      and for no other reason. */
  lemma RenameToOwnTitleRejected(todoListId: int, todoLists: seq<TodoList>)
    requires forall l :: l in todoLists ==> ValidTitle(l.title)
    requires LoadTodoList(todoListId, todoLists).Some?
    ensures RenameOutcome(todoListId, LoadTodoList(todoListId, todoLists).value.title, todoLists)
            == Rejected([NotUnique])
  {
    var i := ListIndex(todoLists, todoListId);
    var l := todoLists[i];
    assert LoadTodoList(todoListId, todoLists) == Some(l);
    assert l in todoLists;
    TakenTitleErrors(l.title, todoLists, i);
  }

  /** The lists after the create-list handler: a new empty list with the
      trimmed title and the given id appended when the title passes every
      check (`new TodoList(title)` draws the id from a counter not modelled
      here), otherwise unchanged. */
  function AfterCreate(todoLists: seq<TodoList>, rawTitle: string, newId: int): (r: seq<TodoList>)
    ensures |r| == |todoLists| || |r| == |todoLists| + 1
    ensures r[..|todoLists|] == todoLists
    ensures |r| == |todoLists| + 1 <==> && 1 <= |Trim(rawTitle)| <= MaxTitleLength
                                        && forall l :: l in todoLists ==> l.title != Trim(rawTitle)
    ensures |r| == |todoLists| + 1 ==> r[|todoLists|] == TodoList(newId, Trim(rawTitle), [])
  {
    if ListTitleErrors(rawTitle, todoLists) == [] then
      todoLists + [TodoList(newId, Trim(rawTitle), [])]
    else
      todoLists
  }

  /** Appending an empty list whose title is valid and new keeps the lists
      well formed. */
  lemma AppendPreservesWellFormed(todoLists: seq<TodoList>, created: TodoList)
    requires WellFormed(todoLists)
    requires ValidTitle(created.title) && created.todos == []
    requires forall l :: l in todoLists ==> l.title != created.title
    ensures WellFormed(todoLists + [created])
  {
    var r := todoLists + [created];
    var n := |todoLists|;
    forall l | l in r ensures ValidTitle(l.title) && forall t :: t in l.todos ==> ValidTitle(t.title) {
      if l != created {
        assert l in todoLists;
      }
    }
    forall i, j | 0 <= i < j < |r| ensures r[i].title != r[j].title {
      if j == n {
        assert r[i] in todoLists;
      } else {
        assert r[i] == todoLists[i] && r[j] == todoLists[j];
      }
    }
  }

  lemma CreatePreservesWellFormed(todoLists: seq<TodoList>, rawTitle: string, newId: int)
    requires WellFormed(todoLists)
    ensures WellFormed(AfterCreate(todoLists, rawTitle, newId))
  {
    var r := AfterCreate(todoLists, rawTitle, newId);
    if |r| > |todoLists| {
      var created := TodoList(newId, Trim(rawTitle), []);
      assert r == r[..|todoLists|] + [r[|todoLists|]];
      AppendPreservesWellFormed(todoLists, created);
    }
  }

  /** `markDone()` and `markUndone()`: the todo with its done flag set. */
  function MarkDone(todo: Todo): (r: Todo)
    ensures r.done && r.id == todo.id && r.title == todo.title
  {
    todo.(done := true)
  }

  function MarkUndone(todo: Todo): (r: Todo)
    ensures !r.done && r.id == todo.id && r.title == todo.title
  {
    todo.(done := false)
  }

  /** The lists after the toggle handler: the todo `loadTodo` finds has its
      done flag negated; a missing list or todo changes nothing. */
  function AfterToggle(todoLists: seq<TodoList>, todoListId: int, todoId: int): (r: seq<TodoList>)
    ensures LoadTodo(todoListId, todoId, todoLists).None? ==> r == todoLists
    ensures LoadTodo(todoListId, todoId, todoLists).Some? ==>
              var t := LoadTodo(todoListId, todoId, todoLists).value;
              LoadTodo(todoListId, todoId, r) == Some(t.(done := !t.done))
    ensures |r| == |todoLists|
    ensures forall i :: 0 <= i < |r| ==> && r[i].id == todoLists[i].id
                                         && r[i].title == todoLists[i].title
                                         && |r[i].todos| == |todoLists[i].todos|
    ensures forall i, j :: 0 <= i < |r| && 0 <= j < |r[i].todos| ==>
              && r[i].todos[j].id == todoLists[i].todos[j].id
              && r[i].todos[j].title == todoLists[i].todos[j].title
              && (r[i].todos[j] == todoLists[i].todos[j]
                  || (i == ListIndex(todoLists, todoListId) && j == TodoIndex(todoLists[i], todoId)))
  {
    var i := ListIndex(todoLists, todoListId);
    if i == -1 then todoLists
    else
      var j := TodoIndex(todoLists[i], todoId);
      if j == -1 then todoLists
      else
        ToggleAtChanges(todoLists, i, j);
        ToggleAtFound(todoLists, todoListId, todoId);
        ToggleAt(todoLists, i, j)
  }

  /** The handler's change at a found position: `todo.isDone()` picks
      `markUndone()` or `markDone()` for the `j`th todo of the `i`th list. */
  function ToggleAt(todoLists: seq<TodoList>, i: nat, j: nat): seq<TodoList>
    requires i < |todoLists| && j < |todoLists[i].todos|
  {
    var todoList := todoLists[i];
    var todo := todoList.todos[j];
    var toggled := if TodoIsDone(todo) then MarkUndone(todo) else MarkDone(todo);
    todoLists[i := todoList.(todos := todoList.todos[j := toggled])]
  }

  /** What the change at a found position leaves: the `j`th todo of the
      `i`th list has its flag negated and nothing else differs. */
  lemma ToggleAtChanges(todoLists: seq<TodoList>, i: nat, j: nat)
    requires i < |todoLists| && j < |todoLists[i].todos|
    ensures var r := ToggleAt(todoLists, i, j);
            && |r| == |todoLists|
            && r[i].todos[j] == todoLists[i].todos[j].(done := !todoLists[i].todos[j].done)
            && (forall k :: 0 <= k < |r| ==> && r[k].id == todoLists[k].id
                                             && r[k].title == todoLists[k].title
                                             && |r[k].todos| == |todoLists[k].todos|)
            && (forall k, m :: 0 <= k < |r| && 0 <= m < |r[k].todos| ==>
                  && r[k].todos[m].id == todoLists[k].todos[m].id
                  && r[k].todos[m].title == todoLists[k].todos[m].title
                  && (r[k].todos[m] == todoLists[k].todos[m] || (k == i && m == j)))
  {
  }

  /** At the position `loadTodo` finds, the change is seen by a new lookup:
      the same ids find the same todo in the changed lists, flag negated. */
  lemma ToggleAtFound(todoLists: seq<TodoList>, todoListId: int, todoId: int)
    requires ListIndex(todoLists, todoListId) != -1
    requires TodoIndex(todoLists[ListIndex(todoLists, todoListId)], todoId) != -1
    ensures var i := ListIndex(todoLists, todoListId);
            var j := TodoIndex(todoLists[i], todoId);
            var r := ToggleAt(todoLists, i, j);
            && ListIndex(r, todoListId) == i && TodoIndex(r[i], todoId) == j
            && LoadTodo(todoListId, todoId, todoLists) == Some(todoLists[i].todos[j])
            && LoadTodo(todoListId, todoId, r) == Some(r[i].todos[j])
  {
    var i := ListIndex(todoLists, todoListId);
    var j := TodoIndex(todoLists[i], todoId);
    var r := ToggleAt(todoLists, i, j);
    ToggleAtChanges(todoLists, i, j);
    FindIndexAgree(todoLists, (l: TodoList) => l.id == todoListId, r, (l: TodoList) => l.id == todoListId);
    FindIndexAgree(todoLists[i].todos, (t: Todo) => t.id == todoId, r[i].todos, (t: Todo) => t.id == todoId);
    assert LoadTodoList(todoListId, todoLists) == Some(todoLists[i]);
    assert LoadTodoList(todoListId, r) == Some(r[i]);
  }

  lemma ToggleAtTwice(todoLists: seq<TodoList>, i: nat, j: nat)
    requires i < |todoLists| && j < |todoLists[i].todos|
    ensures ToggleAt(ToggleAt(todoLists, i, j), i, j) == todoLists
  {
    var todoList := todoLists[i];
    var once := ToggleAt(todoLists, i, j);
    assert once[i].todos[j].done == !todoList.todos[j].done;
    assert once[i].todos[j := todoList.todos[j]] == todoList.todos;
    assert once[i := todoList] == todoLists;
  }

  /** Toggling the same todo twice restores the lists. */
  lemma ToggleTwiceRestores(todoLists: seq<TodoList>, todoListId: int, todoId: int)
    ensures AfterToggle(AfterToggle(todoLists, todoListId, todoId), todoListId, todoId) == todoLists
  {
    var i := ListIndex(todoLists, todoListId);
    if i != -1 {
      var j := TodoIndex(todoLists[i], todoId);
      if j != -1 {
        var once := ToggleAt(todoLists, i, j);
        assert AfterToggle(todoLists, todoListId, todoId) == once;
        ToggleAtFound(todoLists, todoListId, todoId);
        assert AfterToggle(once, todoListId, todoId) == ToggleAt(once, i, j);
        ToggleAtTwice(todoLists, i, j);
      }
    }
  }

  lemma TogglePreservesWellFormed(todoLists: seq<TodoList>, todoListId: int, todoId: int)
    requires WellFormed(todoLists)
    ensures WellFormed(AfterToggle(todoLists, todoListId, todoId))
  {
    var r := AfterToggle(todoLists, todoListId, todoId);
    forall l, t | l in r && t in l.todos ensures ValidTitle(t.title) {
      var i :| 0 <= i < |r| && r[i] == l;
      var j :| 0 <= j < |l.todos| && l.todos[j] == t;
      assert todoLists[i].todos[j] in todoLists[i].todos;
    }
    forall l | l in r ensures ValidTitle(l.title) {
      var i :| 0 <= i < |r| && r[i] == l;
      assert todoLists[i] in todoLists;
    }
  }

  /** The delete-list handler as written: its guard `!index === -1` compares
      a boolean with -1 and never holds, so `splice(index, 1)` runs whether
      or not a list has the id. */
  function AfterDestroyAsWritten(todoLists: seq<TodoList>, todoListId: int): (r: seq<TodoList>)
    ensures ListIndex(todoLists, todoListId) != -1 ==>
              var i := ListIndex(todoLists, todoListId);
              r == todoLists[..i] + todoLists[i + 1..]
  {
    SpliceOne(todoLists, ListIndex(todoLists, todoListId))
  }

  /** As written, deleting an id no list has removes the last list (the
      index is -1, and `splice(-1, 1)` removes the last element); an empty
      collection stays empty. */
  lemma DestroyAbsentRemovesLast(todoLists: seq<TodoList>, todoListId: int)
    requires forall l :: l in todoLists ==> l.id != todoListId
    ensures |todoLists| > 0 ==> AfterDestroyAsWritten(todoLists, todoListId) == todoLists[..|todoLists| - 1]
    ensures |todoLists| > 0 ==> AfterDestroyAsWritten(todoLists, todoListId) != todoLists
    ensures |todoLists| == 0 ==> AfterDestroyAsWritten(todoLists, todoListId) == []
  {
    var n := |todoLists|;
    if n > 0 {
      assert todoLists[n - 1 + 1..] == [];
      assert |todoLists[..n - 1]| != n;
    }
  }

  /** The delete-list handler as intended: nothing when no list has the id
      (the handler answers "not found"), otherwise the lists without the
      first list with that id, the rest in their order. */
  function AfterDestroy(todoLists: seq<TodoList>, todoListId: int): (r: Option<seq<TodoList>>)
    ensures r.None? <==> forall l :: l in todoLists ==> l.id != todoListId
    ensures r.Some? ==> exists i :: && 0 <= i < |todoLists| && todoLists[i].id == todoListId
                                    && (forall j :: 0 <= j < i ==> todoLists[j].id != todoListId)
                                    && r.value == todoLists[..i] + todoLists[i + 1..]
  {
    var i := ListIndex(todoLists, todoListId);
    if i == -1 then None else Some(SpliceOne(todoLists, i))
  }

  /** Deleting a list takes its todos with it: when ids are unique, neither
      the list nor any of its todos can be looked up afterwards, and every
      other list is still there. */
  lemma DestroyCascades(todoLists: seq<TodoList>, todoListId: int, todoId: int)
    requires UniqueIds(todoLists)
    requires AfterDestroy(todoLists, todoListId).Some?
    ensures var rest := AfterDestroy(todoLists, todoListId).value;
            && LoadTodoList(todoListId, rest).None?
            && LoadTodo(todoListId, todoId, rest).None?
            && multiset(rest) + multiset{LoadTodoList(todoListId, todoLists).value} == multiset(todoLists)
  {
    var i := ListIndex(todoLists, todoListId);
    var rest := AfterDestroy(todoLists, todoListId).value;
    assert rest == todoLists[..i] + todoLists[i + 1..];
    DropAtFacts(todoLists, i, rest);
    forall l | l in rest ensures l.id != todoListId {
      var k :| 0 <= k < |rest| && rest[k] == l;
      assert l == todoLists[if k < i then k else k + 1];
    }
    assert LoadTodoList(todoListId, todoLists).value == todoLists[i];
  }

  lemma DestroyPreservesWellFormed(todoLists: seq<TodoList>, todoListId: int)
    requires WellFormed(todoLists)
    requires AfterDestroy(todoLists, todoListId).Some?
    ensures WellFormed(AfterDestroy(todoLists, todoListId).value)
  {
    var i := ListIndex(todoLists, todoListId);
    var rest := AfterDestroy(todoLists, todoListId).value;
    assert rest == todoLists[..i] + todoLists[i + 1..];
    DropAtFacts(todoLists, i, rest);
    forall a, b | 0 <= a < b < |rest| ensures rest[a].title != rest[b].title {
      var a', b' := if a < i then a else a + 1, if b < i then b else b + 1;
      assert rest[a] == todoLists[a'] && rest[b] == todoLists[b'] && a' < b';
    }
  }

  /** The session's collection of lists, which the handlers change in place. */
  class Session {
    var todoLists: seq<TodoList>

    constructor ()
      ensures todoLists == []
    {
      todoLists := [];
    }

    /** The middleware that rebuilds the lists from the stored session
        records on every request, one `push` per stored list; a session
        without lists gets an empty collection. `TodoList.makeTodoList` is
        taken to rebuild the same record. */
    method Rehydrate(stored: Option<seq<TodoList>>)
      modifies this
      ensures todoLists == if stored.Some? then stored.value else []
    {
      var rebuilt: seq<TodoList> := [];
      if stored.Some? {
        var k := 0;
        while k < |stored.value|
          invariant 0 <= k <= |stored.value|
          invariant rebuilt == stored.value[..k]
        {
          rebuilt := rebuilt + [stored.value[k]];
          k := k + 1;
        }
        assert stored.value[..k] == stored.value;
      }
      todoLists := rebuilt;
    }

    /** `POST /lists`: check the title, and on success push the new list. */
    method CreateList(rawTitle: string, newId: int) returns (errors: seq<TitleError>)
      modifies this
      ensures errors == ListTitleErrors(rawTitle, old(todoLists))
      ensures todoLists == AfterCreate(old(todoLists), rawTitle, newId)
    {
      errors := ListTitleErrors(rawTitle, todoLists);
      if errors == [] {
        todoLists := todoLists + [TodoList(newId, Trim(rawTitle), [])];
      }
    }

    /** `POST /lists/:todoListId/todos/:todoId/toggle`. */
    method ToggleTodo(todoListId: int, todoId: int) returns (found: bool)
      modifies this
      ensures found == LoadTodo(todoListId, todoId, old(todoLists)).Some?
      ensures todoLists == AfterToggle(old(todoLists), todoListId, todoId)
    {
      var todo := LoadTodo(todoListId, todoId, todoLists);
      found := todo.Some?;
      if found {
        var i := ListIndex(todoLists, todoListId);
        var todoList := todoLists[i];
        var j := TodoIndex(todoList, todoId);
        var toggled := if TodoIsDone(todo.value) then MarkUndone(todo.value) else MarkDone(todo.value);
        todoLists := todoLists[i := todoList.(todos := todoList.todos[j := toggled])];
      }
    }

    /** `POST /lists/:todoListId/destroy`, with the not-found guard as
        intended: a missing id leaves the lists alone. */
    method DestroyList(todoListId: int) returns (found: bool)
      modifies this
      ensures found == AfterDestroy(old(todoLists), todoListId).Some?
      ensures todoLists == if found then AfterDestroy(old(todoLists), todoListId).value else old(todoLists)
    {
      var index := ListIndex(todoLists, todoListId);
      found := index != -1;
      if found {
        todoLists := SpliceOne(todoLists, index);
      }
    }
  }
}
