/** The shape of the session's data: a todo list with its todos, as the
    plain records {id, title, todos: [{id, title, done}]} the session keeps.
    The classes behind them (lib/todolist.js, lib/todo.js) are not part of
    this model; only the attributes and the two `isDone` tests are used. */
module Records {

  datatype Todo = Todo(id: int, title: string, done: bool)

  datatype TodoList = TodoList(id: int, title: string, todos: seq<Todo>)

  function TodoTitle(t: Todo): string { t.title }

  function ListTitle(l: TodoList): string { l.title }

  /** `todo.isDone()`: the todo's done flag. */
  function TodoIsDone(t: Todo): bool { t.done }

  /** `todoList.isDone()`: the list has todos and every one of them is done;
      an empty list is not done. */
  function ListIsDone(l: TodoList): bool
  {
    |l.todos| > 0 && forall t :: t in l.todos ==> t.done
  }
}
