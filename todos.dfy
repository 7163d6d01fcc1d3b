/**
 * The TODO-list web app: a table of todos keyed by primary key, a list view
 * that can filter by status, create/update/delete form views and a toggle
 * action. The table is a map from primary key to record inside a `TodoStore`
 * object; the views that change it are methods, the list query is a function.
 */
module Todos {

  import opened Wrappers
  import Seqs

  datatype Todo = Todo(title: string, description: string, dueDate: Option<string>, resolved: bool)

  /** A row of the list query: a primary key with its record. */
  datatype Row = Row(pk: int, todo: Todo)

  /** What a view answers: a redirect to the list page, or 404. */
  datatype Response = Redirect(target: string) | NotFound

  const TODO_LIST: string := "todo_list"

  /** The posted form data. A checkbox that is not ticked is not posted. */
  datatype TodoPost = TodoPost(title: string, description: string, dueDate: Option<string>, resolved: Option<bool>)

  predicate IsResolved(r: Row) {
    r.todo.resolved
  }

  predicate IsPending(r: Row) {
    !r.todo.resolved
  }

  /** The list view's query over the table's rows in their query order:
      `?status=resolved` and `?status=pending` filter, anything else (or no
      parameter) keeps every row. */
  function FilterByStatus(rows: seq<Row>, status: Option<string>): (r: seq<Row>)
    ensures |r| <= |rows|
    ensures forall x :: x in r ==> x in rows
  {
    if status == Some("resolved") then Seqs.Filter(rows, IsResolved)
    else if status == Some("pending") then Seqs.Filter(rows, IsPending)
    else rows
  }

  /** Each status keeps exactly the rows it names and never reorders them. */
  lemma FilterByStatusSpec(rows: seq<Row>, status: Option<string>)
    ensures var r := FilterByStatus(rows, status);
            && (status == Some("resolved") ==> forall x :: x in r <==> x in rows && x.todo.resolved)
            && (status == Some("pending") ==> forall x :: x in r <==> x in rows && !x.todo.resolved)
            && (status != Some("resolved") && status != Some("pending") ==> r == rows)
            && Seqs.IsSubsequence(r, rows)
  {
    if status == Some("resolved") {
      Seqs.FilterIsSubsequence(rows, IsResolved);
    } else if status == Some("pending") {
      Seqs.FilterIsSubsequence(rows, IsPending);
    } else {
      Seqs.SubsequenceRefl(rows);
    }
  }

  /** The resolved and the pending lists split the full list between them. */
  lemma ResolvedPendingPartition(rows: seq<Row>)
    ensures |FilterByStatus(rows, Some("resolved"))| + |FilterByStatus(rows, Some("pending"))| == |rows|
    ensures multiset(FilterByStatus(rows, Some("resolved"))) + multiset(FilterByStatus(rows, Some("pending")))
            == multiset(rows)
  {
    Seqs.FilterPartition(rows, IsResolved, IsPending);
  }

  /** `rows` lists the table, each record once under its own key. */
  ghost predicate Enumerates(rows: seq<Row>, todos: map<int, Todo>) {
    && (forall i :: 0 <= i < |rows| ==> rows[i].pk in todos && todos[rows[i].pk] == rows[i].todo)
    && (forall pk :: pk in todos ==> Row(pk, todos[pk]) in rows)
    && (forall i, j :: 0 <= i < j < |rows| ==> rows[i].pk != rows[j].pk)
  }

  /** Whatever order the query lists the table in, the resolved list shows a
      record exactly when the table holds it resolved, and the pending list
      exactly when it holds it unresolved. */
  lemma ListShowsTable(rows: seq<Row>, todos: map<int, Todo>)
    requires Enumerates(rows, todos)
    ensures forall pk :: pk in todos ==>
              (todos[pk].resolved <==> Row(pk, todos[pk]) in FilterByStatus(rows, Some("resolved")))
    ensures forall pk :: pk in todos ==>
              (!todos[pk].resolved <==> Row(pk, todos[pk]) in FilterByStatus(rows, Some("pending")))
    ensures forall x :: x in FilterByStatus(rows, Some("resolved")) ==> x.pk in todos && todos[x.pk] == x.todo
    ensures forall x :: x in FilterByStatus(rows, Some("pending")) ==> x.pk in todos && todos[x.pk] == x.todo
  {
    FilterByStatusSpec(rows, Some("resolved"));
    FilterByStatusSpec(rows, Some("pending"));
  }

  /** The table after `toggle_resolved(pk)`: the target's flag is flipped and
      nothing else changes; a missing key changes nothing. */
  function Toggled(todos: map<int, Todo>, pk: int): (r: map<int, Todo>)
    ensures r.Keys == todos.Keys
    ensures pk in todos ==> r[pk] == todos[pk].(resolved := !todos[pk].resolved)
    ensures forall k :: k in todos && k != pk ==> r[k] == todos[k]
    ensures pk !in todos ==> r == todos
  {
    if pk in todos then todos[pk := todos[pk].(resolved := !todos[pk].resolved)] else todos
  }

  /** Toggling twice restores the table. */
  lemma ToggledTwice(todos: map<int, Todo>, pk: int)
    ensures Toggled(Toggled(todos, pk), pk) == todos
  {
    if pk in todos {
      var once := Toggled(todos, pk);
      assert once[pk].resolved == !todos[pk].resolved;
      assert once[pk].(resolved := !once[pk].resolved) == todos[pk];
    }
  }

  /** The todos table. */
  class TodoStore {
    var todos: map<int, Todo>
    var nextPk: int

    ghost predicate Valid()
      reads this
    {
      nextPk >= 1 && forall pk :: pk in todos ==> 1 <= pk < nextPk
    }

    /** The table as the database file holds it; `nextPk` stands for the
        database's next key, above every stored one. */
    constructor (todos: map<int, Todo>, nextPk: int)
      requires nextPk >= 1 && forall pk :: pk in todos ==> 1 <= pk < nextPk
      ensures Valid() && this.todos == todos && this.nextPk == nextPk
    {
      this.todos := todos;
      this.nextPk := nextPk;
    }

    /** `TodoCreateView`: the form's fields are title, description and due
        date, so a posted `resolved` is ignored and the new record is unresolved. */
    method Create(data: TodoPost) returns (pk: int, response: Response)
      requires Valid()
      modifies this
      ensures Valid()
      ensures response == Redirect(TODO_LIST)
      ensures pk !in old(todos)
      ensures todos == old(todos)[pk := Todo(data.title, data.description, data.dueDate, false)]
      ensures |todos| == |old(todos)| + 1
    {
      pk := nextPk;
      todos := todos[pk := Todo(data.title, data.description, data.dueDate, false)];
      nextPk := nextPk + 1;
      response := Redirect(TODO_LIST);
    }

    /** `TodoUpdateView`: the form also has `resolved`, which an unticked box sets to false. */
    method Update(pk: int, data: TodoPost) returns (response: Response)
      requires Valid()
      modifies this
      ensures Valid() && nextPk == old(nextPk)
      ensures pk !in old(todos) ==> response == NotFound && todos == old(todos)
      ensures pk in old(todos) ==>
                && response == Redirect(TODO_LIST)
                && todos == old(todos)[pk := Todo(data.title, data.description, data.dueDate, data.resolved == Some(true))]
    {
      if pk !in todos {
        response := NotFound;
        return;
      }
      todos := todos[pk := Todo(data.title, data.description, data.dueDate, data.resolved == Some(true))];
      response := Redirect(TODO_LIST);
    }

    /** `TodoDeleteView`: removes exactly the named record. */
    method Delete(pk: int) returns (response: Response)
      requires Valid()
      modifies this
      ensures Valid() && nextPk == old(nextPk)
      ensures pk !in old(todos) ==> response == NotFound && todos == old(todos)
      ensures pk in old(todos) ==>
                && response == Redirect(TODO_LIST)
                && todos == old(todos) - {pk}
                && |todos| == |old(todos)| - 1
    {
      if pk !in todos {
        response := NotFound;
        return;
      }
      todos := todos - {pk};
      response := Redirect(TODO_LIST);
    }

    /** `toggle_resolved`: load the record or answer 404, flip its flag, save. */
    method ToggleResolved(pk: int) returns (response: Response)
      requires Valid()
      modifies this
      ensures Valid() && nextPk == old(nextPk)
      ensures todos == Toggled(old(todos), pk)
      ensures response == if pk in old(todos) then Redirect(TODO_LIST) else NotFound
    {
      if pk !in todos {
        response := NotFound;
        return;
      }
      var todo := todos[pk];
      todo := todo.(resolved := !todo.resolved);
      todos := todos[pk := todo];
      response := Redirect(TODO_LIST);
    }
  }
}
