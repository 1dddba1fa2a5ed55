/** `TodoService`: the todo operations over the todo table, with the read
    DTO that hides the owner and the deleted flag. Times are whole seconds
    passed in as `now`. */
module TodoServices {
  import opened Wrappers
  import opened TodoRepo
  import Tables

  datatype TodoCreateDto = TodoCreateDto(title: string, description: string, isCompleted: bool)
  datatype TodoUpdateDto = TodoUpdateDto(title: string, description: string, isCompleted: bool)

  /** `TodoReadDto`, with the fields the service fills in. */
  datatype TodoReadDto = TodoReadDto(
    id: int,
    title: string,
    description: string,
    isCompleted: bool,
    createdDate: int,
    updatedDate: int)

  function ToReadDto(t: Todo): TodoReadDto {
    TodoReadDto(t.id, t.title, t.description, t.isCompleted, t.createdDate, t.updatedDate)
  }

  /** The todo `AddTodoAsync` builds before the key is generated; every
      new todo belongs to user 1. */
  function NewTodo(dto: TodoCreateDto, now: int): Todo {
    Todo(0, dto.title, dto.description, dto.isCompleted, now, now, 1, false)
  }

  /** The fetched todo after `UpdateTodoAsync` assigns its editable fields. */
  function Edited(t: Todo, dto: TodoUpdateDto, now: int): Todo {
    t.(title := dto.title, description := dto.description, isCompleted := dto.isCompleted, updatedDate := now)
  }

  /** `GetAllTodosAsync`: one DTO per todo not deleted, in the same order,
      each showing that todo's fields. */
  function AllTodos(rows: seq<Todo>): (r: seq<TodoReadDto>)
    ensures |r| == |Active(rows)|
    ensures forall i :: 0 <= i < |r| ==>
              var t := Active(rows)[i];
              && r[i].id == t.id && r[i].title == t.title && r[i].description == t.description
              && r[i].isCompleted == t.isCompleted
              && r[i].createdDate == t.createdDate && r[i].updatedDate == t.updatedDate
  {
    var active := Active(rows);
    seq(|active|, i requires 0 <= i < |active| => ToReadDto(active[i]))
  }

  /** `GetTodoByIdAsync`: `None` exactly when the repository finds none. */
  function TodoById(rows: seq<Todo>, id: int): (r: Option<TodoReadDto>)
    ensures r.None? <==> FindById(rows, id).None?
    ensures r.Some? ==> r.value.id == id && r.value == ToReadDto(FindById(rows, id).value)
  {
    match FindById(rows, id)
    case None => None
    case Some(t) => Some(ToReadDto(t))
  }

  class TodoService {
    const repo: TodoRepository

    constructor (repo: TodoRepository)
      ensures this.repo == repo
    {
      this.repo := repo;
    }

    function GetAllTodos(): seq<TodoReadDto>
      reads repo
    {
      AllTodos(repo.todos)
    }

    function GetTodoById(id: int): Option<TodoReadDto>
      reads repo
    {
      TodoById(repo.todos, id)
    }

    /** `AddTodoAsync(dto)`: stores a new live todo of user 1 with the DTO's
        title, description and completion, created and updated `now`, under
        a fresh key; the result shows the stored todo and reads back by id. */
    method AddTodo(dto: TodoCreateDto, now: int) returns (r: TodoReadDto)
      requires repo.Valid()
      modifies repo
      ensures repo.Valid()
      ensures repo.todos == old(repo.todos) + [NewTodo(dto, now).(id := NextId(old(repo.todos)))]
      ensures !HasKey(old(repo.todos), r.id)
      ensures r == TodoReadDto(r.id, dto.title, dto.description, dto.isCompleted, now, now)
      ensures GetTodoById(r.id) == Some(r)
    {
      var before := repo.todos;
      var created := repo.Add(NewTodo(dto, now));
      assert created.Success?;
      AddedIsFound(before, NewTodo(dto, now));
      r := ToReadDto(created.value);
    }

    /** `UpdateTodoAsync(id, dto)`: `false` and nothing written when no live
        todo has the id; otherwise that todo's editable fields are overwritten
        and it reads back as edited. */
    method UpdateTodo(id: int, dto: TodoUpdateDto, now: int) returns (ok: bool)
      requires repo.Valid()
      modifies repo
      ensures repo.Valid()
      ensures ok <==> FindById(old(repo.todos), id).Some?
      ensures !ok ==> repo.todos == old(repo.todos)
      ensures ok ==> repo.todos == Replace(old(repo.todos), Edited(FindById(old(repo.todos), id).value, dto, now))
      ensures ok ==> GetTodoById(id) == Some(ToReadDto(Edited(FindById(old(repo.todos), id).value, dto, now)))
    {
      var existing := FindById(repo.todos, id);
      if existing.None? {
        return false;
      }
      var before := repo.todos;
      var edited := Edited(existing.value, dto, now);
      assert HasKey(before, edited.id);
      var _ := repo.Update(edited);
      EditStaysFound(before, existing.value, dto, now);
      ok := true;
    }

    /** `DeleteTodoAsync(id)`: `false` when no live todo has the id, else the
        flag is set and `true`. Either way the table ends as the repository's
        own delete of that id leaves it. */
    method DeleteTodo(id: int) returns (ok: bool)
      requires repo.Valid()
      modifies repo
      ensures repo.Valid()
      ensures ok <==> FindById(old(repo.todos), id).Some?
      ensures !ok ==> repo.todos == old(repo.todos)
      ensures repo.todos == Flagged(old(repo.todos), id)
    {
      var todo := FindById(repo.todos, id);
      if todo.None? {
        MissingIsFlagged(repo.todos, id);
        return false;
      }
      var before := repo.todos;
      var k :| 0 <= k < |before| && before[k] == todo.value;
      FlagIsReplace(before, k);
      var _ := repo.Update(todo.value.(isDeleted := true));
      ok := true;
    }
  }

  /** With no live todo of that id, every row with the id is flagged already. */
  lemma MissingIsFlagged(rows: seq<Todo>, id: int)
    requires FindById(rows, id).None?
    ensures Flagged(rows, id) == rows
  {
  }

  /** The edited todo is the only row with its id, and it is live. */
  lemma EditStaysFound(rows: seq<Todo>, found: Todo, dto: TodoUpdateDto, now: int)
    requires KeysValid(rows)
    requires found in rows && !found.isDeleted
    ensures FindById(Replace(rows, Edited(found, dto, now)), found.id) == Some(Edited(found, dto, now))
  {
    var e := Edited(found, dto, now);
    var r := Replace(rows, e);
    var k :| 0 <= k < |rows| && rows[k] == found;
    assert r[k] == e;
    assert forall i :: 0 <= i < |r| && i != k ==> r[i].id != e.id;
    Tables.FirstMatchOfOnly(r, (v: Todo) => v.id == found.id && !v.isDeleted, k);
  }

  /** An update changes only the title, description, completion and update
      time of the one todo with the id: its creation time, owner and flag,
      and every other row, stay as they were. */
  lemma UpdateTouchesOnlyEditable(rows: seq<Todo>, id: int, dto: TodoUpdateDto, now: int)
    requires KeysValid(rows)
    requires FindById(rows, id).Some?
    ensures var after := Replace(rows, Edited(FindById(rows, id).value, dto, now));
            && |after| == |rows|
            && (forall i :: 0 <= i < |rows| && rows[i].id != id ==> after[i] == rows[i])
            && (forall i :: 0 <= i < |rows| && rows[i].id == id ==>
                  && after[i].title == dto.title && after[i].description == dto.description
                  && after[i].isCompleted == dto.isCompleted && after[i].updatedDate == now
                  && after[i].id == rows[i].id && after[i].createdDate == rows[i].createdDate
                  && after[i].userId == rows[i].userId && after[i].isDeleted == rows[i].isDeleted)
  {
    var found := FindById(rows, id).value;
    var k :| 0 <= k < |rows| && rows[k] == found;
    forall i | 0 <= i < |rows| && rows[i].id == id ensures rows[i] == found {
      assert i == k;
    }
  }

  /** A todo deleted through the service is no longer read by id or listed. */
  lemma DeletedTodoIsGone(rows: seq<Todo>, id: int)
    ensures TodoById(Flagged(rows, id), id).None?
    ensures forall d :: d in AllTodos(Flagged(rows, id)) ==> d.id != id
  {
    DeleteHides(rows, id);
    var all := AllTodos(Flagged(rows, id));
    forall d | d in all ensures d.id != id {
      var i :| 0 <= i < |all| && all[i] == d;
      assert Active(Flagged(rows, id))[i] in Active(Flagged(rows, id));
    }
  }
}
