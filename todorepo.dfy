/** `TodoRepository` of the todo service, over the `Todo` entity: reads skip
    deleted rows; `DeleteAsync` finds the row by key without that filter and
    sets its flag. The table is a sequence of rows in insertion order. */
module TodoRepo {
  import opened Wrappers
  import Tables

  datatype Todo = Todo(
    id: int,
    title: string,
    description: string,
    isCompleted: bool,
    createdDate: int,
    updatedDate: int,
    userId: int,
    isDeleted: bool)

  /** `GetAllAsync`: the todos not deleted, in table order. */
  function Active(rows: seq<Todo>): (r: seq<Todo>)
    ensures forall i :: 0 <= i < |r| ==> r[i] in rows && !r[i].isDeleted
    ensures forall i :: 0 <= i < |rows| && !rows[i].isDeleted ==> rows[i] in r
  {
    Tables.Where(rows, (t: Todo) => !t.isDeleted)
  }

  /** `GetByIdAsync`: the todo with that id, unless it is deleted. */
  function FindById(rows: seq<Todo>, id: int): (r: Option<Todo>)
    ensures r.Some? ==> r.value in rows && r.value.id == id && !r.value.isDeleted
    ensures r.None? <==> forall i :: 0 <= i < |rows| ==> rows[i].id != id || rows[i].isDeleted
  {
    Tables.FirstMatch(rows, (t: Todo) => t.id == id && !t.isDeleted)
  }

  predicate HasKey(rows: seq<Todo>, id: int) {
    exists i :: 0 <= i < |rows| && rows[i].id == id
  }

  /** No two rows share an id, and 0, the unassigned key, is not used. */
  predicate KeysValid(rows: seq<Todo>) {
    && (forall i, j :: 0 <= i < j < |rows| ==> rows[i].id != rows[j].id)
    && (forall i :: 0 <= i < |rows| ==> rows[i].id != 0)
  }

  /** The key the database generates: above every key in use. */
  function NextId(rows: seq<Todo>): (n: int)
    ensures n > 0
    ensures forall i :: 0 <= i < |rows| ==> rows[i].id < n
  {
    if |rows| == 0 then 1
    else
      var m := NextId(rows[..|rows| - 1]);
      assert forall i :: 0 <= i < |rows| - 1 ==> rows[i] == rows[..|rows| - 1][i];
      if rows[|rows| - 1].id < m then m else rows[|rows| - 1].id + 1
  }

  /** The row as inserted: an unassigned key is generated. */
  function Keyed(rows: seq<Todo>, t: Todo): (k: Todo)
    ensures k.id != 0
    ensures t.id != 0 ==> k == t
    ensures t.id == 0 ==> k == t.(id := NextId(rows)) && !HasKey(rows, k.id)
  {
    if t.id == 0 then t.(id := NextId(rows)) else t
  }

  /** The table after the stored row with t's id is overwritten by t. */
  function Replace(rows: seq<Todo>, t: Todo): (r: seq<Todo>)
    ensures |r| == |rows|
    ensures forall i :: 0 <= i < |rows| ==> r[i] == if rows[i].id == t.id then t else rows[i]
  {
    seq(|rows|, i requires 0 <= i < |rows| => if rows[i].id == t.id then t else rows[i])
  }

  /** The table after `DeleteAsync(id)`: the row with that key is flagged,
      whether or not it was flagged before. */
  function Flagged(rows: seq<Todo>, id: int): (r: seq<Todo>)
    ensures |r| == |rows|
    ensures forall i :: 0 <= i < |rows| ==> r[i] == if rows[i].id == id then rows[i].(isDeleted := true) else rows[i]
  {
    seq(|rows|, i requires 0 <= i < |rows| => if rows[i].id == id then rows[i].(isDeleted := true) else rows[i])
  }

  predicate UpdateRejected(rows: seq<Todo>, t: Todo) {
    t.id != 0 && !HasKey(rows, t.id)
  }

  /** The table after `UpdateAsync(t)`, as for the user table. */
  function AfterUpdate(rows: seq<Todo>, t: Todo): (r: seq<Todo>)
    ensures t.id == 0 ==> r == rows + [Keyed(rows, t)]
    ensures t.id != 0 && HasKey(rows, t.id) ==> r == Replace(rows, t)
    ensures UpdateRejected(rows, t) ==> r == rows
  {
    if t.id == 0 then rows + [Keyed(rows, t)]
    else if HasKey(rows, t.id) then Replace(rows, t)
    else rows
  }

  datatype DbError = DuplicateKey(id: int) | MissingRow(id: int)

  class TodoRepository {
    var todos: seq<Todo>

    ghost predicate Valid()
      reads this
    {
      KeysValid(todos)
    }

    constructor (rows: seq<Todo>)
      requires KeysValid(rows)
      ensures Valid() && todos == rows
    {
      todos := rows;
    }

    /** `AddAsync(todo)`: inserts it and returns that same todo, its key now set. */
    method Add(t: Todo) returns (r: Result<Todo, DbError>)
      requires Valid()
      modifies this
      ensures Valid()
      ensures t.id != 0 && HasKey(old(todos), t.id) ==> r == Failure(DuplicateKey(t.id)) && todos == old(todos)
      ensures !(t.id != 0 && HasKey(old(todos), t.id)) ==>
                r == Success(Keyed(old(todos), t)) && todos == old(todos) + [Keyed(old(todos), t)]
    {
      if t.id != 0 && HasKey(todos, t.id) {
        return Failure(DuplicateKey(t.id));
      }
      var k := Keyed(todos, t);
      todos := todos + [k];
      r := Success(k);
    }

    /** `UpdateAsync(todo)`. */
    method Update(t: Todo) returns (r: Result<Todo, DbError>)
      requires Valid()
      modifies this
      ensures Valid()
      ensures todos == AfterUpdate(old(todos), t)
      ensures UpdateRejected(old(todos), t) ==> r == Failure(MissingRow(t.id))
      ensures !UpdateRejected(old(todos), t) ==> r == Success(Keyed(old(todos), t))
    {
      if t.id == 0 {
        var k := Keyed(todos, t);
        todos := todos + [k];
        return Success(k);
      }
      if !HasKey(todos, t.id) {
        return Failure(MissingRow(t.id));
      }
      todos := Replace(todos, t);
      r := Success(t);
    }

    /** `DeleteAsync(id)`: `FindAsync` by key, deleted or not, then the flag. */
    method Delete(id: int)
      requires Valid()
      modifies this
      ensures Valid()
      ensures todos == Flagged(old(todos), id)
    {
      if HasKey(todos, id) {
        var k :| 0 <= k < |todos| && todos[k].id == id;
        var found := todos[k];
        FlagIsReplace(todos, k);
        todos := Replace(todos, found.(isDeleted := true));
      } else {
        assert Flagged(todos, id) == todos;
      }
    }
  }

  /** Flagging the row found by key is the delete of that key. */
  lemma FlagIsReplace(rows: seq<Todo>, k: nat)
    requires KeysValid(rows) && k < |rows|
    ensures Replace(rows, rows[k].(isDeleted := true)) == Flagged(rows, rows[k].id)
  {
    var r, f := Replace(rows, rows[k].(isDeleted := true)), Flagged(rows, rows[k].id);
    forall i | 0 <= i < |rows| ensures r[i] == f[i] {
      if rows[i].id == rows[k].id {
        assert i == k;
      }
    }
  }

  /** Delete is idempotent, and a missing key changes nothing. */
  lemma DeleteIdempotent(rows: seq<Todo>, id: int)
    ensures Flagged(Flagged(rows, id), id) == Flagged(rows, id)
    ensures !HasKey(rows, id) ==> Flagged(rows, id) == rows
  {
  }

  /** After a delete the id is no longer found or listed; no row is removed. */
  lemma DeleteHides(rows: seq<Todo>, id: int)
    ensures FindById(Flagged(rows, id), id).None?
    ensures forall t :: t in Active(Flagged(rows, id)) ==> t.id != id
    ensures |Flagged(rows, id)| == |rows|
  {
    var f := Flagged(rows, id);
    forall t | t in Active(f) ensures t.id != id {
      var i :| 0 <= i < |Active(f)| && Active(f)[i] == t;
      assert t in f && !t.isDeleted;
    }
  }

  /** A todo just added, not deleted, is found by the key it was given. */
  lemma {:induction false} AddedIsFound(rows: seq<Todo>, t: Todo)
    requires KeysValid(rows)
    requires t.id == 0 || !HasKey(rows, t.id)
    requires !t.isDeleted
    ensures FindById(rows + [Keyed(rows, t)], Keyed(rows, t).id) == Some(Keyed(rows, t))
  {
    var k := Keyed(rows, t);
    var all := rows + [k];
    assert all[|rows|] == k;
    assert forall i :: 0 <= i < |rows| ==> all[i].id != k.id;
    Tables.FirstMatchOfOnly(all, (v: Todo) => v.id == k.id && !v.isDeleted, |rows|);
  }
}
