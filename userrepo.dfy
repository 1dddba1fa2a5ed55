/** `UserRepository`: the user table with a soft-delete flag. Reads skip
    deleted rows; delete sets the flag and keeps the row. The table is a
    sequence of rows in insertion order, and the key is `id`. */
module UserRepo {
  import opened Wrappers
  import opened UserModel
  import Tables

  /** `GetAllAsync`: the rows not deleted. */
  function Active(rows: seq<User>): (r: seq<User>)
    ensures forall i :: 0 <= i < |r| ==> r[i] in rows && !r[i].isDeleted
    ensures forall i :: 0 <= i < |rows| && !rows[i].isDeleted ==> rows[i] in r
  {
    Tables.Where(rows, (u: User) => !u.isDeleted)
  }

  /** `GetByIdAsync`: the row with that id, unless it is deleted. */
  function FindById(rows: seq<User>, id: int): (r: Option<User>)
    ensures r.Some? ==> r.value in rows && r.value.id == id && !r.value.isDeleted
    ensures r.None? <==> forall i :: 0 <= i < |rows| ==> rows[i].id != id || rows[i].isDeleted
  {
    Tables.FirstMatch(rows, (u: User) => u.id == id && !u.isDeleted)
  }

  /** `GetByUsernameAsync`: the first row not deleted with exactly that user name. */
  function FindByUsername(rows: seq<User>, username: string): (r: Option<User>)
    ensures r.Some? ==> r.value in rows && r.value.username == username && !r.value.isDeleted
    ensures r.None? <==> forall i :: 0 <= i < |rows| ==> rows[i].username != username || rows[i].isDeleted
  {
    Tables.FirstMatch(rows, (u: User) => u.username == username && !u.isDeleted)
  }

  /** `GetByEmailAsync`: the first row not deleted with exactly that email. */
  function FindByEmail(rows: seq<User>, email: string): (r: Option<User>)
    ensures r.Some? ==> r.value in rows && r.value.email == email && !r.value.isDeleted
    ensures r.None? <==> forall i :: 0 <= i < |rows| ==> rows[i].email != email || rows[i].isDeleted
    ensures r.Some? ==> exists i :: 0 <= i < |rows| && rows[i] == r.value
                                    && forall j :: 0 <= j < i ==> rows[j].email != email || rows[j].isDeleted
  {
    Tables.FirstMatch(rows, (u: User) => u.email == email && !u.isDeleted)
  }

  predicate HasKey(rows: seq<User>, id: int) {
    exists i :: 0 <= i < |rows| && rows[i].id == id
  }

  /** No two rows share an id, and 0, the unassigned key, is not used. */
  predicate KeysValid(rows: seq<User>) {
    && (forall i, j :: 0 <= i < j < |rows| ==> rows[i].id != rows[j].id)
    && (forall i :: 0 <= i < |rows| ==> rows[i].id != 0)
  }

  /** The key the database generates: one more than the largest in use, and positive. */
  function NextId(rows: seq<User>): (n: int)
    ensures n > 0
    ensures forall i :: 0 <= i < |rows| ==> rows[i].id < n
  {
    if |rows| == 0 then 1
    else
      var m := NextId(rows[..|rows| - 1]);
      assert forall i :: 0 <= i < |rows| - 1 ==> rows[i] == rows[..|rows| - 1][i];
      if rows[|rows| - 1].id < m then m else rows[|rows| - 1].id + 1
  }

  /** The row as inserted: an unassigned key is generated. */
  function Keyed(rows: seq<User>, u: User): (k: User)
    ensures k == (if u.id == 0 then u.(id := NextId(rows)) else u)
    ensures k.id != 0
    ensures u.id == 0 ==> !HasKey(rows, k.id)
  {
    if u.id == 0 then u.(id := NextId(rows)) else u
  }

  /** The table after the stored row with u's id is overwritten by u. */
  function Replace(rows: seq<User>, u: User): (r: seq<User>)
    ensures |r| == |rows|
    ensures forall i :: 0 <= i < |rows| ==> r[i] == if rows[i].id == u.id then u else rows[i]
  {
    seq(|rows|, i requires 0 <= i < |rows| => if rows[i].id == u.id then u else rows[i])
  }

  /** The table after `DeleteAsync(id)`: the live row with that id is flagged. */
  function MarkDeleted(rows: seq<User>, id: int): (r: seq<User>)
    ensures |r| == |rows|
    ensures forall i :: 0 <= i < |rows| ==>
              r[i] == if rows[i].id == id && !rows[i].isDeleted then rows[i].(isDeleted := true) else rows[i]
  {
    seq(|rows|, i requires 0 <= i < |rows| => if rows[i].id == id && !rows[i].isDeleted then rows[i].(isDeleted := true) else rows[i])
  }

  /** An update whose key is set but not stored is rejected. */
  predicate UpdateRejected(rows: seq<User>, u: User) {
    u.id != 0 && !HasKey(rows, u.id)
  }

  /** The table after `UpdateAsync(u)`: a row with an unset key is inserted,
      a stored key is overwritten, and a rejected update changes nothing. */
  function AfterUpdate(rows: seq<User>, u: User): (r: seq<User>)
    ensures u.id == 0 ==> r == rows + [Keyed(rows, u)]
    ensures u.id != 0 && HasKey(rows, u.id) ==> r == Replace(rows, u)
    ensures UpdateRejected(rows, u) ==> r == rows
  {
    if u.id == 0 then rows + [Keyed(rows, u)]
    else if HasKey(rows, u.id) then Replace(rows, u)
    else rows
  }

  /** What `SaveChangesAsync` rejects. */
  datatype DbError = DuplicateKey(id: int) | MissingRow(id: int)

  class UserRepository {
    var users: seq<User>

    ghost predicate Valid()
      reads this
    {
      KeysValid(users)
    }

    constructor (rows: seq<User>)
      requires KeysValid(rows)
      ensures Valid() && users == rows
    {
      users := rows;
    }

    /** `AddAsync(user)`: inserts the row, generating its key when unset.
        An explicit key already in use is rejected and nothing changes. */
    method Add(u: User) returns (r: Result<User, DbError>)
      requires Valid()
      modifies this
      ensures Valid()
      ensures u.id != 0 && HasKey(old(users), u.id) ==> r == Failure(DuplicateKey(u.id)) && users == old(users)
      ensures !(u.id != 0 && HasKey(old(users), u.id)) ==>
                r == Success(Keyed(old(users), u)) && users == old(users) + [Keyed(old(users), u)]
    {
      if u.id != 0 && HasKey(users, u.id) {
        return Failure(DuplicateKey(u.id));
      }
      var k := Keyed(users, u);
      users := users + [k];
      r := Success(k);
    }

    /** `UpdateAsync(user)`: overwrites the stored row with the same key. A
        row with an unset key is inserted, as `DbSet.Update` tracks it as
        added; a key that is not stored is rejected and nothing changes. */
    method Update(u: User) returns (r: Result<User, DbError>)
      requires Valid()
      modifies this
      ensures Valid()
      ensures users == AfterUpdate(old(users), u)
      ensures UpdateRejected(old(users), u) ==> r == Failure(MissingRow(u.id))
      ensures !UpdateRejected(old(users), u) ==> r == Success(Keyed(old(users), u))
    {
      if u.id == 0 {
        var k := Keyed(users, u);
        users := users + [k];
        return Success(k);
      }
      if !HasKey(users, u.id) {
        return Failure(MissingRow(u.id));
      }
      ReplaceKeepsKeys(users, u);
      users := Replace(users, u);
      r := Success(u);
    }

    /** `DeleteAsync(id)`: fetches the live row with that id and flags it; a
        missing or already deleted id changes nothing and is no error. */
    method Delete(id: int)
      requires Valid()
      modifies this
      ensures Valid()
      ensures users == MarkDeleted(old(users), id)
    {
      var user := FindById(users, id);
      if user.Some? {
        var flagged := user.value.(isDeleted := true);
        DeleteIsReplace(users, id, user.value);
        ReplaceKeepsKeys(users, flagged);
        users := Replace(users, flagged);
      } else {
        DeleteOfMissing(users, id);
      }
    }
  }

  lemma ReplaceKeepsKeys(rows: seq<User>, u: User)
    requires KeysValid(rows) && HasKey(rows, u.id)
    ensures KeysValid(Replace(rows, u))
  {
  }

  /** Flagging the row `GetByIdAsync` found is the delete of its id. */
  lemma DeleteIsReplace(rows: seq<User>, id: int, found: User)
    requires KeysValid(rows)
    requires FindById(rows, id) == Some(found)
    ensures Replace(rows, found.(isDeleted := true)) == MarkDeleted(rows, id)
  {
    var r, m := Replace(rows, found.(isDeleted := true)), MarkDeleted(rows, id);
    forall i | 0 <= i < |rows| ensures r[i] == m[i] {
      if rows[i].id == id {
        var k :| 0 <= k < |rows| && rows[k] == found;
        assert k == i;
      }
    }
  }

  /** Deleting an id that no live row has changes nothing. */
  lemma DeleteOfMissing(rows: seq<User>, id: int)
    requires FindById(rows, id).None?
    ensures MarkDeleted(rows, id) == rows
  {
  }

  /** After a delete the id is no longer found, and no longer listed. */
  lemma DeleteHides(rows: seq<User>, id: int)
    ensures FindById(MarkDeleted(rows, id), id).None?
    ensures forall u :: u in Active(MarkDeleted(rows, id)) ==> u.id != id
  {
    var m := MarkDeleted(rows, id);
    forall u | u in Active(m) ensures u.id != id {
      var i :| 0 <= i < |Active(m)| && Active(m)[i] == u;
      assert u in m && !u.isDeleted;
    }
  }

  /** Delete never removes a row and leaves every other id's row as it was. */
  lemma DeleteKeepsOtherRows(rows: seq<User>, id: int)
    ensures |MarkDeleted(rows, id)| == |rows|
    ensures forall i :: 0 <= i < |rows| && rows[i].id != id ==> MarkDeleted(rows, id)[i] == rows[i]
    ensures forall i :: 0 <= i < |rows| ==> MarkDeleted(rows, id)[i] == rows[i].(isDeleted := MarkDeleted(rows, id)[i].isDeleted)
  {
  }

  /** Deleting twice is deleting once. */
  lemma DeleteIdempotent(rows: seq<User>, id: int)
    ensures MarkDeleted(MarkDeleted(rows, id), id) == MarkDeleted(rows, id)
  {
  }

  /** A row just added and not deleted is found by its id. */
  lemma {:induction false} AddedIsFound(rows: seq<User>, u: User)
    requires KeysValid(rows)
    requires u.id == 0 || !HasKey(rows, u.id)
    requires !u.isDeleted
    ensures FindById(rows + [Keyed(rows, u)], Keyed(rows, u).id) == Some(Keyed(rows, u))
  {
    var k := Keyed(rows, u);
    var all := rows + [k];
    assert all[|rows|] == k;
    assert forall i :: 0 <= i < |rows| ==> all[i].id != k.id;
    Tables.FirstMatchOfOnly(all, (v: User) => v.id == k.id && !v.isDeleted, |rows|);
  }

  /** After an update the stored row is the given one; reading it back by id
      gives it, unless it is flagged deleted. */
  lemma {:induction false} UpdatedIsFound(rows: seq<User>, u: User)
    requires KeysValid(rows) && HasKey(rows, u.id)
    ensures u in Replace(rows, u)
    ensures FindById(Replace(rows, u), u.id) == if u.isDeleted then None else Some(u)
  {
    var r := Replace(rows, u);
    var k :| 0 <= k < |rows| && rows[k].id == u.id;
    assert r[k] == u;
    assert forall i :: 0 <= i < |r| && i != k ==> r[i].id != u.id;
    if !u.isDeleted {
      Tables.FirstMatchOfOnly(r, (v: User) => v.id == u.id && !v.isDeleted, k);
    }
  }
}
