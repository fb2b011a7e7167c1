/** The relational account repository: the meaning of each SQL statement over
    the accounts table, and the repository object whose methods run them. */
module Postgres {
  import opened Domain
  import opened Rows

  /** Identifiers strictly increase along the sequence. */
  ghost predicate IdsAscending(rows: seq<Row>) {
    forall i, j :: 0 <= i < j < |rows| ==> rows[i].id < rows[j].id
  }

  ghost predicate AccountIdsAscending(accounts: seq<StoredAccount>) {
    forall i, j :: 0 <= i < j < |accounts| ==> accounts[i].id < accounts[j].id
  }

  /** The table as the serial id column keeps it: the rows are held in
      ascending id order, every id is positive, and every id is below the
      next value of the id sequence, so a new id is never one in use. */
  ghost predicate TableValid(rows: seq<Row>, nextId: nat) {
    && 0 < nextId
    && IdsAscending(rows)
    && forall x :: x in rows ==> 0 < x.id < nextId
  }

  /** WHERE deleted IS NULL, keeping the order of the rows. */
  function Active(rows: seq<Row>): (r: seq<Row>)
    ensures forall x :: x in r <==> x in rows && x.deleted.None?
    ensures IdsAscending(rows) ==> IdsAscending(r)
    decreases |rows|
  {
    if rows == [] then []
    else
      var rest := Active(rows[1..]);
      assert forall x :: x in rows[1..] ==> x in rows;
      if rows[0].deleted.Some? then rest
      else
        assert IdsAscending(rows) ==> forall x :: x in rest ==> rows[0].id < x.id;
        [rows[0]] + rest
  }

  /** WHERE id = $n, keeping the order of the rows. */
  function Matching(rows: seq<Row>, id: nat): (r: seq<Row>)
    ensures forall x :: x in r <==> x in rows && x.id == id
    ensures IdsAscending(rows) ==> |r| <= 1
    decreases |rows|
  {
    if rows == [] then []
    else
      var rest := Matching(rows[1..], id);
      assert forall x :: x in rows[1..] ==> x in rows;
      if rows[0].id != id then rest
      else
        assert IdsAscending(rows) ==> forall x :: x in rest ==> rows[0].id < x.id;
        assert rest != [] ==> rest[0] in rest;
        [rows[0]] + rest
  }

  /** The number of rows an UPDATE ... WHERE id = $n affects. */
  function CountId(rows: seq<Row>, id: nat): nat {
    |Matching(rows, id)|
  }

  /** The row after SET name, opened, closed, currency to those of u. */
  function Overwrite(row: Row, u: Account): Row {
    row.(name := u.name, openedAt := u.openedAt, closed := u.closed, currency := u.currency)
  }

  /** The table after queryUpdateAccount for id and the columns of u. Its
      WHERE clause matches on id alone, deleted rows included. */
  function Updated(rows: seq<Row>, id: nat, u: Account): seq<Row> {
    seq(|rows|, i requires 0 <= i < |rows| =>
      if rows[i].id == id then Overwrite(rows[i], u) else rows[i])
  }

  /** The table after queryDeleteAccount stamps `now` on the rows with that
      id. Its WHERE clause matches on id alone, already deleted rows included. */
  function Deleted(rows: seq<Row>, id: nat, now: Time): seq<Row> {
    seq(|rows|, i requires 0 <= i < |rows| =>
      if rows[i].id == id then rows[i].(deleted := Some(now)) else rows[i])
  }

  /** What querySelectAccounts yields: the rows not deleted, ordered by id. */
  function SelectAll(lib: Library, rows: seq<Row>): Result<seq<StoredAccount>> {
    DecodeAll(lib, Active(rows))
  }

  /** What querySelectAccount yields through queryAccount. */
  function SelectOne(lib: Library, rows: seq<Row>, id: nat): Result<StoredAccount> {
    QueryAccount(DecodeAll(lib, Matching(Active(rows), id)))
  }

  /** What a statement with a RETURNING list yields through queryAccount. */
  function Returning(lib: Library, rows: seq<Row>, id: nat): Result<StoredAccount> {
    QueryAccount(DecodeAll(lib, Matching(rows, id)))
  }

  // ---------------------------------------------------------------------
  // Properties of the statements

  /** With ascending ids, the row at index k is the only one with its id. */
  lemma MatchingAt(rows: seq<Row>, k: nat)
    requires IdsAscending(rows) && k < |rows|
    ensures Matching(rows, rows[k].id) == [rows[k]]
  {
    var m := Matching(rows, rows[k].id);
    assert rows[k] in m;
  }

  /** No row with the id: nothing matches. */
  lemma MatchingNone(rows: seq<Row>, id: nat)
    requires forall x :: x in rows ==> x.id != id
    ensures Matching(rows, id) == []
  {
  }

  /** Select-all fails exactly when one of the rows not deleted does not
      decode. */
  lemma SelectAllOk(lib: Library, rows: seq<Row>)
    ensures SelectAll(lib, rows).Ok? <==> forall x :: x in rows && x.deleted.None? ==> RowAccepted(lib, x)
  {
  }

  /** Select-all yields accounts in strictly ascending id order, none of
      them deleted, each decoded from a row of the table. */
  lemma SelectAllOrdered(lib: Library, rows: seq<Row>)
    requires IdsAscending(rows) && SelectAll(lib, rows).Ok?
    ensures var accounts := SelectAll(lib, rows).value;
      && AccountIdsAscending(accounts)
      && forall a :: a in accounts ==> a.deleted.None? && ToRow(a) in rows
  {
  }

  /** Every row not deleted is represented in a successful select-all. */
  lemma SelectAllComplete(lib: Library, rows: seq<Row>)
    requires SelectAll(lib, rows).Ok?
    ensures forall x :: x in rows && x.deleted.None? ==>
      exists a :: a in SelectAll(lib, rows).value && ToRow(a) == x
  {
  }

  /** Select-one for id yields the decoding of the one row with that id
      whose deleted column is NULL. */
  lemma SelectOneFound(lib: Library, rows: seq<Row>, k: nat)
    requires IdsAscending(rows) && k < |rows| && rows[k].deleted.None?
    ensures SelectOne(lib, rows, rows[k].id) == DecodeRow(lib, rows[k])
  {
  }

  /** Select-one fails with no accounts when no row with the id has a NULL
      deleted column. */
  lemma SelectOneNotFound(lib: Library, rows: seq<Row>, id: nat)
    requires forall x :: x in rows && x.id == id ==> x.deleted.Some?
    ensures SelectOne(lib, rows, id) == Err(NoAccounts)
  {
  }

  /** Select-one never reports more than one account: the ids are unique,
      so that check of queryAccount is defensive. */
  lemma SelectOneNeverAmbiguous(lib: Library, rows: seq<Row>, id: nat)
    requires IdsAscending(rows)
    ensures !SelectOne(lib, rows, id).Err? || !SelectOne(lib, rows, id).error.TooManyAccounts?
  {
  }

  /** A successful select-one returns an account with the id asked for,
      decoded from a row of the table whose deleted column is NULL. */
  lemma SelectOneResult(lib: Library, rows: seq<Row>, id: nat)
    requires SelectOne(lib, rows, id).Ok?
    ensures var a := SelectOne(lib, rows, id).value;
      a.id == id && a.deleted.None? && ToRow(a) in rows
  {
  }

  /** The new row an insert of a under the given id writes. */
  function NewRow(id: nat, a: Account): Row {
    ToRow(StoredAccount(id, a, None))
  }

  /** Inserting a row with the next id keeps the table valid. */
  lemma InsertValid(rows: seq<Row>, nextId: nat, a: Account)
    requires TableValid(rows, nextId)
    ensures TableValid(rows + [NewRow(nextId, a)], nextId + 1)
  {
  }

  /** Round trip: after inserting a with the next id, selecting that id
      yields a with that id, not deleted, when the library accepts a. */
  lemma InsertThenSelect(lib: Library, rows: seq<Row>, nextId: nat, a: Account)
    requires TableValid(rows, nextId)
    requires RowAccepted(lib, NewRow(nextId, a))
    ensures SelectOne(lib, rows + [NewRow(nextId, a)], nextId) == Ok(StoredAccount(nextId, a, None))
  {
  }

  /** An update keeps every id, so it keeps the table valid, and it changes
      the name, opened, closed and currency of the rows with that id and
      nothing else: their id and deleted stay, and every other row stays. */
  lemma UpdateFrame(rows: seq<Row>, nextId: nat, id: nat, u: Account)
    requires TableValid(rows, nextId)
    ensures TableValid(Updated(rows, id, u), nextId)
    ensures |Updated(rows, id, u)| == |rows|
    ensures forall i :: 0 <= i < |rows| ==>
      var r := Updated(rows, id, u)[i];
      r.id == rows[i].id && r.deleted == rows[i].deleted &&
      (rows[i].id == id ==> r.name == u.name && r.openedAt == u.openedAt &&
                            r.closed == u.closed && r.currency == u.currency) &&
      (rows[i].id != id ==> r == rows[i])
  {
  }

  /** An update of an id no row has changes nothing, and its RETURNING list
      is empty, so queryAccount reports no accounts. */
  lemma UpdateUnknown(lib: Library, rows: seq<Row>, id: nat, u: Account)
    requires forall x :: x in rows ==> x.id != id
    ensures Updated(rows, id, u) == rows
    ensures Returning(lib, Updated(rows, id, u), id) == Err(NoAccounts)
  {
  }

  /** An update of the row at index k returns that row with its four
      columns overwritten, its id and deleted column kept; the row need not
      be active. */
  lemma UpdateReturns(lib: Library, rows: seq<Row>, nextId: nat, k: nat, u: Account)
    requires TableValid(rows, nextId) && k < |rows|
    ensures Returning(lib, Updated(rows, rows[k].id, u), rows[k].id)
         == DecodeRow(lib, Overwrite(rows[k], u))
  {
    var id := rows[k].id;
    UpdateFrame(rows, nextId, id, u);
    var r := Updated(rows, id, u);
    MatchingAt(r, k);
    QuerySingleRow(lib, r[k]);
  }

  /** Updating the active row with id to u and then selecting id yields u
      under that id, not deleted, when the library accepts u's columns. */
  lemma UpdateThenSelect(lib: Library, rows: seq<Row>, nextId: nat, k: nat, u: Account)
    requires TableValid(rows, nextId) && k < |rows| && rows[k].deleted.None?
    requires RowAccepted(lib, NewRow(rows[k].id, u))
    ensures SelectOne(lib, Updated(rows, rows[k].id, u), rows[k].id)
         == Ok(StoredAccount(rows[k].id, u, None))
  {
    var id := rows[k].id;
    UpdateFrame(rows, nextId, id, u);
    var r := Updated(rows, id, u);
    assert r[k] == NewRow(id, u);
    SelectOneFound(lib, r, k);
    DecodeToRow(lib, StoredAccount(id, u, None));
  }

  /** A soft delete keeps every row: it sets deleted to `now` on the rows
      with that id and changes nothing else, so the table stays valid. */
  lemma DeleteFrame(rows: seq<Row>, nextId: nat, id: nat, now: Time)
    requires TableValid(rows, nextId)
    ensures TableValid(Deleted(rows, id, now), nextId)
    ensures |Deleted(rows, id, now)| == |rows|
    ensures forall i :: 0 <= i < |rows| ==>
      var r := Deleted(rows, id, now)[i];
      (rows[i].id == id ==> r == rows[i].(deleted := Some(now))) &&
      (rows[i].id != id ==> r == rows[i])
  {
  }

  /** The affected-row count of a soft delete is 1 exactly when a row with
      that id exists, whether or not it is already deleted, and 0 otherwise. */
  lemma DeleteCount(rows: seq<Row>, nextId: nat, id: nat)
    requires TableValid(rows, nextId)
    ensures CountId(rows, id) <= 1
    ensures CountId(rows, id) == 1 <==> exists x :: x in rows && x.id == id
  {
    if exists x :: x in rows && x.id == id {
      var x :| x in rows && x.id == id;
      assert x in Matching(rows, id);
    } else {
      MatchingNone(rows, id);
    }
  }

  /** After a soft delete of id, select-one for id fails with no accounts and
      select-all holds no account with that id: the row is logically gone. */
  lemma DeleteThenSelect(lib: Library, rows: seq<Row>, nextId: nat, id: nat, now: Time)
    requires TableValid(rows, nextId)
    ensures SelectOne(lib, Deleted(rows, id, now), id) == Err(NoAccounts)
    ensures SelectAll(lib, Deleted(rows, id, now)).Ok? ==>
      forall a :: a in SelectAll(lib, Deleted(rows, id, now)).value ==> a.id != id
  {
  }

  /** The soft-delete statement does not filter on deleted: deleting an id a
      second time affects the same row again, so it succeeds again. */
  lemma DeleteAgainSucceeds(rows: seq<Row>, nextId: nat, id: nat, now: Time)
    requires TableValid(rows, nextId) && CountId(rows, id) == 1
    ensures CountId(Deleted(rows, id, now), id) == 1
  {
    DeleteCount(rows, nextId, id);
    var x :| x in rows && x.id == id;
    var i :| 0 <= i < |rows| && rows[i] == x;
    DeleteFrame(rows, nextId, id, now);
    var r := Deleted(rows, id, now);
    assert r[i] in r;
    DeleteCount(r, nextId, id);
  }

  /** A soft delete of an id no row has changes nothing and affects no row. */
  lemma DeleteUnknown(rows: seq<Row>, id: nat, now: Time)
    requires forall x :: x in rows ==> x.id != id
    ensures Deleted(rows, id, now) == rows
    ensures CountId(rows, id) == 0
  {
    assert Deleted(rows, id, now) == rows;
    MatchingNone(rows, id);
  }

  // ---------------------------------------------------------------------
  // The repository

  /** The postgres repository over its accounts table. `rows` is the table
      and `nextId` the next value of its id sequence; `lib` is the library
      the rows are decoded with. The connection itself is not modelled. */
  class Postgres {
    const lib: Library
    var rows: seq<Row>
    var nextId: nat

    ghost predicate Valid()
      reads this
    {
      TableValid(rows, nextId)
    }

    /** A repository over an empty table. */
    constructor (lib: Library)
      ensures Valid()
      ensures this.lib == lib && rows == [] && nextId == 1
    {
      this.lib := lib;
      rows := [];
      nextId := 1;
    }

    /** A repository over a table that already holds rows. */
    constructor Open(lib: Library, rows: seq<Row>, nextId: nat)
      requires TableValid(rows, nextId)
      ensures Valid()
      ensures this.lib == lib && this.rows == rows && this.nextId == nextId
    {
      this.lib := lib;
      this.rows := rows;
      this.nextId := nextId;
    }

    /** SelectAccounts: the accounts not deleted, in strictly ascending id
        order; any row that does not decode makes the whole call fail. */
    method SelectAccounts() returns (r: Result<seq<StoredAccount>>)
      requires Valid()
      ensures r == SelectAll(lib, rows)
      ensures r.Ok? ==> AccountIdsAscending(r.value)
      ensures r.Ok? ==> forall a :: a in r.value ==> a.deleted.None? && ToRow(a) in rows
      ensures r.Ok? ==> forall x :: x in rows && x.deleted.None? ==> exists a :: a in r.value && ToRow(a) == x
      ensures r.Ok? <==> forall x :: x in rows && x.deleted.None? ==> RowAccepted(lib, x)
    {
      r := ScanRows(lib, Active(rows));
      SelectAllOk(lib, rows);
      if r.Ok? {
        SelectAllOrdered(lib, rows);
        SelectAllComplete(lib, rows);
      }
    }

    /** SelectAccount: the one account with that id that is not deleted. */
    method SelectAccount(id: nat) returns (r: Result<StoredAccount>)
      requires Valid()
      ensures r == SelectOne(lib, rows, id)
      ensures r.Ok? ==> r.value.id == id && r.value.deleted.None? && ToRow(r.value) in rows
      ensures (forall x :: x in rows && x.id == id ==> x.deleted.Some?) ==> r == Err(NoAccounts)
      ensures forall k :: 0 <= k < |rows| && rows[k].id == id && rows[k].deleted.None? ==>
        r == DecodeRow(lib, rows[k])
      ensures !r.Err? || !r.error.TooManyAccounts?
    {
      var res := ScanRows(lib, Matching(Active(rows), id));
      r := QueryAccount(res);
      if r.Ok? {
        SelectOneResult(lib, rows, id);
      }
      if forall x :: x in rows && x.id == id ==> x.deleted.Some? {
        SelectOneNotFound(lib, rows, id);
      }
      forall k | 0 <= k < |rows| && rows[k].id == id && rows[k].deleted.None?
        ensures r == DecodeRow(lib, rows[k])
      {
        SelectOneFound(lib, rows, k);
      }
      SelectOneNeverAmbiguous(lib, rows, id);
    }

    /** InsertAccount: append a row with a fresh id and the columns of a, and
        return the decoded row. The row is written even when decoding it
        fails. */
    method InsertAccount(a: Account) returns (r: Result<StoredAccount>)
      requires Valid()
      modifies this
      ensures Valid()
      ensures rows == old(rows) + [NewRow(old(nextId), a)] && nextId == old(nextId) + 1
      ensures r == DecodeRow(lib, NewRow(old(nextId), a))
      ensures r.Ok? <==> RowAccepted(lib, NewRow(old(nextId), a))
      ensures r.Ok? ==> r.value == StoredAccount(old(nextId), a, None)
    {
      var row := NewRow(nextId, a);
      InsertValid(rows, nextId, a);
      rows := rows + [row];
      nextId := nextId + 1;
      var res := ScanRows(lib, [row]);
      r := QueryAccount(res);
      QuerySingleRow(lib, row);
      if r.Ok? {
        DecodeToRow(lib, StoredAccount(old(nextId), a, None));
      }
    }

    /** UpdateAccount: overwrite name, opened, closed and currency of the
        row with that id, whether or not it is deleted, and return it. */
    method UpdateAccount(id: nat, updates: Account) returns (r: Result<StoredAccount>)
      requires Valid()
      modifies this
      ensures Valid()
      ensures rows == Updated(old(rows), id, updates) && nextId == old(nextId)
      ensures r == Returning(lib, rows, id)
      ensures (forall x :: x in old(rows) ==> x.id != id) ==> rows == old(rows) && r == Err(NoAccounts)
      ensures r.Ok? ==> r.value.id == id && r.value.account == updates
    {
      UpdateFrame(rows, nextId, id, updates);
      rows := Updated(rows, id, updates);
      var res := ScanRows(lib, Matching(rows, id));
      r := QueryAccount(res);
      if forall x :: x in old(rows) ==> x.id != id {
        UpdateUnknown(lib, old(rows), id, updates);
      }
      if r.Ok? {
        var m := Matching(rows, id);
        assert DecodeRow(lib, m[0]) == Ok(res.value[0]);
        assert m[0] in m;
        var i :| 0 <= i < |rows| && rows[i] == m[0];
      }
    }

    /** DeleteAccount: stamp deleted with `now` on the rows with that id and
        succeed only when exactly one row was affected. */
    method DeleteAccount(id: nat, now: Time) returns (r: Outcome)
      requires Valid()
      modifies this
      ensures Valid()
      ensures rows == Deleted(old(rows), id, now) && nextId == old(nextId)
      ensures r == if CountId(old(rows), id) == 1 then Pass else Fail(AffectedRows(CountId(old(rows), id)))
      ensures r == Pass <==> exists x :: x in old(rows) && x.id == id
    {
      var n := CountId(rows, id);
      DeleteCount(rows, nextId, id);
      DeleteFrame(rows, nextId, id, now);
      rows := Deleted(rows, id, now);
      if n != 1 {
        return Fail(AffectedRows(n));
      }
      return Pass;
    }
  }
}
