/** Rows of the accounts table and their decoding into stored accounts:
    scanRowsForAccounts and queryAccount. */
module Rows {
  import opened Domain

  /** One row of the accounts table, in the column order of every SELECT and
      RETURNING list: id, name, opened, closed, currency, deleted. A NULL
      column is None. The currency column holds text that has not yet been
      checked as a currency code. */
  datatype Row = Row(id: nat, name: string, openedAt: Time, closed: Option<Time>,
                     currency: string, deleted: Option<Time>)

  /** The columns a stored account is written to. */
  function ToRow(sa: StoredAccount): Row {
    Row(sa.id, sa.account.name, sa.account.openedAt, sa.account.closed,
        sa.account.currency, sa.deleted)
  }

  /** The account account.New builds from a row, before a close time is applied. */
  function Inner(row: Row): Account {
    Account(row.name, row.openedAt, None, row.currency)
  }

  /** The stored account a row holds, before a deleted time is applied. */
  function Undeleted(row: Row): StoredAccount {
    StoredAccount(row.id, Account(row.name, row.openedAt, row.closed, row.currency), None)
  }

  /** Every library call made while decoding the row succeeds: the code, the
      account, the close time when closed is not NULL, and the deleted time
      when deleted is not NULL. */
  predicate RowAccepted(lib: Library, row: Row) {
    && lib.codeOk(row.currency)
    && lib.newOk(row.name, row.currency, row.openedAt)
    && (row.closed.Some? ==> lib.closeOk(Inner(row), row.closed.value))
    && (row.deleted.Some? ==> lib.deletedOk(Undeleted(row), row.deleted.value))
  }

  /** The body of the scanning loop for one row: build the code, then the
      account, then apply the close time and the deleted time, each only when
      its column is not NULL; the first failing step decides the error. */
  function DecodeRow(lib: Library, row: Row): (r: Result<StoredAccount>)
    ensures r.Ok? <==> RowAccepted(lib, row)
    ensures r.Ok? ==> ToRow(r.value) == row
    ensures r == Err(InvalidCurrency) <==> !lib.codeOk(row.currency)
    ensures r.Err? ==> r.error in {InvalidCurrency, InvalidAccount, InvalidClose, InvalidDeleted}
  {
    if !lib.codeOk(row.currency) then Err(InvalidCurrency)
    else if !lib.newOk(row.name, row.currency, row.openedAt) then Err(InvalidAccount)
    else if row.closed.Some? && !lib.closeOk(Inner(row), row.closed.value) then Err(InvalidClose)
    else
      var a := Undeleted(row);
      if row.deleted.None? then Ok(a)
      else if !lib.deletedOk(a, row.deleted.value) then Err(InvalidDeleted)
      else Ok(a.(deleted := row.deleted))
  }

  /** Decoding is lossless: a stored account whose columns the library accepts
      decodes back from its row. */
  lemma DecodeToRow(lib: Library, sa: StoredAccount)
    requires RowAccepted(lib, ToRow(sa))
    ensures DecodeRow(lib, ToRow(sa)) == Ok(sa)
  {
  }

  /** What scanning rs yields: either one decoded account per row, in row
      order, or the error of the first row that does not decode. */
  ghost predicate ScanOutcome(lib: Library, rs: seq<Row>, res: Result<seq<StoredAccount>>) {
    match res
    case Ok(accounts) =>
      |accounts| == |rs| && forall i :: 0 <= i < |rs| ==> DecodeRow(lib, rs[i]) == Ok(accounts[i])
    case Err(e) =>
      exists k :: 0 <= k < |rs| && DecodeRow(lib, rs[k]) == Err(e) &&
        forall j :: 0 <= j < k ==> DecodeRow(lib, rs[j]).Ok?
  }

  /** A scan outcome is a success exactly when every row decodes. */
  lemma ScanOutcomeOk(lib: Library, rs: seq<Row>, res: Result<seq<StoredAccount>>)
    requires ScanOutcome(lib, rs, res)
    ensures res.Ok? <==> forall i :: 0 <= i < |rs| ==> DecodeRow(lib, rs[i]).Ok?
  {
  }

  /** A scan has only one outcome. */
  lemma ScanOutcomeUnique(lib: Library, rs: seq<Row>, r1: Result<seq<StoredAccount>>, r2: Result<seq<StoredAccount>>)
    requires ScanOutcome(lib, rs, r1) && ScanOutcome(lib, rs, r2)
    ensures r1 == r2
  {
    ScanOutcomeOk(lib, rs, r1);
    ScanOutcomeOk(lib, rs, r2);
    if r1.Ok? {
      forall i | 0 <= i < |rs| ensures r1.value[i] == r2.value[i] {
        assert DecodeRow(lib, rs[i]) == Ok(r1.value[i]);
      }
      assert r1.value == r2.value;
    } else {
      var k1 :| 0 <= k1 < |rs| && DecodeRow(lib, rs[k1]) == Err(r1.error) &&
        forall j :: 0 <= j < k1 ==> DecodeRow(lib, rs[j]).Ok?;
      var k2 :| 0 <= k2 < |rs| && DecodeRow(lib, rs[k2]) == Err(r2.error) &&
        forall j :: 0 <= j < k2 ==> DecodeRow(lib, rs[j]).Ok?;
      assert k1 == k2;
    }
  }

  /** The meaning of scanRowsForAccounts over the rows a statement returned. */
  function DecodeAll(lib: Library, rs: seq<Row>): (res: Result<seq<StoredAccount>>)
    ensures ScanOutcome(lib, rs, res)
    decreases |rs|
  {
    if rs == [] then Ok([])
    else
      match DecodeRow(lib, rs[0])
      case Err(e) => Err(e)
      case Ok(a) =>
        match DecodeAll(lib, rs[1..])
        case Err(e) =>
          ghost var k :| 0 <= k < |rs| - 1 && DecodeRow(lib, rs[1..][k]) == Err(e) &&
            forall j :: 0 <= j < k ==> DecodeRow(lib, rs[1..][j]).Ok?;
          assert DecodeRow(lib, rs[k + 1]) == Err(e);
          Err(e)
        case Ok(rest) =>
          assert forall i :: 1 <= i < |rs| ==> DecodeRow(lib, rs[i]) == Ok(rest[i - 1]) by {
            forall i | 1 <= i < |rs| ensures DecodeRow(lib, rs[i]) == Ok(rest[i - 1]) {
              assert rs[i] == rs[1..][i - 1];
            }
          }
          Ok([a] + rest)
  }

  /** A scan succeeds exactly when every row decodes. */
  lemma DecodeAllOk(lib: Library, rs: seq<Row>)
    ensures DecodeAll(lib, rs).Ok? <==> forall i :: 0 <= i < |rs| ==> RowAccepted(lib, rs[i])
  {
  }

  /** A successful scan gives back one account per row, and each account
      writes back to its row. */
  lemma DecodedRows(lib: Library, rs: seq<Row>)
    requires DecodeAll(lib, rs).Ok?
    ensures var accounts := DecodeAll(lib, rs).value;
      |accounts| == |rs| && forall i :: 0 <= i < |rs| ==> ToRow(accounts[i]) == rs[i]
  {
  }

  /** scanRowsForAccounts: decode the rows one by one in order, appending
      each account, and give up with no accounts at the first row that fails. */
  method ScanRows(lib: Library, rs: seq<Row>) returns (res: Result<seq<StoredAccount>>)
    ensures ScanOutcome(lib, rs, res)
    ensures res == DecodeAll(lib, rs)
  {
    var openAccounts: seq<StoredAccount> := [];
    var i := 0;
    while i < |rs|
      invariant 0 <= i <= |rs|
      invariant |openAccounts| == i
      invariant forall j :: 0 <= j < i ==> DecodeRow(lib, rs[j]) == Ok(openAccounts[j])
    {
      var d := DecodeRow(lib, rs[i]);
      if d.Err? {
        res := Err(d.error);
        ScanOutcomeUnique(lib, rs, res, DecodeAll(lib, rs));
        return;
      }
      openAccounts := openAccounts + [d.value];
      i := i + 1;
    }
    res := Ok(openAccounts);
    ScanOutcomeUnique(lib, rs, res, DecodeAll(lib, rs));
  }

  /** queryAccount: a failed scan is passed on; otherwise the statement must
      have returned exactly one account, which is the result. */
  function QueryAccount(res: Result<seq<StoredAccount>>): (r: Result<StoredAccount>)
    ensures r.Ok? <==> res.Ok? && |res.value| == 1
    ensures r.Ok? ==> r.value == res.value[0]
    ensures res.Err? ==> r == Err(res.error)
    ensures res.Ok? && res.value == [] ==> r == Err(NoAccounts)
    ensures res.Ok? && |res.value| > 1 ==> r == Err(TooManyAccounts(|res.value|))
  {
    match res
    case Err(e) => Err(e)
    case Ok(accounts) =>
      if |accounts| == 0 then Err(NoAccounts)
      else if |accounts| > 1 then Err(TooManyAccounts(|accounts|))
      else Ok(accounts[0])
  }

  /** Querying a single row yields exactly that row's decoding. */
  lemma QuerySingleRow(lib: Library, row: Row)
    ensures QueryAccount(DecodeAll(lib, [row])) == DecodeRow(lib, row)
  {
  }
}
