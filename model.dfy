/** The update validator: an account is updated only when every balance
    already recorded against it stays valid under the proposed account. */
module Model {
  import opened Domain
  import opened Rows
  import opened Postgres

  /** UpdateAccount. `bs` is what the storage's SelectAccountBalances(a)
      returned: a failure, a nil list (None) or the list of a's balances.
      Each balance is checked against the proposed `updates`, not against the
      stored `a`; the first balance that fails ends the call with nothing
      written. Only when all pass is the repository's update run for a.id. */
  method UpdateAccount(s: Postgres, bs: Result<Option<seq<Balance>>>, a: StoredAccount, updates: Account)
    returns (r: Result<StoredAccount>)
    requires s.Valid()
    modifies s
    ensures s.Valid()
    ensures bs.Err? ==> r == Err(bs.error) && unchanged(s)
    ensures bs.Ok? && bs.value.Some? && (exists b :: b in bs.value.value && !s.lib.balanceOk(updates, b)) ==>
      r.Err? && r.error.InvalidBalance? && r.error.b in bs.value.value &&
      !s.lib.balanceOk(updates, r.error.b) && unchanged(s)
    ensures bs.Ok? && (bs.value.Some? ==> forall b :: b in bs.value.value ==> s.lib.balanceOk(updates, b)) ==>
      s.rows == Updated(old(s.rows), a.id, updates) && s.nextId == old(s.nextId) &&
      r == Returning(s.lib, s.rows, a.id)
    ensures bs.Ok? && r.Err? && r.error.InvalidBalance? ==>
      && bs.value.Some? && unchanged(s)
      && exists k :: 0 <= k < |bs.value.value| && bs.value.value[k] == r.error.b
           && !s.lib.balanceOk(updates, bs.value.value[k])
           && forall j :: 0 <= j < k ==> s.lib.balanceOk(updates, bs.value.value[j])
  {
    if bs.Err? {
      return Err(bs.error);
    }
    if bs.value.Some? {
      var balances := bs.value.value;
      var i := 0;
      while i < |balances|
        invariant 0 <= i <= |balances|
        invariant forall j :: 0 <= j < i ==> s.lib.balanceOk(updates, balances[j])
      {
        if !s.lib.balanceOk(updates, balances[i]) {
          return Err(InvalidBalance(balances[i]));
        }
        i := i + 1;
      }
    }
    r := s.UpdateAccount(a.id, updates);
  }

  /** A sample balance rule for EndToEnd, standing in for
      Account.ValidateBalance, whose code is not part of this model: the
      balance is in the account's currency and falls within the time the
      account is open. */
  predicate BalanceWithinAccount(a: Account, b: Balance) {
    && b.currency == a.currency
    && a.openedAt <= b.time
    && (a.closed.Some? ==> b.time <= a.closed.value)
  }

  /** An account with a balance dated after it opened: changing its currency
      is refused with nothing written, closing it after the balance is
      accepted, and once deleted it is no longer found. */
  method EndToEnd() {
    var lib := Library(
      (code: Code) => code in {"USD", "EUR"},
      (name: string, code: Code, openedAt: Time) => name != "",
      (inner: Account, t: Time) => inner.openedAt <= t,
      (sa: StoredAccount, t: Time) => true,
      BalanceWithinAccount);
    var s := new Postgres(lib);
    var checking := Account("Checking", 20210101, None, "USD");
    var inserted := s.InsertAccount(checking);
    assert NewRow(1, checking) == Row(1, "Checking", 20210101, None, "USD", None);
    assert RowAccepted(lib, NewRow(1, checking));
    assert inserted == Ok(StoredAccount(1, checking, None));
    var a := inserted.value;
    var balances := Ok(Some([Balance(20210201, 100, "USD")]));

    var inEuros := checking.(currency := "EUR");
    var refused := UpdateAccount(s, balances, a, inEuros);
    assert !lib.balanceOk(inEuros, Balance(20210201, 100, "USD"));
    assert refused == Err(InvalidBalance(Balance(20210201, 100, "USD")));
    assert s.rows == [NewRow(1, checking)];

    var closing := checking.(closed := Some(20210301));
    var updated := UpdateAccount(s, balances, a, closing);
    assert lib.balanceOk(closing, Balance(20210201, 100, "USD"));
    UpdateReturns(lib, [NewRow(1, checking)], 2, 0, closing);
    assert Overwrite(NewRow(1, checking), closing) == NewRow(1, closing);
    assert RowAccepted(lib, NewRow(1, closing));
    DecodeToRow(lib, StoredAccount(1, closing, None));
    assert updated == Ok(StoredAccount(1, closing, None));

    assert s.rows == [NewRow(1, closing)];
    var deleted := s.DeleteAccount(1, 20220101);
    assert deleted == Pass;
    var found := s.SelectAccount(1);
    DeleteThenSelect(lib, [NewRow(1, closing)], 2, 1, 20220101);
    assert found == Err(NoAccounts);
  }
}
