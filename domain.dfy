/** Values the account repository stores and returns, the kinds of failure it
    reports, and the accounting library whose code is not part of this model. */
module Domain {

  /** A point in time (the source's time.Time), as an exact integer count of
      ticks; precision and time zone are not modelled. */
  type Time = int

  /** A currency code, as the text the repository writes to the currency column. */
  type Code = string

  datatype Option<T> = None | Some(value: T)

  /** account.Account: a named account with an open time, an optional close
      time and a currency. */
  datatype Account = Account(name: string, openedAt: Time, closed: Option<Time>, currency: Code)

  /** storage.Account: an account with the identifier the table assigned to it
      and the time it was soft-deleted, if it was. */
  datatype StoredAccount = StoredAccount(id: nat, account: Account, deleted: Option<Time>)

  /** balance.Balance: an amount recorded at a time, in a currency. */
  datatype Balance = Balance(time: Time, amount: int, currency: Code)

  /** The distinct kinds of failure; the text of the error messages and the
      wrapping chains are not modelled. */
  datatype Error =
    | InvalidCurrency          // currency.NewCode refused the currency column
    | InvalidAccount           // account.New refused name, code and opened
    | InvalidClose             // account.CloseTime refused the closed column
    | InvalidDeleted           // storage.DeletedAt refused the deleted column
    | NoAccounts               // a single-account query returned no rows
    | TooManyAccounts(n: nat)  // a single-account query returned n > 1 rows
    | AffectedRows(n: nat)     // the soft delete touched n != 1 rows
    | Backend                  // no member here produces it: it stands for a failed
                               // balance lookup handed to Model.UpdateAccount
    | InvalidBalance(b: Balance) // the update would make balance b invalid

  datatype Result<T> = Ok(value: T) | Err(error: Error)

  /** The result of an operation that returns only an error (or nil). */
  datatype Outcome = Pass | Fail(error: Error)

  /** The accounting and money libraries, whose source is not part of this
      model: each field says whether one library call succeeds.
      - codeOk(code): currency.NewCode(code) returns a code;
      - newOk(name, code, openedAt): account.New(name, code, openedAt) returns an account;
      - closeOk(a, t): account.CloseTime(t) applied to a succeeds;
      - deletedOk(sa, t): storage.DeletedAt(t) applied to sa succeeds;
      - balanceOk(a, b): a.ValidateBalance(b) returns nil.
      When a call succeeds, the value it builds carries exactly the fields it
      was given. */
  datatype Library = Library(
    codeOk: Code -> bool,
    newOk: (string, Code, Time) -> bool,
    closeOk: (Account, Time) -> bool,
    deletedOk: (StoredAccount, Time) -> bool,
    balanceOk: (Account, Balance) -> bool)
}
