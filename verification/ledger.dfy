/** The persistent state the services work on: the accounts table and the
    transaction log, plus what a service call returns. */
module Ledger {
  import opened Common
  import AR = AccountsRepository
  import TR = TransactionsRepository

  datatype State = State(accounts: AR.AccountTable, log: TR.TxLog)

  predicate Inv(s: State) {
    AR.Inv(s.accounts) && TR.Inv(s.log)
  }

  /** A service's answer together with the state it leaves behind, whether it
      succeeded or not. */
  datatype Outcome<+T> = Outcome(result: Result<T>, after: State)

  /** The account exists and belongs to the user: what a lookup by owner and id finds. */
  predicate Owned(s: State, userId: nat, id: nat) {
    id in s.accounts.rows && s.accounts.rows[id].userId == userId
  }

  /** The balance of an account that exists. */
  function Balance(s: State, id: nat): int
    requires id in s.accounts.rows
  {
    s.accounts.rows[id].balance
  }
}
