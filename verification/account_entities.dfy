/** Accounts, the requests that create and fund them, and their public projection
    (internal/entities/accounts.go). Money is held in integer minor units. */
module AccountEntities {

  datatype AccountStatus = Active | Closed

  /** A stored account row. The timestamps are the row's gorm-managed
      CreatedAt/UpdatedAt, as abstract instants. */
  datatype Account = Account(
    id: nat,
    userId: nat,
    accountType: string,
    currency: string,
    balance: int,
    status: AccountStatus,
    createdAt: int,
    updatedAt: int)

  /** What the API returns for an account: every column but the timestamps. */
  datatype AccountResponse = AccountResponse(
    id: nat,
    userId: nat,
    accountType: string,
    currency: string,
    balance: int,
    status: AccountStatus)

  datatype CreateAccountRequest = CreateAccountRequest(accountType: string, currency: string)

  datatype DepositRequest = DepositRequest(accountId: nat, amount: int)

  /** The binding rules of CreateAccountRequest: both fields are `required`,
      which for a string means non-empty. */
  predicate CreateRequestValid(req: CreateAccountRequest) {
    req.accountType != "" && req.currency != ""
  }

  /** The binding rules of DepositRequest: `required` on the account id
      (non-zero) and `required,gt=0` on the amount. */
  predicate DepositRequestValid(req: DepositRequest) {
    req.accountId != 0 && req.amount > 0
  }

  /** Two rows that differ at most in their timestamps. */
  predicate SameButTimestamps(a: Account, b: Account) {
    a.(createdAt := 0, updatedAt := 0) == b.(createdAt := 0, updatedAt := 0)
  }

  function ToResponse(a: Account): (r: AccountResponse)
    ensures r.id == a.id && r.userId == a.userId
    ensures r.accountType == a.accountType && r.currency == a.currency
    ensures r.balance == a.balance && r.status == a.status
  {
    AccountResponse(a.id, a.userId, a.accountType, a.currency, a.balance, a.status)
  }

  /** The projection forgets exactly the timestamps: two rows have the same
      response if and only if they agree on every other column. */
  lemma ResponseForgetsOnlyTimestamps(a: Account, b: Account)
    ensures ToResponse(a) == ToResponse(b) <==> SameButTimestamps(a, b)
  {
  }

  /** Projects a list of accounts, one response per account, in order. */
  function AccountsToResponse(accounts: seq<Account>): (r: seq<AccountResponse>)
    ensures |r| == |accounts|
    ensures forall i :: 0 <= i < |accounts| ==> r[i] == ToResponse(accounts[i])
  {
    if accounts == [] then []
    else [ToResponse(accounts[0])] + AccountsToResponse(accounts[1..])
  }
}
