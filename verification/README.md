# Ledger core of bank-app-backend, in Dafny

This project models the sequential core of a retail-banking backend written in Go:
accounts with balances, deposits, account opening and closing, transfers between two
accounts of one user, and the append-only transaction log with its filtered,
newest-first, paginated query. It also covers the filter normaliser that feeds that
query, and the small user read/patch and response projections.

The model is functional. The persistent state (`Ledger.State`) has two parts:
- the accounts table, a `map<nat, Account>` keyed by the auto-increment `ID`, with
  gorm's counter for it;
- the transaction log, a `seq<Transaction>` with its own counter.

Every service is a pure function from a state and its inputs to an `Outcome`. The
outcome holds the result (`Ok` or `Err(kind)`) and the state left behind. The source
performs each store write and each event publish as an independent call. The model
therefore takes one boolean per write and per publish (`TransferIo`, `DepositIo`,
`CreateIo`, `saveOk`), saying whether that call succeeded. A failure ends the
operation but keeps every earlier write, as the source does. Nothing is made atomic.

Conventions:
- Money is `int` minor units; identifiers are `nat`.
- Timestamps are `int` instants. Each operation takes a `now` parameter in place of
  the clock. It is used both for `time.Now()` and for gorm's automatic
  `CreatedAt`/`UpdatedAt`.
- Account status is `Active | Closed`, the only two strings the code writes.
- The stored type name of a transfer kind is `TransferType.Name()`.
- The `accounts` table's primary key is the pair (`ID`, `UserID`)
  (internal/entities/accounts.go:9-10), yet a map keyed by `ID` alone is faithful:
  every insert takes a fresh `ID` from the auto-increment sequence, so no two rows
  share one, and every Save writes back a row just loaded by `ID` and owner, so the
  owner never changes and gorm's match on both columns finds that same row.
- The services require `Ledger.Inv`: every row sits under its own `ID`, and ids lie
  below the auto-increment counters. The sequence guarantees this, not a demand on
  callers. Every operation keeps it.

A hardened ledger would validate amounts, refuse closed accounts and group the writes
of one operation atomically. The code does none of this, and the model follows the code:
- a deposit to a closed account succeeds;
- a transfer does not validate its amount and does not reject a transfer from an
  account to itself;
- writes are not atomic;
- a failed publish still reports an error after the balances were written.

## Model

| member | source | states |
|---|---|---|
| AccountEntities.ToResponse | internal/entities/accounts.go:63-72 | the response copies ID, UserID, Type, Currency, Balance and Status unchanged |
| AccountEntities.ResponseForgetsOnlyTimestamps | internal/entities/accounts.go:36-46 | two accounts have equal responses if and only if they agree on every column except the timestamps |
| AccountEntities.AccountsToResponse | internal/entities/accounts.go:74-80 | the output has the input's length, and element i is the response of input element i |
| TransactionEntities.NamesIdentifyKinds | internal/entities/transactions.go:5-11 | the three stored type names are pairwise distinct, so a type filter selects exactly one kind |
| UserEntities.ToResponse | internal/entities/users.go:30-36 | the response copies ID, Email and Username |
| UserEntities.ResponseHidesPassword | internal/entities/users.go:13-20 | users that differ only in their password have the same response, and equal responses mean the users differ at most in password |
| UserEntities.UsersToResponse | internal/entities/users.go:38-45 | the output has the input's length, and element i is the response of input element i |
| AccountsRepository.GetByID | internal/repository/accountsRepository.go:34-44 | an account is returned exactly when a row with that id exists and its UserID matches; the returned row has both the requested id and owner |
| AccountsRepository.GetAll | internal/repository/accountsRepository.go:24-32 | the result holds every stored row of the user, only rows of that user, and each row at most once |
| AccountsRepository.Create | internal/repository/accountsRepository.go:46-52 | the insert puts the row under an id not present before, stamps both timestamps and keeps the table well-formed |
| AccountsRepository.CreatedRowIsFound | internal/repository/accountsRepository.go:34-52 | a row just inserted is found by its owner under its new id |
| AccountsRepository.SavedRowIsFound | internal/repository/accountsRepository.go:34-56 | after a Save, the owner's lookup returns the saved record and every other lookup is unchanged |
| AccountsRepository.Update | internal/repository/accountsRepository.go:54-56 | the Save replaces the row with the record's id by the whole record (UpdatedAt refreshed) and leaves every other row untouched |
| TransactionsRepository.Create | internal/repository/transactionsRepository.go:25-27 | the insert only appends; the new row is the given one with an id larger than every id already logged |
| TransactionsRepository.FindByID | internal/repository/transactionsRepository.go:60-67 | an entry is returned exactly when one with that id exists, and it is the only entry with that id; otherwise not-found |
| TransactionsRepository.FindAfterCreate | internal/repository/transactionsRepository.go:9-13 | after an insert the new row is found under its id, and every other id finds what it found before, so logged rows never change |
| TransactionsRepository.Select | internal/repository/transactionsRepository.go:31-47 | an entry is selected if and only if it is logged and satisfies the owner, type, inclusive date and inclusive amount conditions that are set |
| TransactionsRepository.SortNewestFirst | internal/repository/transactionsRepository.go:52 | the output is ordered by CreatedAt descending and is a permutation of the input |
| TransactionsRepository.Ordered | internal/repository/transactionsRepository.go:29-52 | the matching entries, newest first: every entry in it is logged and matches the filter |
| TransactionsRepository.OrderedHoldsExactlyMatches | internal/repository/transactionsRepository.go:29-52 | no match is lost: an entry is in the ordered sequence if and only if it is logged and matches |
| TransactionsRepository.OffsetIsProduct | internal/repository/transactionsRepository.go:50 | the offset is (Page - 1) * Limit as Go's 64-bit `int` computes it, wrapping around past MaxInt |
| TransactionsRepository.Offset | internal/repository/transactionsRepository.go:49-50 | the offset lies within Go's `int`, and is non-negative whenever Page and Limit are at least 1 and the product does not wrap |
| TransactionsRepository.OffsetFitsExactly | internal/repository/transactionsRepository.go:50 | the product does not wrap exactly when Page and Limit are at least 1 and (Page - 1) * Limit is at most MaxInt |
| TransactionsRepository.OffsetWhenItFits | internal/repository/transactionsRepository.go:50 | without wrap-around the offset is the exact product (Page - 1) * Limit |
| TransactionsRepository.WrappedOffsetRepeatsFirstPage | internal/repository/transactionsRepository.go:50-55 | page 2^61+1 with limit 8 gives the offset 2^64, which wraps to 0, so gorm writes no OFFSET and the first page comes back |
| TransactionsRepository.SelectIgnoresPaging | internal/repository/transactionsRepository.go:29-47 | the page number takes no part in which entries match |
| TransactionsRepository.Window | internal/repository/transactionsRepository.go:52-55 | the page has at most Limit entries, starts at the offset and keeps the order of the sequence it is cut from |
| TransactionsRepository.FindAll | internal/repository/transactionsRepository.go:29-58 | every result is logged, matches the filter and has UserID equal to the filter's; results are newest first; there are at most Limit of them |
| TransactionsRepository.FindAllPage | internal/repository/transactionsRepository.go:49-55 | when (p-1)*Limit does not wrap, page p is the run of the ordered matches starting at index (p-1)*Limit, as long as the limit and the remaining matches allow |
| TransactionsRepository.FirstPageHoldsAllMatches | internal/repository/transactionsRepository.go:49-55 | a first page at least as large as the number of matches returns every match, with multiplicity |
| Helpers.PositiveOr | internal/controllers/http/helpers/helpers.go:34-43 | a page or limit value replaces the default only when it parsed to a positive number within Go's `int` (strconv.Atoi refuses larger ones) |
| Helpers.Bound | internal/controllers/http/helpers/helpers.go:45-71 | a date or amount bound is set exactly when its value parsed; a malformed value leaves it absent |
| Helpers.BuildTransactionFilter | internal/controllers/http/helpers/helpers.go:27-74 | the filter has the caller's UserID, Page and Limit between 1 and MaxInt, a Type exactly when the type query is non-empty, and each date or amount bound exactly when its value parsed, holding that value |
| Helpers.EmptyQueryDefaults | internal/controllers/http/helpers/helpers.go:28-32 | with no query parameters the filter is the caller's, page 1, limit 20, no bounds |
| Helpers.BuiltFilterPages | internal/controllers/http/helpers/helpers.go:34-43 | a built filter's offset is the wrapped product (Page - 1) * Limit, non-negative when the product fits Go's `int`, and the page holds at most Limit of the caller's own logged transactions |
| Helpers.HugePageWraps | internal/controllers/http/helpers/helpers.go:34-43 | the query page=2305843009213693953&limit=8 passes the page check and returns the same transactions as the first page of 8 |
| Helpers.UnboundedQueryMatchesOwner | internal/controllers/http/helpers/helpers.go:45-71 | with no bound in the query, a transaction matches exactly when it belongs to the caller |
| AccountsService.GetByID | internal/services/accountsService.go:51-60 | the caller's account with that id, or not-found; another user's account is reported as not-found |
| AccountsService.Create | internal/services/accountsService.go:62-81 | the new account has the caller's UserID, the requested Type and Currency, balance 0 and status active, under a fresh id; a failed insert is an error with nothing written and no publish; a failed publish is an error with the account already stored |
| AccountsService.Deposit | internal/services/accountsService.go:83-112 | on an owned account (any status) the balance rises by exactly amount and no other account changes; one log row is appended with From 0, To the account, the caller, the amount and type deposit; missing or not owned gives not-found with no change; a failed balance Save reports the store error and changes nothing; a failed log insert keeps the credit and returns an error |
| AccountsService.Delete | internal/services/accountsService.go:114-134 | not owned gives not-found, a non-zero balance gives an error, both without change; a failed Save reports the store error and changes nothing; otherwise the status becomes closed, only UpdatedAt also changes, and no other account is touched |
| AccountsService.CreatedAccountIsVisible | internal/services/accountsService.go:62-81 | a successfully opened account is found by its owner, not by any other user, and starts empty and active |
| AccountsService.DepositScenario | internal/services/accountsService.go:83-112 | depositing 10000 into a fresh account leaves it at 10000 and logs one deposit row from account 0 to it |
| AccountsService.DepositAddsToTotal | internal/services/accountsService.go:84-95 | on an account the caller owns, once the balance Save succeeds, the money across all accounts grows by exactly the amount; otherwise it is unchanged |
| AccountsService.ValidDepositRaisesBalance | internal/entities/accounts.go:51-54 | a deposit request that passes its binding rules strictly raises the balance of an owned account |
| AccountsService.ValidCreateNamesAccount | internal/entities/accounts.go:22-25 | a create request that passes its binding rules yields an account with non-empty type and currency |
| AccountsService.CloseAgainSucceeds | internal/services/accountsService.go:114-133 | closing an already closed account again, at any later instant, succeeds and only refreshes its UpdatedAt |
| TransfersService.Record | internal/services/transfersService.go:58-66 | the logged transaction copies From, To, User, Amount, Description and Type verbatim from the request |
| TransfersService.ProcessTransfer | internal/services/transfersService.go:33-78 | the checks fail in order (source not found, insufficient funds, destination not found) and change nothing; each Save writes back the whole loaded row with only Balance changed and UpdatedAt refreshed, so owner, type, currency, status and CreatedAt are kept; for distinct accounts, after both Saves the source drops and the destination rises by exactly amount and the source is non-negative; for one account the credited copy overwrites the debited one; a failed first Save reports the store error and writes nothing; a failed second Save reports the store error and leaves the debit in place; a failed publish or insert leaves both Saves and logs nothing; success appends exactly the returned row; other accounts never change |
| TransfersService.TransferConservesTotal | internal/services/transfersService.go:48-56 | once both Saves of a transfer between distinct accounts are done, the money across all accounts is unchanged |
| TransfersService.HalfTransferLosesAmount | internal/services/transfersService.go:51-56 | when the second Save fails, the money across all accounts drops by the amount |
| TransfersService.TransferScenario | internal/services/transfersService.go:33-78 | moving 4000 from an account at 10000 to an empty one leaves 6000 and 4000 and logs exactly the returned internal transaction |
| TransfersService.FundsCheckedBeforeDestination | internal/services/transfersService.go:39-46 | with too little money in the source, the funds error is reported even though the destination does not exist, and nothing changes |
| TransfersService.SelfTransferCreatesMoney | internal/services/transfersService.go:34-56 | a transfer from an account to itself succeeds and adds the amount to the money in the ledger |
| TransfersService.SelfTransferExample | internal/services/transfersService.go:43-56 | moving 40 from an account holding 100 to itself leaves it at 140 |
| TransfersService.NegativeAmountOverdraws | internal/services/transfersService.go:39-49 | a transfer of -80 from an empty account passes the funds check and drives the destination from 50 to -30 |
| TransfersService.ProcessTransferChecked | internal/services/transfersService.go:33-78 | the corrected transfer refuses a non-positive amount or a transfer to the same account before touching anything, and otherwise returns exactly what ProcessTransfer returns |
| TransfersService.CheckedTransferKeepsFunds | internal/services/transfersService.go:39-56 | a successful corrected transfer conserves the money across all accounts and keeps every balance non-negative if all were |
| UsersService.Me | internal/services/usersService.go:24-30 | the user with that id, or not-found when absent |
| UsersService.Patch | internal/services/usersService.go:47-52 | a present Email or Username overwrites the stored one, an absent one keeps it; ID and Password are kept |
| UsersService.Update | internal/services/usersService.go:41-59 | a missing user is an error with no write; otherwise the patched row is saved under the same id with ID and Password unchanged; a failed Save reports the store error and changes nothing |
| UsersService.MeAfterUpdate | internal/services/usersService.go:24-59 | after a successful update, reading the user back returns the patched row |
| UsersService.UpdateIdempotent | internal/services/usersService.go:41-59 | sending the same patch twice has the effect of sending it once |
| UsersService.EmptyPatchChangesNothing | internal/services/usersService.go:47-56 | a patch with no fields writes the row back unchanged |

## Findings

| source | as written | input that shows it | evidently intended | confidence | as-written member | corrected member |
|---|---|---|---|---|---|---|
| internal/services/transfersService.go:34-56 | source and destination are loaded as two independent copies, and both are saved | from = to = 1, balance 100, amount 40: succeeds, balance becomes 140 | a transfer to the same account is refused and no money is created | not executed; high | TransfersService.SelfTransferCreatesMoney | TransfersService.ProcessTransferChecked |
| internal/services/transfersService.go:39-49 | the only guard is `balance < amount`; the sign of the amount is never checked | account 1 at 0, account 2 at 50, amount -80 from 1 to 2: succeeds, account 2 ends at -30 | a non-positive amount is refused, so no balance goes negative | not executed; high | TransfersService.NegativeAmountOverdraws | TransfersService.ProcessTransferChecked |

`TransfersService.CheckedTransferKeepsFunds` proves what the corrected transfer was meant to
guarantee: conservation of the total, and that no balance becomes negative.

## Left out

- HTTP handlers, routing and middleware are not modelled. Several handlers do not
  return after writing an error, which is request plumbing, not ledger logic.
- Authentication, tokens and refresh-token storage are not modelled; they are library
  calls (JWT, bcrypt, gorm).
- Event publishing is reduced to a success/failure input. The event's key and payload
  are not modelled.
- Redis, logging, metrics, the server and process lifecycle are not modelled; they are
  I/O.
- `AccountsService.GetAll` and the users service's `GetAll` are not modelled. They are
  pass-throughs that only wrap read errors. The repository's `GetAll` is modelled.
- The transactions service is a pass-through to the repository. The repository is
  modelled directly.
- Read failures are not modelled. Every lookup is a pure read of the state, and any
  lookup failure is the not-found error. This includes `Deposit`'s path that goes on
  with a nil account after an unexpected read error.
- Concurrency, locking and database transactions are absent from the source. The
  model is sequential.
- Money is `float64` in the source and integer minor units here. Floating-point
  rounding is not reproduced.
- Date and number parsing (`time.Parse`, `strconv`) is library code. Each query value
  arrives already classified as missing, malformed or parsed.
- gorm's handling of a non-positive LIMIT is library behaviour. `Window` omits the
  LIMIT clause in that case. The only caller, `BuildTransactionFilter`, always passes
  a limit of at least 1.
- Go's `uint` identifiers are unbounded `nat` here. Counter overflow is not modelled.
  Go's `int` wrap-around is modelled where it can bite: the page offset `(Page - 1) * Limit`.
- TransactionsRepository.SortNewestFirst: entries with equal CreatedAt keep their
  insertion order. `ORDER BY created_at desc` leaves that order to the database, which
  may pick a different one on each request.
- TransactionsRepository.FindAllPage: states each page for that one tie order. In the
  source, two requests for consecutive pages can order tied rows differently, so
  pages may overlap on tied rows or skip some; the model does not show this.
- A gorm Save of a record whose id is not in the table inserts it. The services only
  save rows they have just loaded, so that case is not exercised.
- All writes of one operation share one `now` timestamp.
