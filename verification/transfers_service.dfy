/** Moving money between two accounts of one user
    (internal/services/transfersService.go, ProcessTransfer).
    The steps run as independent writes in this order: look up the source,
    check its funds, look up the destination, Save the debited source, Save
    the credited destination, publish the event, INSERT the log row. A step
    that fails ends the call and leaves every earlier write in place. */
module TransfersService {
  import opened Common
  import opened AccountEntities
  import opened TransactionEntities
  import AR = AccountsRepository
  import TR = TransactionsRepository
  import opened Ledger
  import Funds

  /** Outcomes of the four writes, in the order they are attempted. */
  datatype TransferIo = TransferIo(debitSaveOk: bool, creditSaveOk: bool, publishOk: bool, insertOk: bool)

  const AllSucceed := TransferIo(true, true, true, true)

  /** Both lookups succeed and the source covers the amount: the point from
      which the call starts writing. */
  predicate Admitted(s: State, req: TransferRequest) {
    && Owned(s, req.userId, req.fromAccountId)
    && Balance(s, req.fromAccountId) >= req.amount
    && Owned(s, req.userId, req.toAccountId)
  }

  /** The log row a transfer writes, before the store assigns its id. */
  function Record(req: TransferRequest, now: int): (tx: Transaction)
    ensures tx.id == 0 && tx.createdAt == now
    ensures tx.userId == req.userId && tx.amount == req.amount && tx.kind == req.kind
    ensures tx.fromAccountId == req.fromAccountId && tx.toAccountId == req.toAccountId
    ensures tx.description == req.description
  {
    Transaction(0, req.userId, req.fromAccountId, req.toAccountId, req.amount, req.description, req.kind, now)
  }

  /** Account `id` as a full-row Save writes it back after its balance changed
      by `delta`: owner, type, currency, status and CreatedAt as they were,
      UpdatedAt refreshed. */
  function Moved(s: State, id: nat, delta: int, now: int): (a: Account)
    requires id in s.accounts.rows
    ensures var prior := s.accounts.rows[id];
      && a.id == prior.id && a.userId == prior.userId && a.accountType == prior.accountType
      && a.currency == prior.currency && a.status == prior.status && a.createdAt == prior.createdAt
    ensures a.balance == Balance(s, id) + delta && a.updatedAt == now
  {
    s.accounts.rows[id].(balance := Balance(s, id) + delta, updatedAt := now)
  }

  function ProcessTransfer(s: State, req: TransferRequest, now: int, io: TransferIo): (o: Outcome<Transaction>)
    requires Inv(s)
    ensures Inv(o.after) && TR.Extends(s.log, o.after.log)
    ensures o.after.accounts.rows.Keys == s.accounts.rows.Keys
    ensures forall id :: id in s.accounts.rows && id != req.fromAccountId && id != req.toAccountId ==>
      o.after.accounts.rows[id] == s.accounts.rows[id]
    // Refusals, in the order the checks run; none of them writes anything.
    ensures !Owned(s, req.userId, req.fromAccountId) ==> o.result == Err(NotFound) && o.after == s
    ensures Owned(s, req.userId, req.fromAccountId) && Balance(s, req.fromAccountId) < req.amount ==>
      o.result == Err(InsufficientFunds) && o.after == s
    ensures (Owned(s, req.userId, req.fromAccountId) && Balance(s, req.fromAccountId) >= req.amount
      && !Owned(s, req.userId, req.toAccountId)) ==>
      o.result == Err(NotFound) && o.after == s
    ensures o.result.Ok? <==> Admitted(s, req) && io.debitSaveOk && io.creditSaveOk && io.publishOk && io.insertOk
    // A failed first Save writes nothing and reports the store's error.
    ensures !io.debitSaveOk ==> o.after == s
    ensures Admitted(s, req) && !io.debitSaveOk ==> o.result == Err(StoreFailure)
    // A failed second Save leaves the debit applied and logs nothing.
    ensures Admitted(s, req) && io.debitSaveOk && !io.creditSaveOk ==>
      && o.result == Err(StoreFailure) && o.after.log == s.log
      && o.after.accounts.rows[req.fromAccountId] == Moved(s, req.fromAccountId, -req.amount, now)
      && (req.fromAccountId != req.toAccountId ==> o.after.accounts.rows[req.toAccountId] == s.accounts.rows[req.toAccountId])
    // Both Saves done: the balances have moved, whatever happens next.
    ensures Admitted(s, req) && io.debitSaveOk && io.creditSaveOk && req.fromAccountId != req.toAccountId ==>
      && o.after.accounts.rows[req.fromAccountId] == Moved(s, req.fromAccountId, -req.amount, now)
      && o.after.accounts.rows[req.toAccountId] == Moved(s, req.toAccountId, req.amount, now)
      && Balance(o.after, req.fromAccountId) >= 0
    // Source and destination the same: the credited copy overwrites the debited one.
    ensures Admitted(s, req) && io.debitSaveOk && io.creditSaveOk && req.fromAccountId == req.toAccountId ==>
      o.after.accounts.rows[req.fromAccountId] == Moved(s, req.fromAccountId, req.amount, now)
    // A failed publish or INSERT reports an error and adds no log row.
    ensures Admitted(s, req) && io.debitSaveOk && io.creditSaveOk && !io.publishOk ==>
      o.result == Err(PublishFailure) && o.after.log == s.log
    ensures Admitted(s, req) && io.debitSaveOk && io.creditSaveOk && io.publishOk && !io.insertOk ==>
      o.result == Err(StoreFailure) && o.after.log == s.log
    // Success: exactly one row is logged, and it is the returned transaction,
    // copying the request verbatim.
    ensures o.result.Ok? ==>
      && o.after.log.entries == s.log.entries + [o.result.value]
      && o.result.value == Record(req, now).(id := o.result.value.id)
  {
    match AR.GetByID(s.accounts, req.userId, req.fromAccountId)
    case None => Outcome(Err(NotFound), s)
    case Some(fromAccount) =>
      if fromAccount.balance < req.amount then Outcome(Err(InsufficientFunds), s)
      else
        match AR.GetByID(s.accounts, req.userId, req.toAccountId)
        case None => Outcome(Err(NotFound), s)
        case Some(toAccount) =>
          // Two independent copies: when the ids coincide, both start from the same row.
          var debited := fromAccount.(balance := fromAccount.balance - req.amount);
          var credited := toAccount.(balance := toAccount.balance + req.amount);
          if !io.debitSaveOk then Outcome(Err(StoreFailure), s)
          else
            var afterDebit := s.(accounts := AR.Update(s.accounts, debited, now));
            if !io.creditSaveOk then Outcome(Err(StoreFailure), afterDebit)
            else
              var afterCredit := afterDebit.(accounts := AR.Update(afterDebit.accounts, credited, now));
              if !io.publishOk then Outcome(Err(PublishFailure), afterCredit)
              else if !io.insertOk then Outcome(Err(StoreFailure), afterCredit)
              else
                var ins := TR.Create(s.log, Record(req, now));
                Outcome(Ok(ins.row), afterCredit.(log := ins.log))
  }

  /** Conservation: once both Saves of a transfer between two distinct accounts
      are done, the money held across all accounts is what it was. */
  lemma TransferConservesTotal(s: State, req: TransferRequest, now: int, io: TransferIo)
    requires Inv(s) && req.fromAccountId != req.toAccountId
    requires Admitted(s, req) && io.debitSaveOk && io.creditSaveOk
    ensures Funds.Total(ProcessTransfer(s, req, now, io).after.accounts.rows) == Funds.Total(s.accounts.rows)
  {
    var after := ProcessTransfer(s, req, now, io).after;
    Funds.TotalTwoChanged(s.accounts.rows, after.accounts.rows, req.fromAccountId, req.toAccountId);
  }

  /** The leg that failed: when the second Save fails, the source has been
      debited and nothing was credited, so `amount` leaves the ledger. */
  lemma HalfTransferLosesAmount(s: State, req: TransferRequest, now: int, io: TransferIo)
    requires Inv(s) && req.fromAccountId != req.toAccountId
    requires Admitted(s, req) && io.debitSaveOk && !io.creditSaveOk
    ensures Funds.Total(ProcessTransfer(s, req, now, io).after.accounts.rows) == Funds.Total(s.accounts.rows) - req.amount
  {
    var after := ProcessTransfer(s, req, now, io).after;
    Funds.TotalTwoChanged(s.accounts.rows, after.accounts.rows, req.fromAccountId, req.toAccountId);
  }

  /** Account 1 of user 7 at 10000, account 2 of user 7 empty. */
  const Pair := State(
    AR.AccountTable(map[1 := Account(1, 7, "deposit", "RUB", 10000, Active, 0, 0),
                        2 := Account(2, 7, "deposit", "RUB", 0, Active, 0, 0)], 3),
    TR.TxLog([], 1))

  /** Moving 4000 from account 1 to account 2 leaves 6000 and 4000 and logs one
      internal transaction of 4000. */
  lemma TransferScenario()
    ensures var o := ProcessTransfer(Pair, TransferRequest(7, 1, 2, 4000, "rent", Internal), 5, AllSucceed);
      && o.result.Ok? && Balance(o.after, 1) == 6000 && Balance(o.after, 2) == 4000
      && o.after.log.entries == [o.result.value]
      && o.result.value.kind == Internal && o.result.value.amount == 4000
  {
  }

  /** Funds are checked before the destination is looked up: with too little
      money in the source, a missing destination is not reported. */
  lemma FundsCheckedBeforeDestination()
    ensures var o := ProcessTransfer(Pair, TransferRequest(7, 2, 9, 1, "", External), 5, AllSucceed);
      o.result == Err(InsufficientFunds) && o.after == Pair
  {
  }

  // ----- Findings: transfers to the same account and negative amounts -----

  /** A transfer from an account to itself succeeds and adds `amount` to the
      money in the ledger. */
  lemma SelfTransferCreatesMoney(s: State, req: TransferRequest, now: int)
    requires Inv(s) && req.fromAccountId == req.toAccountId && Admitted(s, req)
    ensures var o := ProcessTransfer(s, req, now, AllSucceed);
      && o.result.Ok?
      && Funds.Total(o.after.accounts.rows) == Funds.Total(s.accounts.rows) + req.amount
  {
    var after := ProcessTransfer(s, req, now, AllSucceed).after;
    Funds.TotalOneChanged(s.accounts.rows, after.accounts.rows, req.fromAccountId);
  }

  /** One account of user 7 holding 100 units. */
  const SingleAccount := State(
    AR.AccountTable(map[1 := Account(1, 7, "deposit", "RUB", 100, Active, 0, 0)], 2),
    TR.TxLog([], 1))

  /** Concrete instance: moving 40 from account 1 to itself leaves it at 140. */
  lemma SelfTransferExample()
    ensures var o := ProcessTransfer(SingleAccount, TransferRequest(7, 1, 1, 40, "", Internal), 5, AllSucceed);
      o.result.Ok? && Balance(o.after, 1) == 140
  {
  }

  /** Two accounts of user 7: account 1 empty, account 2 holding 50 units. */
  const TwoAccounts := State(
    AR.AccountTable(map[1 := Account(1, 7, "deposit", "RUB", 0, Active, 0, 0),
                        2 := Account(2, 7, "deposit", "RUB", 50, Active, 0, 0)], 3),
    TR.TxLog([], 1))

  /** Concrete instance: a transfer of -80 from empty account 1 to account 2
      passes the funds check (0 >= -80) and drives account 2 to -30. */
  lemma NegativeAmountOverdraws()
    ensures var o := ProcessTransfer(TwoAccounts, TransferRequest(7, 1, 2, -80, "", Internal), 5, AllSucceed);
      o.result.Ok? && Balance(o.after, 1) == 80 && Balance(o.after, 2) == -30
  {
  }

  /** The transfer with the validation the ledger needs: a non-positive amount
      or a transfer to the same account is refused before anything is read or
      written; otherwise it proceeds as ProcessTransfer. */
  function ProcessTransferChecked(s: State, req: TransferRequest, now: int, io: TransferIo): (o: Outcome<Transaction>)
    requires Inv(s)
    ensures req.amount <= 0 || req.fromAccountId == req.toAccountId ==>
      o.result == Err(InvalidRequest) && o.after == s
    ensures o.result.Ok? ==> req.amount > 0 && req.fromAccountId != req.toAccountId
    ensures !(req.amount <= 0 || req.fromAccountId == req.toAccountId) ==> o == ProcessTransfer(s, req, now, io)
    ensures Inv(o.after) && TR.Extends(s.log, o.after.log)
  {
    if req.amount <= 0 || req.fromAccountId == req.toAccountId then Outcome(Err(InvalidRequest), s)
    else ProcessTransfer(s, req, now, io)
  }

  /** The intended properties of the checked transfer: when it succeeds, the
      money across all accounts is conserved, and a ledger without negative
      balances stays without them. */
  lemma CheckedTransferKeepsFunds(s: State, req: TransferRequest, now: int, io: TransferIo)
    requires Inv(s)
    requires ProcessTransferChecked(s, req, now, io).result.Ok?
    ensures var after := ProcessTransferChecked(s, req, now, io).after;
      && Funds.Total(after.accounts.rows) == Funds.Total(s.accounts.rows)
      && (Funds.NonNegative(s.accounts.rows) ==> Funds.NonNegative(after.accounts.rows))
  {
    TransferConservesTotal(s, req, now, io);
  }
}
