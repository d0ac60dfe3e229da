/** Account operations as state transitions (internal/services/accountsService.go).
    Each store write and the event publish is an input saying whether it
    succeeded; writes are independent, so a later failure does not undo an
    earlier write. */
module AccountsService {
  import opened Common
  import opened AccountEntities
  import opened TransactionEntities
  import AR = AccountsRepository
  import TR = TransactionsRepository
  import opened Ledger
  import Funds

  /** Description of every deposit's log row ("top-up of the account"). */
  const DepositDescription: string := "Пополнение счёта"

  /** Outcomes of the two writes of Create: the INSERT and the event publish. */
  datatype CreateIo = CreateIo(insertOk: bool, publishOk: bool)

  /** Outcomes of the two writes of Deposit: the account Save and the log INSERT. */
  datatype DepositIo = DepositIo(saveOk: bool, insertOk: bool)

  /** The caller's account with that id, or not-found: an account of another
      user is indistinguishable from a missing one. */
  function GetByID(s: State, userId: nat, accountId: nat): (r: Result<Account>)
    requires Inv(s)
    ensures r.Ok? <==> Owned(s, userId, accountId)
    ensures r.Ok? ==> r.value == s.accounts.rows[accountId]
    ensures r.Err? ==> r.error == NotFound
  {
    match AR.GetByID(s.accounts, userId, accountId)
    case Some(a) => Ok(a)
    case None => Err(NotFound)
  }

  /** Opens an account: zero balance, active, owned by the caller. A failed
      INSERT publishes nothing; a failed publish reports an error although the
      account is already stored. */
  function Create(s: State, userId: nat, req: CreateAccountRequest, now: int, io: CreateIo): (o: Outcome<Account>)
    requires Inv(s)
    ensures Inv(o.after) && o.after.log == s.log
    ensures o.result.Ok? <==> io.insertOk && io.publishOk
    ensures !io.insertOk ==> o.result == Err(StoreFailure) && o.after == s
    ensures io.insertOk && !io.publishOk ==> o.result == Err(PublishFailure)
    // A stored account is never touched; a successful INSERT adds exactly one
    // row, under an id not used before, holding the new account.
    ensures forall id :: id in s.accounts.rows ==>
      id in o.after.accounts.rows && o.after.accounts.rows[id] == s.accounts.rows[id]
    ensures io.insertOk ==> |o.after.accounts.rows| == |s.accounts.rows| + 1
    ensures forall id :: id in o.after.accounts.rows && id !in s.accounts.rows ==>
      o.after.accounts.rows[id] == Account(id, userId, req.accountType, req.currency, 0, Active, now, now)
    ensures o.result.Ok? ==>
      && o.result.value.id !in s.accounts.rows
      && o.result.value.id in o.after.accounts.rows
      && o.after.accounts.rows[o.result.value.id] == o.result.value
  {
    var draft := Account(0, userId, req.accountType, req.currency, 0, Active, 0, 0);
    if !io.insertOk then Outcome(Err(StoreFailure), s)
    else
      var c := AR.Create(s.accounts, draft, now);
      var s' := s.(accounts := c.table);
      if !io.publishOk then Outcome(Err(PublishFailure), s')
      else Outcome(Ok(c.row), s')
  }

  /** Credits an owned account. There is no status check, so a closed account
      is credited too. The balance Save happens before the log INSERT, and a
      failed INSERT leaves the credit in place without a log row. */
  function Deposit(s: State, userId: nat, accountId: nat, amount: int, now: int, io: DepositIo): (o: Outcome<Account>)
    requires Inv(s)
    ensures Inv(o.after) && TR.Extends(s.log, o.after.log)
    ensures o.after.accounts.rows.Keys == s.accounts.rows.Keys
    ensures forall id :: id in s.accounts.rows && id != accountId ==>
      o.after.accounts.rows[id] == s.accounts.rows[id]
    // Missing or not owned: an error and no change.
    ensures !Owned(s, userId, accountId) ==>
      o.result == Err(NotFound) && o.after == s
    // A failed Save changes nothing and reports the store's error.
    ensures !io.saveOk ==> o.after == s && o.result.Err?
    ensures Owned(s, userId, accountId) && !io.saveOk ==> o.result == Err(StoreFailure)
    ensures o.result.Ok? <==>
      Owned(s, userId, accountId) && io.saveOk && io.insertOk
    // Once the Save succeeded the credit is in place, whatever the INSERT did.
    ensures Owned(s, userId, accountId) && io.saveOk ==>
      var prior := s.accounts.rows[accountId];
      && o.after.accounts.rows[accountId] == prior.(balance := prior.balance + amount, updatedAt := now)
      && (io.insertOk ==>
            && o.result == Ok(o.after.accounts.rows[accountId])
            && |o.after.log.entries| == |s.log.entries| + 1
            && var tx := o.after.log.entries[|s.log.entries|];
               tx == Transaction(tx.id, userId, 0, accountId, amount, DepositDescription, TransferType.Deposit, now))
      && (!io.insertOk ==> o.result == Err(StoreFailure) && o.after.log == s.log)
  {
    match AR.GetByID(s.accounts, userId, accountId)
    case None => Outcome(Err(NotFound), s)
    case Some(account) =>
      var credited := account.(balance := account.balance + amount);
      if !io.saveOk then Outcome(Err(StoreFailure), s)
      else
        var table := AR.Update(s.accounts, credited, now);
        var tx := Transaction(0, userId, 0, accountId, amount, DepositDescription, TransferType.Deposit, now);
        if !io.insertOk then Outcome(Err(StoreFailure), s.(accounts := table))
        else
          var ins := TR.Create(s.log, tx);
          Outcome(Ok(AR.Touched(credited, now)), State(table, ins.log))
  }

  /** Closes an owned account with a zero balance: only its status (and its
      UpdatedAt) change. Status is not checked, so closing a closed account
      succeeds again. */
  function Delete(s: State, userId: nat, accountId: nat, now: int, saveOk: bool): (o: Outcome<()>)
    requires Inv(s)
    ensures Inv(o.after) && o.after.log == s.log
    ensures o.after.accounts.rows.Keys == s.accounts.rows.Keys
    ensures !Owned(s, userId, accountId) ==>
      o.result == Err(NotFound) && o.after == s
    ensures Owned(s, userId, accountId) && s.accounts.rows[accountId].balance != 0 ==>
      o.result == Err(NonZeroBalance) && o.after == s
    ensures !saveOk ==> o.after == s && o.result.Err?
    ensures Owned(s, userId, accountId) && s.accounts.rows[accountId].balance == 0 && !saveOk ==>
      o.result == Err(StoreFailure)
    ensures o.result.Ok? <==>
      Owned(s, userId, accountId)
      && s.accounts.rows[accountId].balance == 0 && saveOk
    ensures o.result.Ok? ==>
      && o.after.accounts.rows[accountId] == s.accounts.rows[accountId].(status := Closed, updatedAt := now)
      && forall id :: id in s.accounts.rows && id != accountId ==> o.after.accounts.rows[id] == s.accounts.rows[id]
  {
    match AR.GetByID(s.accounts, userId, accountId)
    case None => Outcome(Err(NotFound), s)
    case Some(account) =>
      if account.balance != 0 then Outcome(Err(NonZeroBalance), s)
      else if !saveOk then Outcome(Err(StoreFailure), s)
      else Outcome(Ok(()), s.(accounts := AR.Update(s.accounts, account.(status := Closed), now)))
  }

  /** A successfully opened account is visible to its owner, to no other user,
      and starts with nothing in it. */
  lemma CreatedAccountIsVisible(s: State, userId: nat, otherUser: nat, req: CreateAccountRequest, now: int, io: CreateIo)
    requires Inv(s) && otherUser != userId
    requires Create(s, userId, req, now, io).result.Ok?
    ensures var o := Create(s, userId, req, now, io);
      && GetByID(o.after, userId, o.result.value.id) == Ok(o.result.value)
      && GetByID(o.after, otherUser, o.result.value.id) == Err(NotFound)
      && o.result.value.balance == 0 && o.result.value.status == Active
  {
  }

  /** An empty account of user 7 and an empty log. */
  const FreshLedger := State(
    AR.AccountTable(map[1 := Account(1, 7, "deposit", "RUB", 0, Active, 0, 0)], 2),
    TR.TxLog([], 1))

  /** Depositing 10000 minor units into a fresh account leaves it at 10000 and
      logs one deposit row from the outside (account 0) to account 1. */
  lemma DepositScenario()
    ensures var o := Deposit(FreshLedger, 7, 1, 10000, 3, DepositIo(true, true));
      && o.result.Ok? && Balance(o.after, 1) == 10000
      && |o.after.log.entries| == 1
      && o.after.log.entries[0].kind == TransferType.Deposit
      && o.after.log.entries[0].fromAccountId == 0 && o.after.log.entries[0].toAccountId == 1
      && o.after.log.entries[0].amount == 10000
  {
  }

  /** Once its balance Save succeeds, a deposit adds exactly `amount` to the
      money held across all accounts, whether or not the log row follows; a
      deposit to a missing or foreign account, or a failed Save, adds nothing. */
  lemma DepositAddsToTotal(s: State, userId: nat, accountId: nat, amount: int, now: int, io: DepositIo)
    requires Inv(s)
    ensures var o := Deposit(s, userId, accountId, amount, now, io);
      var credited := Owned(s, userId, accountId) && io.saveOk;
      Funds.Total(o.after.accounts.rows) == Funds.Total(s.accounts.rows) + (if credited then amount else 0)
  {
    var o := Deposit(s, userId, accountId, amount, now, io);
    if o.after != s {
      Funds.TotalOneChanged(s.accounts.rows, o.after.accounts.rows, accountId);
    }
  }

  /** A request that passes the deposit binding rules strictly raises the
      balance of the caller's account once the Save succeeds. */
  lemma ValidDepositRaisesBalance(s: State, userId: nat, req: DepositRequest, now: int, io: DepositIo)
    requires Inv(s) && DepositRequestValid(req) && io.saveOk
    requires Owned(s, userId, req.accountId)
    ensures var o := Deposit(s, userId, req.accountId, req.amount, now, io);
      Balance(o.after, req.accountId) > Balance(s, req.accountId)
  {
  }

  /** A request that passes the create binding rules yields an account whose
      type and currency are both non-empty. */
  lemma ValidCreateNamesAccount(s: State, userId: nat, req: CreateAccountRequest, now: int, io: CreateIo)
    requires Inv(s) && CreateRequestValid(req)
    ensures var o := Create(s, userId, req, now, io);
      o.result.Ok? ==> o.result.value.accountType != "" && o.result.value.currency != ""
  {
  }

  /** Closing an account again, at any later instant, succeeds too and only
      refreshes its UpdatedAt. */
  lemma CloseAgainSucceeds(s: State, userId: nat, accountId: nat, now: int, later: int)
    requires Inv(s)
    requires Delete(s, userId, accountId, now, true).result.Ok?
    ensures var s1 := Delete(s, userId, accountId, now, true).after;
      var o2 := Delete(s1, userId, accountId, later, true);
      && o2.result.Ok?
      && o2.after.log == s1.log && o2.after.accounts.nextId == s1.accounts.nextId
      && o2.after.accounts.rows == s1.accounts.rows[accountId := s1.accounts.rows[accountId].(updatedAt := later)]
  {
  }
}
