/** Transfer kinds, transfer requests, logged transactions and the query filter
    (internal/entities/transactions.go). */
module TransactionEntities {
  import opened Common

  datatype TransferType = Internal | External | Deposit {
    /** The string stored in the `type` column. */
    function Name(): string {
      match this
      case Internal => "internal"
      case External => "external"
      case Deposit => "deposit"
    }
  }

  datatype TransferRequest = TransferRequest(
    userId: nat,
    fromAccountId: nat,
    toAccountId: nat,
    amount: int,
    description: string,
    kind: TransferType)

  /** A row of the transaction log. An id of 0 means "not yet inserted";
      a fromAccountId of 0 means money that came from outside the bank. */
  datatype Transaction = Transaction(
    id: nat,
    userId: nat,
    fromAccountId: nat,
    toAccountId: nat,
    amount: int,
    description: string,
    kind: TransferType,
    createdAt: int)

  /** A query over the log. Absent optional bounds impose no constraint. */
  datatype TransactionFilter = TransactionFilter(
    userId: nat,
    fromDate: Option<int>,
    toDate: Option<int>,
    kind: Option<string>,
    minAmount: Option<int>,
    maxAmount: Option<int>,
    page: int,
    limit: int)

  /** The three stored names are distinct, so a type filter selects exactly one kind. */
  lemma NamesIdentifyKinds(a: TransferType, b: TransferType)
    ensures a.Name() == b.Name() <==> a == b
  {
  }
}
