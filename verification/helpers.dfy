/** Turning the query string of a transaction listing into a filter
    (internal/controllers/http/helpers/helpers.go, BuildTransactionFilter).
    Integer, date and amount parsing are done by library code; here each query
    value arrives already classified. */
module Helpers {
  import opened Common
  import opened TransactionEntities
  import TR = TransactionsRepository

  /** One query value: not given (or empty), given but rejected by its parser,
      or parsed. For page and limit, `Parsed(n)` is a decimal integer n; strconv.Atoi
      still refuses one outside Go's `int` with a range error. */
  datatype QueryParam<+T> = Missing | Malformed | Parsed(value: T)

  /** The query string of a listing. `kind` is the raw `type` value, with ""
      for an absent one. Dates are the instants the date parser yields. */
  datatype TransactionQuery = TransactionQuery(
    page: QueryParam<int>,
    limit: QueryParam<int>,
    fromDate: QueryParam<int>,
    toDate: QueryParam<int>,
    kind: string,
    minAmount: QueryParam<int>,
    maxAmount: QueryParam<int>)

  const DefaultPage: int := 1
  const DefaultLimit: int := 20

  const NoQuery := TransactionQuery(Missing, Missing, Missing, Missing, "", Missing, Missing)

  /** A page or limit value replaces the default only when it parsed to a
      positive number within Go's `int`. */
  function PositiveOr(p: QueryParam<int>, default: int): (v: int)
    ensures p.Parsed? && 0 < p.value <= MaxInt ==> v == p.value
    ensures !(p.Parsed? && 0 < p.value <= MaxInt) ==> v == default
  {
    match p
    case Parsed(n) => if 0 < n <= MaxInt then n else default
    case _ => default
  }

  /** A bound is set exactly when its value parsed; a malformed one is dropped. */
  function Bound<T>(p: QueryParam<T>): (o: Option<T>)
    ensures o.Some? <==> p.Parsed?
    ensures o.Some? ==> o.value == p.value
  {
    match p
    case Parsed(v) => Some(v)
    case _ => None
  }

  function BuildTransactionFilter(q: TransactionQuery, userId: nat): (f: TransactionFilter)
    ensures f.userId == userId
    ensures 1 <= f.page <= MaxInt && 1 <= f.limit <= MaxInt
    ensures f.page == (if q.page.Parsed? && 0 < q.page.value <= MaxInt then q.page.value else DefaultPage)
    ensures f.limit == (if q.limit.Parsed? && 0 < q.limit.value <= MaxInt then q.limit.value else DefaultLimit)
    ensures f.kind.Some? <==> q.kind != ""
    ensures f.kind.Some? ==> f.kind.value == q.kind
    ensures f.fromDate.Some? <==> q.fromDate.Parsed?
    ensures f.toDate.Some? <==> q.toDate.Parsed?
    ensures f.minAmount.Some? <==> q.minAmount.Parsed?
    ensures f.maxAmount.Some? <==> q.maxAmount.Parsed?
    ensures f.fromDate.Some? ==> f.fromDate.value == q.fromDate.value
    ensures f.toDate.Some? ==> f.toDate.value == q.toDate.value
    ensures f.minAmount.Some? ==> f.minAmount.value == q.minAmount.value
    ensures f.maxAmount.Some? ==> f.maxAmount.value == q.maxAmount.value
  {
    TransactionFilter(
      userId,
      Bound(q.fromDate),
      Bound(q.toDate),
      if q.kind != "" then Some(q.kind) else None,
      Bound(q.minAmount),
      Bound(q.maxAmount),
      PositiveOr(q.page, DefaultPage),
      PositiveOr(q.limit, DefaultLimit))
  }

  /** With no query parameters: the caller's transactions, first page of 20,
      no other constraint. */
  lemma EmptyQueryDefaults(userId: nat)
    ensures BuildTransactionFilter(NoQuery, userId)
         == TransactionFilter(userId, None, None, None, None, None, 1, 20)
  {
  }

  /** A filter built from any query yields a page of at most `limit` of the
      caller's own transactions. Its offset is `(page - 1) * limit` whenever that
      product fits Go's `int`, and wraps around otherwise. */
  lemma BuiltFilterPages(log: TR.TxLog, q: TransactionQuery, userId: nat)
    ensures var f := BuildTransactionFilter(q, userId);
      && TR.Offset(f) == WrapInt((f.page - 1) * f.limit)
      && (TR.OffsetFits(f) <==> (f.page - 1) * f.limit <= MaxInt)
      && (TR.OffsetFits(f) ==> TR.Offset(f) >= 0)
      && |TR.FindAll(log, f)| <= f.limit
      && forall t :: t in TR.FindAll(log, f) ==> t.userId == userId && t in log.entries
  {
    var f := BuildTransactionFilter(q, userId);
    TR.OffsetIsProduct(f);
    TR.OffsetFitsExactly(f);
  }

  /** The page a caller asks for with `page=2305843009213693953&limit=8`: the
      offset 2^64 wraps to 0 and the first eight matches come back. */
  lemma HugePageWraps(log: TR.TxLog, userId: nat)
    ensures var f := BuildTransactionFilter(NoQuery.(page := Parsed(0x2000_0000_0000_0001), limit := Parsed(8)), userId);
      TR.FindAll(log, f) == TR.FindAll(log, BuildTransactionFilter(NoQuery.(limit := Parsed(8)), userId))
  {
    var f := BuildTransactionFilter(NoQuery.(page := Parsed(0x2000_0000_0000_0001), limit := Parsed(8)), userId);
    TR.WrappedOffsetRepeatsFirstPage(log, f);
  }

  /** With no filter bound set, a transaction matches exactly when it is the caller's. */
  lemma UnboundedQueryMatchesOwner(q: TransactionQuery, userId: nat, t: Transaction)
    requires !q.fromDate.Parsed? && !q.toDate.Parsed? && q.kind == ""
    requires !q.minAmount.Parsed? && !q.maxAmount.Parsed?
    ensures TR.Matches(BuildTransactionFilter(q, userId), t) <==> t.userId == userId
  {
  }
}
