/** The transaction log: insert-only storage with an auto-increment id, a
    filtered, time-ordered, paginated query and a lookup by id
    (internal/repository/transactionsRepository.go). The repository exposes
    no update or delete, so the only way the log changes is `Create`. */
module TransactionsRepository {
  import opened Common
  import opened TransactionEntities

  datatype TxLog = TxLog(entries: seq<Transaction>, nextId: nat)

  /** Ids are positive, strictly increasing in insertion order, and below the counter. */
  predicate Inv(log: TxLog) {
    && log.nextId >= 1
    && (forall i :: 0 <= i < |log.entries| ==> 1 <= log.entries[i].id < log.nextId)
    && (forall i, j :: 0 <= i < j < |log.entries| ==> log.entries[i].id < log.entries[j].id)
  }

  /** The log only grows at its end: every earlier entry is kept as it was. */
  predicate Extends(before: TxLog, after: TxLog) {
    before.entries <= after.entries
  }

  datatype Inserted = Inserted(row: Transaction, log: TxLog)

  /** INSERT: the row gets an id larger than every id already in the log and
      is appended; nothing already logged changes. */
  function Create(log: TxLog, tx: Transaction): (ins: Inserted)
    requires Inv(log)
    ensures ins.row == tx.(id := ins.row.id)
    ensures ins.log.entries == log.entries + [ins.row]
    ensures forall i :: 0 <= i < |log.entries| ==> log.entries[i].id < ins.row.id
    ensures Inv(ins.log)
  {
    var row := tx.(id := log.nextId);
    Inserted(row, TxLog(log.entries + [row], log.nextId + 1))
  }

  // ----- FindByID -----

  /** First entry with the given id, scanning in insertion order. */
  function Search(entries: seq<Transaction>, id: nat): (r: Result<Transaction>)
    ensures r.Ok? ==> r.value in entries && r.value.id == id
    ensures r.Err? ==> r.error == NotFound && forall i :: 0 <= i < |entries| ==> entries[i].id != id
  {
    if entries == [] then Err(NotFound)
    else if entries[0].id == id then Ok(entries[0])
    else Search(entries[1..], id)
  }

  /** `WHERE id = ?` ... `First`: the entry with that id, or not-found. */
  function FindByID(log: TxLog, id: nat): (r: Result<Transaction>)
    requires Inv(log)
    ensures r.Ok? <==> exists i :: 0 <= i < |log.entries| && log.entries[i].id == id
    ensures r.Ok? ==> r.value.id == id && forall t :: t in log.entries && t.id == id ==> t == r.value
    ensures r.Err? ==> r.error == NotFound
  {
    Search(log.entries, id)
  }

  /** A row just inserted is found again under the id it was given, and every
      row found before the insert is still found, unchanged. */
  lemma FindAfterCreate(log: TxLog, tx: Transaction, id: nat)
    requires Inv(log)
    ensures var ins := Create(log, tx);
      && FindByID(ins.log, ins.row.id) == Ok(ins.row)
      && (id != ins.row.id ==> FindByID(ins.log, id) == FindByID(log, id))
  {
    var ins := Create(log, tx);
    assert ins.log.entries[|log.entries|] == ins.row;
    if id != ins.row.id {
      SearchAppend(log.entries, ins.row, id);
    }
  }

  /** Appending a row with another id does not change what a search finds. */
  lemma {:induction false} SearchAppend(entries: seq<Transaction>, row: Transaction, id: nat)
    requires row.id != id
    ensures Search(entries + [row], id) == Search(entries, id)
  {
    if entries != [] {
      assert (entries + [row])[1..] == entries[1..] + [row];
      SearchAppend(entries[1..], row, id);
    }
  }

  // ----- FindAll -----

  /** The WHERE clause: owner, then each bound that is set; date and amount
      bounds are inclusive. */
  predicate Matches(f: TransactionFilter, t: Transaction) {
    && t.userId == f.userId
    && (f.kind.Some? ==> t.kind.Name() == f.kind.value)
    && (f.fromDate.Some? ==> t.createdAt >= f.fromDate.value)
    && (f.toDate.Some? ==> t.createdAt <= f.toDate.value)
    && (f.minAmount.Some? ==> t.amount >= f.minAmount.value)
    && (f.maxAmount.Some? ==> t.amount <= f.maxAmount.value)
  }

  /** The entries that satisfy the filter, keeping insertion order. */
  function Select(entries: seq<Transaction>, f: TransactionFilter): (r: seq<Transaction>)
    ensures forall t :: t in r <==> t in entries && Matches(f, t)
    ensures multiset(r) <= multiset(entries)
  {
    if entries == [] then []
    else
      assert entries == [entries[0]] + entries[1..];
      if Matches(f, entries[0]) then [entries[0]] + Select(entries[1..], f)
      else Select(entries[1..], f)
  }

  predicate NewestFirst(s: seq<Transaction>) {
    forall i, j :: 0 <= i < j < |s| ==> s[i].createdAt >= s[j].createdAt
  }

  /** An entry no older than the head of a newest-first sequence can go in front. */
  lemma PrependKeepsOrder(x: Transaction, s: seq<Transaction>)
    requires NewestFirst(s) && (s == [] || x.createdAt >= s[0].createdAt)
    ensures NewestFirst([x] + s)
  {
    var r := [x] + s;
    forall i, j | 0 <= i < j < |r|
      ensures r[i].createdAt >= r[j].createdAt
    {
      if i == 0 && j > 1 {
        assert r[j] == s[j - 1] && s[0].createdAt >= s[j - 1].createdAt;
      }
    }
  }

  /** Places one entry into a newest-first sequence, ahead of every entry that
      is not newer. */
  function InsertByTime(t: Transaction, s: seq<Transaction>): (r: seq<Transaction>)
    requires NewestFirst(s)
    ensures NewestFirst(r)
    ensures multiset(r) == multiset(s) + multiset{t}
    ensures |r| == |s| + 1
    ensures r[0] == t || (|s| > 0 && r[0] == s[0])
  {
    if s == [] then [t]
    else if t.createdAt >= s[0].createdAt then
      PrependKeepsOrder(t, s);
      [t] + s
    else
      var rest := InsertByTime(t, s[1..]);
      InsertBehindHead(t, s, rest);
      [s[0]] + rest
  }

  /** The recursive step of InsertByTime: an entry older than the head goes
      into the tail, and the head stays in front. */
  lemma InsertBehindHead(t: Transaction, s: seq<Transaction>, rest: seq<Transaction>)
    requires NewestFirst(s) && s != [] && t.createdAt < s[0].createdAt
    requires NewestFirst(rest) && multiset(rest) == multiset(s[1..]) + multiset{t}
    requires |rest| == |s| && (rest[0] == t || (|s| > 1 && rest[0] == s[1]))
    ensures NewestFirst([s[0]] + rest)
    ensures multiset([s[0]] + rest) == multiset(s) + multiset{t}
  {
    assert s == [s[0]] + s[1..];
    assert multiset(s) == multiset{s[0]} + multiset(s[1..]);
    assert multiset([s[0]] + rest) == multiset{s[0]} + multiset(rest);
    PrependKeepsOrder(s[0], rest);
  }

  /** ORDER BY created_at DESC. Entries with equal timestamps keep their
      insertion order (the database leaves that order open). */
  function SortNewestFirst(s: seq<Transaction>): (r: seq<Transaction>)
    ensures NewestFirst(r)
    ensures multiset(r) == multiset(s)
  {
    if s == [] then []
    else
      assert s == [s[0]] + s[1..];
      InsertByTime(s[0], SortNewestFirst(s[1..]))
  }

  /** Every matching entry, newest first: the sequence pages are cut from. */
  function Ordered(log: TxLog, f: TransactionFilter): (r: seq<Transaction>)
    ensures NewestFirst(r)
    ensures forall i :: 0 <= i < |r| ==> r[i] in log.entries && Matches(f, r[i])
  {
    var sel := Select(log.entries, f);
    var r := SortNewestFirst(sel);
    PermutationKeepsMembers(r, sel);
    r
  }

  /** Each element of a permutation of `b` is an element of `b`. */
  lemma PermutationKeepsMembers(a: seq<Transaction>, b: seq<Transaction>)
    requires multiset(a) == multiset(b)
    ensures forall i :: 0 <= i < |a| ==> a[i] in b
  {
    forall i | 0 <= i < |a|
      ensures a[i] in b
    {
      assert a[i] in multiset(a);
    }
  }

  /** No matching entry is lost: an entry is in the ordered sequence if and
      only if it is logged and matches. */
  lemma OrderedHoldsExactlyMatches(log: TxLog, f: TransactionFilter, t: Transaction)
    ensures t in Ordered(log, f) <==> t in log.entries && Matches(f, t)
  {
    var sel := Select(log.entries, f);
    assert t in Ordered(log, f) <==> t in multiset(sel);
  }

  /** `n * step` as repeated addition. The product stays out of the
      solver's arithmetic; ScaledIsProduct relates it to `*`. */
  function Scaled(n: int, step: int): int
    decreases if n < 0 then -n else n
  {
    if n == 0 then 0
    else if n > 0 then Scaled(n - 1, step) + step
    else Scaled(n + 1, step) - step
  }

  lemma {:induction false} ScaledIsProduct(n: int, step: int)
    ensures Scaled(n, step) == n * step
    decreases if n < 0 then -n else n
  {
    if n > 0 {
      ScaledIsProduct(n - 1, step);
      assert (n - 1) * step + step == n * step;
    } else if n < 0 {
      ScaledIsProduct(n + 1, step);
      assert (n + 1) * step - step == n * step;
    }
  }

  /** The offset the repository computes, `(Page - 1) * Limit` in Go's 64-bit
      `int`, so a product beyond MaxInt wraps around (OffsetIsProduct). */
  function Offset(f: TransactionFilter): (offset: int)
    ensures MinInt <= offset <= MaxInt
    ensures OffsetFits(f) ==> offset >= 0
  {
    FittingProductNonNegative(f);
    WrapInt(Scaled(f.page - 1, f.limit))
  }

  lemma FittingProductNonNegative(f: TransactionFilter)
    ensures OffsetFits(f) ==> Scaled(f.page - 1, f.limit) >= 0
  {
    if OffsetFits(f) {
      ScaledNonNegative(f.page - 1, f.limit);
    }
  }

  lemma OffsetIsProduct(f: TransactionFilter)
    ensures Offset(f) == WrapInt((f.page - 1) * f.limit)
  {
    ScaledIsProduct(f.page - 1, f.limit);
  }

  /** Page numbers whose offset fits Go's `int`: the product does not wrap
      (OffsetFitsExactly spells it out with `*`). */
  predicate OffsetFits(f: TransactionFilter) {
    f.page >= 1 && f.limit >= 1 && Scaled(f.page - 1, f.limit) <= MaxInt
  }

  lemma OffsetFitsExactly(f: TransactionFilter)
    ensures OffsetFits(f) <==> f.page >= 1 && f.limit >= 1 && (f.page - 1) * f.limit <= MaxInt
  {
    ScaledIsProduct(f.page - 1, f.limit);
  }

  /** Without wrap-around the offset is the exact, non-negative product. */
  lemma OffsetWhenItFits(f: TransactionFilter)
    requires OffsetFits(f)
    ensures Offset(f) == (f.page - 1) * f.limit
  {
    ScaledIsProduct(f.page - 1, f.limit);
    ScaledNonNegative(f.page - 1, f.limit);
  }

  lemma {:induction false} ScaledNonNegative(n: int, step: int)
    requires n >= 0 && step >= 0
    ensures Scaled(n, step) >= 0
    decreases n
  {
    if n > 0 {
      ScaledNonNegative(n - 1, step);
    }
  }

  /** Where a page starts: gorm emits an OFFSET clause only for a positive offset. */
  function Start(length: nat, offset: int): (start: nat)
    ensures start <= length
  {
    if offset > 0 then Min(offset, length) else 0
  }

  /** LIMIT/OFFSET as gorm emits them: an OFFSET clause only for a positive
      offset and a LIMIT clause only for a positive limit. */
  function Window(s: seq<Transaction>, offset: int, limit: int): (r: seq<Transaction>)
    ensures limit > 0 ==> |r| <= limit
    ensures NewestFirst(s) ==> NewestFirst(r)
    ensures |r| == (if limit > 0 then Min(limit, |s| - Start(|s|, offset)) else |s| - Start(|s|, offset))
    ensures forall i :: 0 <= i < |r| ==> r[i] == s[Start(|s|, offset) + i]
  {
    var start := Start(|s|, offset);
    var stop := if limit > 0 then Min(start + limit, |s|) else |s|;
    s[start..stop]
  }

  /** For a non-negative offset and a positive limit the window is the slice
      starting at the offset, as long as the limit and the remaining entries allow. */
  lemma WindowFromOffset(s: seq<Transaction>, offset: int, limit: int)
    requires offset >= 0 && limit >= 1
    ensures var r := Window(s, offset, limit);
      && |r| == Min(limit, Max(0, |s| - offset))
      && forall i :: 0 <= i < |r| ==> r[i] == s[offset + i]
  {
  }

  /** The query: filter, newest first, then one page. */
  function FindAll(log: TxLog, f: TransactionFilter): (r: seq<Transaction>)
    ensures forall i :: 0 <= i < |r| ==> r[i] in log.entries && Matches(f, r[i])
    ensures forall i :: 0 <= i < |r| ==> r[i].userId == f.userId
    ensures NewestFirst(r)
    ensures f.limit > 0 ==> |r| <= f.limit
  {
    var all := Ordered(log, f);
    var offset := Offset(f);
    WindowKeepsMatches(log, f, all, offset);
    Window(all, offset, f.limit)
  }

  /** Page p (counting from 1) is the run of the ordered matches that starts
      at index (p - 1) * Limit: as many of them as the limit and the remaining
      matches allow. */
  lemma FindAllPage(log: TxLog, f: TransactionFilter)
    requires OffsetFits(f)
    ensures var r, all, offset := FindAll(log, f), Ordered(log, f), Offset(f);
      && |r| == Min(f.limit, Max(0, |all| - offset))
      && forall i :: 0 <= i < |r| ==> offset + i < |all| && r[i] == all[offset + i]
  {
    WindowFromOffset(Ordered(log, f), Offset(f), f.limit);
  }

  /** A window cut from matching entries holds only matching entries. */
  lemma WindowKeepsMatches(log: TxLog, f: TransactionFilter, all: seq<Transaction>, offset: int)
    requires forall i :: 0 <= i < |all| ==> all[i] in log.entries && Matches(f, all[i])
    ensures var r := Window(all, offset, f.limit);
      forall i :: 0 <= i < |r| ==> r[i] in log.entries && Matches(f, r[i])
  {
    var r := Window(all, offset, f.limit);
    var start := Start(|all|, offset);
    forall i | 0 <= i < |r|
      ensures r[i] in log.entries && Matches(f, r[i])
    {
      assert r[i] == all[start + i];
    }
  }

  /** A first page at least as large as the match count returns every
      matching entry, each as often as it is logged. */
  lemma FirstPageHoldsAllMatches(log: TxLog, f: TransactionFilter)
    requires f.page == 1 && f.limit >= |Select(log.entries, f)|
    ensures multiset(FindAll(log, f)) == multiset(Select(log.entries, f))
  {
    var all := Ordered(log, f);
    assert Window(all, Offset(f), f.limit) == all;
  }

  /** A page number so large that `(Page - 1) * Limit` wraps to a value that is
      not positive, here 2^64 wrapping to 0, yields the first page again. */
  lemma WrappedOffsetRepeatsFirstPage(log: TxLog, f: TransactionFilter)
    requires f.page == 0x2000_0000_0000_0001 && f.limit == 8
    ensures Offset(f) == 0
    ensures FindAll(log, f) == FindAll(log, f.(page := 1))
  {
    OffsetIsProduct(f);
    OffsetIsProduct(f.(page := 1));
    SelectIgnoresPaging(log.entries, f, 1);
  }

  /** The page number takes no part in which entries match. */
  lemma {:induction false} SelectIgnoresPaging(entries: seq<Transaction>, f: TransactionFilter, page: int)
    ensures Select(entries, f.(page := page)) == Select(entries, f)
  {
    if entries != [] {
      SelectIgnoresPaging(entries[1..], f, page);
    }
  }
}
