/** The money held in a set of accounts, used to state conservation. */
module Funds {
  import opened AccountEntities

  /** Sum of the balances of all rows. */
  ghost function Total(rows: map<nat, Account>): int
    decreases |rows|
  {
    if rows == map[] then 0
    else
      var k :| k in rows;
      rows[k].balance + Total(rows - {k})
  }

  /** No row holds a negative balance. */
  predicate NonNegative(rows: map<nat, Account>) {
    forall id :: id in rows ==> rows[id].balance >= 0
  }

  /** Any row can be taken out of the sum first, whichever row Total picks. */
  lemma {:induction false} TotalWithout(rows: map<nat, Account>, k: nat)
    requires k in rows
    ensures Total(rows) == rows[k].balance + Total(rows - {k})
    decreases |rows|
  {
    var j :| j in rows && Total(rows) == rows[j].balance + Total(rows - {j});
    if j != k {
      var rest := rows - {j} - {k};
      assert rows - {j} - {k} == rows - {k} - {j};
      TotalWithout(rows - {j}, k);
      TotalWithout(rows - {k}, j);
      assert Total(rows - {j}) == rows[k].balance + Total(rest);
      assert Total(rows - {k}) == rows[j].balance + Total(rest);
    }
  }

  /** Replacing one existing row changes the total by the change in its balance. */
  lemma TotalAfterReplace(rows: map<nat, Account>, k: nat, a: Account)
    requires k in rows
    ensures Total(rows[k := a]) == Total(rows) - rows[k].balance + a.balance
  {
    TotalWithout(rows, k);
    TotalWithout(rows[k := a], k);
    assert rows[k := a] - {k} == rows - {k};
  }

  /** Two maps over the same keys that differ at most at `k`. */
  lemma TotalOneChanged(m: map<nat, Account>, m': map<nat, Account>, k: nat)
    requires k in m && m'.Keys == m.Keys
    requires forall id :: id in m && id != k ==> m'[id] == m[id]
    ensures Total(m') == Total(m) - m[k].balance + m'[k].balance
  {
    assert m' == m[k := m'[k]];
    TotalAfterReplace(m, k, m'[k]);
  }

  /** Two maps over the same keys that differ at most at `j` and `k`. */
  lemma TotalTwoChanged(m: map<nat, Account>, m': map<nat, Account>, j: nat, k: nat)
    requires j in m && k in m && j != k && m'.Keys == m.Keys
    requires forall id :: id in m && id != j && id != k ==> m'[id] == m[id]
    ensures Total(m') == Total(m) - m[j].balance - m[k].balance + m'[j].balance + m'[k].balance
  {
    var mid := m[j := m'[j]];
    TotalAfterReplace(m, j, m'[j]);
    TotalOneChanged(mid, m', k);
  }
}
