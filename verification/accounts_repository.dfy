/** The accounts table as a map from `ID` to row, with gorm's auto-increment
    counter (internal/repository/accountsRepository.go). The table's primary key
    is (`ID`, `UserID`); keying by `ID` alone suffices because every insert draws a
    fresh `ID` from the sequence and every Save writes back a row loaded under
    its own `ID` and owner. */
module AccountsRepository {
  import opened Common
  import opened AccountEntities

  datatype AccountTable = AccountTable(rows: map<nat, Account>, nextId: nat)

  /** Every row sits under its own id, and ids are allocated below the counter. */
  predicate Inv(t: AccountTable) {
    && t.nextId >= 1
    && forall id :: id in t.rows ==> t.rows[id].id == id && 1 <= id < t.nextId
  }

  /** The owner-scoped lookup `WHERE user_id = ? AND id = ?`. */
  function GetByID(t: AccountTable, userId: nat, accountId: nat): (r: Option<Account>)
    requires Inv(t)
    ensures r.Some? <==> accountId in t.rows && t.rows[accountId].userId == userId
    ensures r.Some? ==> r.value == t.rows[accountId] && r.value.id == accountId && r.value.userId == userId
  {
    if accountId in t.rows && t.rows[accountId].userId == userId then Some(t.rows[accountId]) else None
  }

  /** `WHERE user_id = ?`: every row of the user, each exactly once, in the
      order the table yields them (which the query leaves unspecified). */
  method GetAll(t: AccountTable, userId: nat) returns (accounts: seq<Account>)
    requires Inv(t)
    ensures forall i :: 0 <= i < |accounts| ==>
      accounts[i].id in t.rows && t.rows[accounts[i].id] == accounts[i] && accounts[i].userId == userId
    ensures forall id :: id in t.rows && t.rows[id].userId == userId ==> t.rows[id] in accounts
    ensures forall i, j :: 0 <= i < j < |accounts| ==> accounts[i].id != accounts[j].id
  {
    accounts := [];
    var remaining := t.rows.Keys;
    while remaining != {}
      invariant remaining <= t.rows.Keys
      invariant forall i :: 0 <= i < |accounts| ==>
        accounts[i].id in t.rows && accounts[i].id !in remaining
        && t.rows[accounts[i].id] == accounts[i] && accounts[i].userId == userId
      invariant forall id :: id in t.rows && id !in remaining && t.rows[id].userId == userId ==> t.rows[id] in accounts
      invariant forall i, j :: 0 <= i < j < |accounts| ==> accounts[i].id != accounts[j].id
      decreases remaining
    {
      var id :| id in remaining;
      if t.rows[id].userId == userId {
        accounts := accounts + [t.rows[id]];
      }
      remaining := remaining - {id};
    }
  }

  datatype Created = Created(row: Account, table: AccountTable)

  /** INSERT: the row gets the next auto-increment id, and gorm stamps both
      timestamps with the insertion instant. */
  function Create(t: AccountTable, a: Account, now: int): (c: Created)
    requires Inv(t)
    ensures c.row.id !in t.rows && c.row.id >= 1
    ensures c.row == a.(id := c.row.id, createdAt := now, updatedAt := now)
    ensures c.table.rows == t.rows[c.row.id := c.row]
    ensures Inv(c.table)
  {
    var row := a.(id := t.nextId, createdAt := now, updatedAt := now);
    Created(row, AccountTable(t.rows[t.nextId := row], t.nextId + 1))
  }

  /** The row as a full-row Save writes it: gorm refreshes UpdatedAt. */
  function Touched(a: Account, now: int): Account {
    a.(updatedAt := now)
  }

  /** Save: replaces the row with the record's id by the whole record and
      leaves every other row alone. */
  function Update(t: AccountTable, a: Account, now: int): (t': AccountTable)
    ensures a.id in t'.rows && t'.rows[a.id] == Touched(a, now)
    ensures t'.rows.Keys == t.rows.Keys + {a.id}
    ensures forall id :: id in t.rows && id != a.id ==> t'.rows[id] == t.rows[id]
    ensures t'.nextId == t.nextId
    ensures Inv(t) && a.id in t.rows ==> Inv(t')
  {
    AccountTable(t.rows[a.id := Touched(a, now)], t.nextId)
  }

  /** A row just inserted is found by its owner under the id it was given. */
  lemma CreatedRowIsFound(t: AccountTable, a: Account, now: int)
    requires Inv(t)
    ensures var c := Create(t, a, now);
      GetByID(c.table, a.userId, c.row.id) == Some(c.row)
  {
  }

  /** After a Save of an existing row, the owner's lookup returns the saved
      record, and every other lookup returns what it returned before. */
  lemma SavedRowIsFound(t: AccountTable, a: Account, now: int, userId: nat, id: nat)
    requires Inv(t) && a.id in t.rows
    ensures var t' := Update(t, a, now);
      && GetByID(t', a.userId, a.id) == Some(Touched(a, now))
      && (id != a.id ==> GetByID(t', userId, id) == GetByID(t, userId, id))
  {
  }
}
