/**
 The accounts table and account_index_seq, with each repository call as the
 statement or transaction it runs (pkg/repository/account_repository.go).
 */
module Accounts {
  import opened Options

  type Id = string

  datatype ChainStatus = Pending | Confirmed | Failed | Unknown | Conflict

  datatype Account = Account(
    index: int,
    publicKey: string,
    status: ChainStatus,
    attempts: int,
    checkedAt: Option<int>,
    createdAt: int,
    deletedAt: Option<int>)

  type Table = map<Id, Account>

  datatype Error = NotFound | NotConflict | ChainConflict | DatabaseError

  datatype Result<+T> = Ok(value: T) | Err(error: Error)

  function Max(a: int, b: int): int { if a < b then b else a }

  predicate Live(rows: Table, id: Id) { id in rows && rows[id].deletedAt == None }

  /** public_key is unique over all rows, soft-deleted ones included. */
  predicate KeyTaken(rows: Table, key: string, id: Id) {
    exists other | other in rows :: other != id && rows[other].publicKey == key
  }

  // --- The sequence ---

  /** A Postgres sequence: the last value set, and whether it has been handed out. */
  datatype Sequence = Sequence(lastValue: int, isCalled: bool)

  /** What the next nextval returns. */
  function Next(s: Sequence): int { if s.isCalled then s.lastValue + 1 else s.lastValue }

  function NextVal(s: Sequence): Sequence { Sequence(Next(s), true) }

  function RaiseTo(s: Sequence, floor: int): Sequence {
    if floor <= 0 then s
    else if !s.isCalled then Sequence(Max(s.lastValue, floor), false)
    else Sequence(Max(s.lastValue, floor - 1), true)
  }

  /** The floor is exact in both sequence states and never rewinds. */
  lemma FloorIsExact(s: Sequence, floor: int)
    ensures Next(RaiseTo(s, floor)) == (if floor <= 0 then Next(s) else Max(Next(s), floor))
    ensures Next(RaiseTo(s, floor)) >= Next(s)
  {
  }

  /** `m` is the highest index in the table, -1 for an empty table. */
  ghost predicate IsHighWater(rows: Table, m: int) {
    && (forall id | id in rows :: rows[id].index <= m)
    && if rows == map[] then m == -1 else exists id | id in rows :: rows[id].index == m
  }

  predicate Highest(rows: Table, id: Id)
    requires id in rows
  {
    forall other | other in rows :: rows[other].index <= rows[id].index
  }

  lemma {:induction false} HighWaterExists(rows: Table) returns (m: int)
    ensures IsHighWater(rows, m)
    decreases |rows|
  {
    m := -1;
    if rows != map[] {
      var id :| id in rows;
      var rest := rows - {id};
      var n := HighWaterExists(rest);
      m := if rest == map[] then rows[id].index else Max(n, rows[id].index);
      assert forall x | x in rows :: x == id || (x in rest && rest[x] == rows[x]);
      if rest != map[] {
        var x :| x in rest && rest[x].index == n;
        assert rows[x].index == n;
      }
    }
  }

  ghost function HighWater(rows: Table): (m: int)
    ensures IsHighWater(rows, m)
  {
    assert exists m :: IsHighWater(rows, m) by { var m := HighWaterExists(rows); }
    var m :| IsHighWater(rows, m);
    m
  }

  /** Where the boot check leaves the sequence. */
  ghost function Rearm(s: Sequence, rows: Table, base: int): Sequence {
    RaiseTo(s, Max(base, HighWater(rows) + 1))
  }

  // --- Row updates ---

  function Reissued(a: Account, index: int, address: string): Account {
    a.(index := index, publicKey := address, status := Pending, attempts := 0, checkedAt := None)
  }

  /** A conflict row is left only by writing conflict again. */
  predicate StatusWritable(a: Account, status: ChainStatus) {
    status == Conflict || a.status != Conflict
  }

  /** The repository over one database. */
  class AccountRepository {
    var lastValue: int
    var isCalled: bool
    var rows: Table

    function Seq(): Sequence
      reads this
    {
      Sequence(lastValue, isCalled)
    }

    constructor (s: Sequence, rows: Table)
      ensures Seq() == s && this.rows == rows
    {
      lastValue, isCalled := s.lastValue, s.isCalled;
      this.rows := rows;
    }

    /** GetNextAccountIndex, in a transaction or out of one: nextval does not roll back. */
    method GetNextAccountIndex() returns (index: int)
      modifies this`lastValue, this`isCalled
      ensures index == old(Next(Seq())) && Seq() == NextVal(old(Seq()))
    {
      index := if isCalled then lastValue + 1 else lastValue;
      lastValue, isCalled := index, true;
    }

    method EnsureAccountIndexFloor(floor: int)
      modifies this`lastValue, this`isCalled
      ensures Next(Seq()) == (if floor <= 0 then old(Next(Seq())) else Max(old(Next(Seq())), floor))
      ensures isCalled == old(isCalled)
      ensures Seq() == RaiseTo(old(Seq()), floor)
    {
      if floor <= 0 {
        return;
      }
      if !isCalled {
        lastValue := Max(lastValue, floor);
      } else {
        lastValue := Max(lastValue, floor - 1);
      }
    }

    /** MAX(account_index) over every row, soft-deleted ones included. */
    method MaxAccountIndex() returns (highest: int)
      ensures highest == HighWater(rows)
    {
      var table := rows;
      assert IsHighWater(table, HighWater(table));
      if table == map[] {
        return -1;
      }
      ghost var top :| top in table && table[top].index == HighWater(table);
      assert Highest(table, top);
      var id :| id in table && Highest(table, id);
      highest := table[id].index;
      assert Highest(table, id);
      assert top in table;
      assert table[top].index <= table[id].index;
    }

    method PeekAccountIndex() returns (next: int)
      ensures next == Next(Seq())
    {
      next := if isCalled then lastValue + 1 else lastValue;
    }

    /** The boot check. The next index is then the highest of where the sequence
        stood, the operator's base, and one past the recorded high-water mark. */
    method EnsureAccountIndexIntegrity(base: int) returns (next: int)
      requires lastValue >= 1
      modifies this`lastValue, this`isCalled
      ensures next == Next(Seq())
      ensures next == Max(old(Next(Seq())), Max(base, HighWater(rows) + 1))
      ensures Seq() == Rearm(old(Seq()), rows, base)
    {
      var highWater := MaxAccountIndex();
      var floor := Max(base, highWater + 1);
      if floor > 0 {
        EnsureAccountIndexFloor(floor);
      }
      next := PeekAccountIndex();
    }

    method Create(id: Id, account: Account) returns (r: Result<()>)
      modifies this`rows
      ensures r.Ok? <==> id !in old(rows) && !KeyTaken(old(rows), account.publicKey, id)
      ensures rows == if r.Ok? then old(rows)[id := account] else old(rows)
    {
      if id in rows || KeyTaken(rows, account.publicKey, id) {
        return Err(DatabaseError);
      }
      rows := rows[id := account];
      r := Ok(());
    }

    /** One transaction. The sequence moves as soon as the row is seen to be in
        conflict, and stays moved when the rest rolls back. */
    method ReissueConflict(id: Id, derive: int -> Option<string>) returns (r: Result<Account>)
      modifies this
      ensures !Live(old(rows), id) ==> r == Err(NotFound) && rows == old(rows) && Seq() == old(Seq())
      ensures Live(old(rows), id) && old(rows)[id].status != Conflict
          ==> r == Err(NotConflict) && rows == old(rows) && Seq() == old(Seq())
      ensures Live(old(rows), id) && old(rows)[id].status == Conflict
          ==> var i := old(Next(Seq()));
              && Seq() == NextVal(old(Seq()))
              && (r.Ok? <==> derive(i).Some? && !KeyTaken(old(rows), derive(i).value, id))
              && (r.Err? ==> r.error == DatabaseError && rows == old(rows))
      ensures r.Ok? ==> rows == old(rows)[id := r.value] && id in old(rows)
      ensures r.Ok? ==> Some(r.value.publicKey) == derive(r.value.index) && r.value.index == old(Next(Seq()))
      ensures r.Ok? ==> r.value.status == Pending && r.value.attempts == 0 && r.value.checkedAt == None
      ensures r.Ok? ==> r.value.createdAt == old(rows)[id].createdAt && r.value.deletedAt == old(rows)[id].deletedAt
    {
      if !Live(rows, id) {
        return Err(NotFound);
      }
      var acct := rows[id];
      if acct.status != Conflict {
        return Err(NotConflict);
      }
      var index := GetNextAccountIndex();
      var address := derive(index);
      if address.None? || KeyTaken(rows, address.value, id) {
        return Err(DatabaseError);
      }
      rows := rows[id := acct.(
        index := index, publicKey := address.value, status := Pending, attempts := 0, checkedAt := None)];
      r := Ok(rows[id]);
    }

    method UpdateChainStatus(id: Id, status: ChainStatus) returns (r: Result<()>)
      modifies this`rows
      ensures r.Ok? <==> Live(old(rows), id) && StatusWritable(old(rows)[id], status)
      ensures r == Err(ChainConflict) <==> Live(old(rows), id) && !StatusWritable(old(rows)[id], status)
      ensures r.Err? ==> r.error in {NotFound, ChainConflict}
      ensures rows == if r.Ok? then old(rows)[id := old(rows)[id].(status := status)] else old(rows)
    {
      if Live(rows, id) && StatusWritable(rows[id], status) {
        rows := rows[id := rows[id].(status := status)];
        return Ok(());
      }
      if Live(rows, id) && rows[id].status == Conflict {
        return Err(ChainConflict);
      }
      r := Err(NotFound);
    }

    method RecordChainCheck(id: Id, attempts: int, checkedAt: int) returns (r: Result<()>)
      modifies this`rows
      ensures r == if Live(old(rows), id) then Ok(()) else Err(NotFound)
      ensures rows == if r.Err? then old(rows)
        else old(rows)[id := old(rows)[id].(attempts := attempts, checkedAt := Some(checkedAt))]
    {
      if !Live(rows, id) {
        return Err(NotFound);
      }
      rows := rows[id := rows[id].(attempts := attempts, checkedAt := Some(checkedAt))];
      r := Ok(());
    }

    method Delete(id: Id, now: int) returns (r: Result<()>)
      modifies this`rows
      ensures r == if Live(old(rows), id) then Ok(()) else Err(NotFound)
      ensures rows == if r.Ok? then old(rows)[id := old(rows)[id].(deletedAt := Some(now))] else old(rows)
    {
      if !Live(rows, id) {
        return Err(NotFound);
      }
      rows := rows[id := rows[id].(deletedAt := Some(now))];
      r := Ok(());
    }

    method Restore(id: Id) returns (r: Result<()>)
      modifies this`rows
      ensures r == if id in old(rows) then Ok(()) else Err(NotFound)
      ensures rows == if r.Ok? then old(rows)[id := old(rows)[id].(deletedAt := None)] else old(rows)
    {
      if id !in rows {
        return Err(NotFound);
      }
      rows := rows[id := rows[id].(deletedAt := None)];
      r := Ok(());
    }
  }
}
