/**
 The account chain reconciler's queue (GetDueChainHeals) and why no account
 starves in it.
 */
module ChainHeal {
  import opened Options
  import opened Accounts
  import opened Queues

  datatype Due = Due(now: int, retryAfter: int, retryBackoff: int, pendingAfter: int, maxAttempts: int)

  /** The WHERE clause of GetDueChainHeals. */
  predicate IsDue(a: Account, due: Due) {
    && a.deletedAt == None
    && (a.status == Failed || a.status == Unknown || (a.status == Pending && a.createdAt <= due.now - due.pendingAfter))
    && (|| a.checkedAt == None
        || (a.attempts < due.maxAttempts && a.checkedAt.value <= due.now - due.retryAfter)
        || (a.attempts >= due.maxAttempts && a.checkedAt.value <= due.now - due.retryBackoff))
  }

  function Limit(limit: int): (n: nat)
    ensures n > 0
  {
    if limit <= 0 then 20 else limit
  }

  /** ORDER BY chain_checked_at ASC NULLS FIRST. */
  function CheckedAt(a: Account): Option<int> { a.checkedAt }

  /** What GetDueChainHeals may return: due rows, least recently checked first,
      cut at the limit. */
  ghost predicate IsHealBatch(rows: Table, due: Due, limit: int, ids: seq<Id>) {
    IsBatch(rows, (a: Account) => IsDue(a, due), CheckedAt, Limit(limit), ids)
  }

  /** No longer a row the queue can return: a conflict, or deleted. */
  predicate Gone(a: Account) { a.status == Conflict || a.deletedAt.Some? }

  /** One round: the batch is fetched and each row in it is stamped with a clock of its
      own, read at or after `at`, unless it turned out to be a conflict or was deleted.
      Other rows keep their check time and may be changed otherwise; a row that is gone
      stays gone. */
  datatype Round = Round(due: Due, batch: seq<Id>, at: int, after: Table)

  ghost predicate IsRound(rows: Table, limit: int, r: Round) {
    && IsHealBatch(rows, r.due, limit, r.batch)
    && (forall id | id in rows && rows[id].checkedAt.Some? :: rows[id].checkedAt.value < r.at)
    && r.after.Keys == rows.Keys
    && (forall id | id in r.batch ::
          Gone(r.after[id]) || (r.after[id].checkedAt.Some? && r.after[id].checkedAt.value >= r.at))
    && (forall id | id in rows && id !in r.batch :: r.after[id].checkedAt == rows[id].checkedAt)
    && (forall id | id in rows && Gone(rows[id]) :: Gone(r.after[id]))
  }

  ghost predicate IsHistory(rows: Table, limit: int, rounds: seq<Round>)
    decreases |rounds|
  {
    rounds == [] || (IsRound(rows, limit, rounds[0]) && IsHistory(rounds[0].after, limit, rounds[1..]))
  }

  /** `x` is due at every round and returned by none; every row due at any
      round is one of `queue`. */
  ghost predicate Waits(rows: Table, rounds: seq<Round>, x: Id, queue: set<Id>)
    decreases |rounds|
  {
    rounds == [] || (
      && x in rows && IsDue(rows[x], rounds[0].due)
      && x !in rounds[0].batch
      && (forall id | id in rows && IsDue(rows[id], rounds[0].due) :: id in queue)
      && Waits(rounds[0].after, rounds[1..], x, queue))
  }

  /** The rows of the queue that can still be due and come no later than `x`. */
  ghost function Ahead(rows: Table, x: Id, queue: set<Id>): set<Id>
    requires x in rows
  {
    set id | id in queue && id in rows && id != x && !Gone(rows[id]) && NoLater(rows[id].checkedAt, rows[x].checkedAt)
  }

  /** A round that passes `x` over moves a full batch from ahead of it to behind it. */
  lemma RoundAdvances(rows: Table, limit: int, r: Round, x: Id, queue: set<Id>)
    requires IsRound(rows, limit, r) && x in rows && IsDue(rows[x], r.due) && x !in r.batch
    requires forall id | id in rows && IsDue(rows[id], r.due) :: id in queue
    ensures |Ahead(r.after, x, queue)| + Limit(limit) <= |Ahead(rows, x, queue)|
  {
    var batch := set id | id in r.batch;
    var before, after := Ahead(rows, x, queue), Ahead(r.after, x, queue);
    SetOfDistinct(r.batch);
    forall id | id in batch ensures id in before && id !in after {
      var i :| 0 <= i < |r.batch| && r.batch[i] == id;
      assert NoLater(rows[r.batch[i]].checkedAt, rows[x].checkedAt);
      assert r.after[x].checkedAt == rows[x].checkedAt;
    }
    forall id | id in after ensures id in before {
      assert id in r.after.Keys;
    }
    SubsetSize(after + batch, before);
    assert |after + batch| == |after| + |batch|;
  }

  lemma {:induction false} WaitingShrinks(rows: Table, limit: int, rounds: seq<Round>, x: Id, queue: set<Id>)
    requires IsHistory(rows, limit, rounds) && Waits(rows, rounds, x, queue) && x in rows
    ensures |rounds| * Limit(limit) <= |Ahead(rows, x, queue)|
    decreases |rounds|
  {
    if rounds != [] {
      RoundAdvances(rows, limit, rounds[0], x, queue);
      assert x in rounds[0].after.Keys;
      WaitingShrinks(rounds[0].after, limit, rounds[1..], x, queue);
      assert |rounds| * Limit(limit) == (|rounds| - 1) * Limit(limit) + Limit(limit);
    }
  }

  lemma CeilDivision(k: nat, n: nat, total: nat)
    requires n > 0 && k * n < total
    ensures k < (total + n - 1) / n
  {
  }

  lemma AheadInQueue(rows: Table, x: Id, queue: set<Id>)
    requires x in rows && x in queue
    ensures |Ahead(rows, x, queue)| < |queue|
  {
    SubsetSize(Ahead(rows, x, queue), queue - {x});
  }

  /** Of N rows that may be due, one that stays due and has been passed over in k
      rounds satisfies k * limit < N. */
  lemma {:induction false} PassedOver(rows: Table, limit: int, rounds: seq<Round>, x: Id, queue: set<Id>)
    requires x in queue && x in rows
    requires IsHistory(rows, limit, rounds) && Waits(rows, rounds, x, queue)
    ensures |rounds| * Limit(limit) < |queue|
  {
    WaitingShrinks(rows, limit, rounds, x, queue);
    AheadInQueue(rows, x, queue);
  }

  /** So it is returned within ceil(N / limit) rounds: no history that long passes
      it over throughout. */
  lemma {:induction false} Fairness(rows: Table, limit: int, rounds: seq<Round>, x: Id, queue: set<Id>)
    requires x in queue && x in rows
    requires IsHistory(rows, limit, rounds)
    requires |rounds| == (|queue| + Limit(limit) - 1) / Limit(limit)
    ensures !Waits(rows, rounds, x, queue)
  {
    if Waits(rows, rounds, x, queue) {
      var k, n, total := |rounds|, Limit(limit), |queue|;
      PassedOver(rows, limit, rounds, x, queue);
      CeilDivision(k, n, total);
    }
  }

  /** Conflict, confirmed and deleted rows are never returned. */
  lemma NeverReturned(rows: Table, due: Due, limit: int, ids: seq<Id>, id: Id)
    requires IsHealBatch(rows, due, limit, ids) && id in ids
    ensures id in rows && rows[id].status != Conflict && rows[id].status != Confirmed && Live(rows, id)
  {
  }

  // --- The query and the round, on the repository ---

  method GetDueChainHeals(repo: AccountRepository, due: Due, limit: int) returns (ids: seq<Id>)
    ensures IsHealBatch(repo.rows, due, limit, ids)
  {
    ids := Select(repo.rows, (a: Account) => IsDue(a, due), CheckedAt, Limit(limit));
  }

  /** What came of one attempt to create the account on-chain. */
  datatype Heal =
    | Created                     // it exists now, and is confirmed
    | TurnedConflict              // its address belongs to another account
    | Outage                      // nothing could be found out
    | Refused(permanent: bool)    // the creation failed

  /** The row after a heal that finished at `now`. Only a conflict leaves no stamp. */
  function Healed(a: Account, heal: Heal, maxAttempts: int, now: int): Account {
    match heal
    case Created => a.(status := Confirmed, attempts := 0, checkedAt := Some(now))
    case TurnedConflict => a.(status := Conflict)
    case Outage => a.(checkedAt := Some(now))
    case Refused(permanent) =>
      a.(status := Failed, checkedAt := Some(now),
         attempts := if permanent then Max(a.attempts + 1, maxAttempts) else a.attempts + 1)
  }

  ghost predicate DueFrom(a: Account, due: Due, from: int) {
    forall now | from <= now :: IsDue(a, due.(now := now))
  }

  /** No account is left behind: a row is due from some moment on exactly unless it is
      confirmed, a conflict or deleted, and then it never is. */
  lemma DueInTheEndExactly(a: Account, due: Due)
    ensures (exists from :: DueFrom(a, due, from))
       <==> a.deletedAt == None && a.status != Confirmed && a.status != Conflict
    ensures (exists now :: IsDue(a, due.(now := now))) <==> exists from :: DueFrom(a, due, from)
  {
    if a.deletedAt == None && a.status != Confirmed && a.status != Conflict {
      var wait := if a.attempts < due.maxAttempts then due.retryAfter else due.retryBackoff;
      var from := Max(a.createdAt + due.pendingAfter, if a.checkedAt.Some? then a.checkedAt.value + wait else 0);
      assert DueFrom(a, due, from) && IsDue(a, due.(now := from));
    } else {
      forall from: int ensures !DueFrom(a, due, from) { assert !IsDue(a, due.(now := from)); }
    }
  }

  /** When a row the queue returned is due again: after a wait that is the long one once
      its attempts are used up, and never if it was created or is a conflict. */
  lemma DueAgainExactly(a: Account, heal: Heal, due: Due, healed: int, later: int)
    requires IsDue(a, due) && due.now <= later
    ensures IsDue(Healed(a, heal, due.maxAttempts, healed), due.(now := later)) <==>
      match heal
      case Created => false
      case TurnedConflict => false
      case Outage => later - healed >= if a.attempts < due.maxAttempts then due.retryAfter else due.retryBackoff
      case Refused(permanent) =>
        later - healed >= if a.attempts + 1 < due.maxAttempts && !permanent then due.retryAfter else due.retryBackoff
  {
  }

  /** Drives one account of the batch. */
  method Drive(repo: AccountRepository, id: Id, heal: Heal, maxAttempts: int, now: int)
    requires Live(repo.rows, id) && repo.rows[id].status != Conflict
    modifies repo
    ensures repo.rows == old(repo.rows)[id := Healed(old(repo.rows)[id], heal, maxAttempts, now)]
    ensures repo.rows[id].checkedAt == if heal.TurnedConflict? then old(repo.rows)[id].checkedAt else Some(now)
    ensures repo.rows[id].(status := old(repo.rows)[id].status, attempts := old(repo.rows)[id].attempts,
                           checkedAt := old(repo.rows)[id].checkedAt) == old(repo.rows)[id]
    ensures repo.Seq() == old(repo.Seq())
  {
    var acct := repo.rows[id];
    match heal {
      case Created =>
        var _ := repo.UpdateChainStatus(id, Confirmed);
        var _ := repo.RecordChainCheck(id, 0, now);
      case TurnedConflict =>
        var _ := repo.UpdateChainStatus(id, Conflict);
      case Outage =>
        var _ := repo.RecordChainCheck(id, acct.attempts, now);
      case Refused(permanent) =>
        var attempts := acct.attempts + 1;
        if permanent {
          attempts := Max(attempts, maxAttempts);
        }
        var _ := repo.RecordChainCheck(id, attempts, now);
        if acct.status != Failed {
          var _ := repo.UpdateChainStatus(id, Failed);
        }
    }
  }

  /** One tick of the reconciler: the batch, and each row driven at its own time. It is a
      round of the fairness argument, whatever comes of each heal. */
  method Tick(repo: AccountRepository, due: Due, limit: int, start: int, clock: Id -> int, heals: Id -> Heal)
    returns (batch: seq<Id>)
    requires forall id | id in repo.rows && repo.rows[id].checkedAt.Some? :: repo.rows[id].checkedAt.value < start
    requires forall id :: start <= clock(id)
    modifies repo
    ensures IsRound(old(repo.rows), limit, Round(due, batch, start, repo.rows))
    ensures repo.rows.Keys == old(repo.rows).Keys
    ensures forall id | id in repo.rows ::
      repo.rows[id] == if id in batch then Healed(old(repo.rows)[id], heals(id), due.maxAttempts, clock(id))
                       else old(repo.rows)[id]
  {
    batch := GetDueChainHeals(repo, due, limit);
    ghost var before := repo.rows;
    for i := 0 to |batch|
      invariant repo.rows.Keys == before.Keys
      invariant forall id | id in before ::
        repo.rows[id] == if id in batch[..i] then Healed(before[id], heals(id), due.maxAttempts, clock(id))
                         else before[id]
    {
      var id := batch[i];
      assert id in batch && id !in batch[..i];
      NeverReturned(before, due, limit, batch, id);
      Drive(repo, id, heals(id), due.maxAttempts, clock(id));
      assert batch[..i + 1] == batch[..i] + [id];
    }
    assert batch[..|batch|] == batch;
  }
}
