/**
 Driving the chain to what the table intends: any order of confirmed writes
 settles, within two writes per address, on the same state
 (pkg/services/compliance/onchain_writer.go).
 */
module OnchainWriter {
  import opened Options
  import opened Queues
  import opened Counterparty
  import Sums

  datatype Write = Write(op: Op, id: Id)

  ghost predicate Enabled(rows: Table, w: Write) { w.id in rows && Due(rows[w.id], w.op) }

  function Apply(rows: Table, w: Write): Table
    requires w.id in rows
  {
    rows[w.id := rows[w.id].(onchain := Confirmed(w.op))]
  }

  ghost predicate RunEnabled(rows: Table, ws: seq<Write>)
    decreases |ws|
  {
    ws == [] || (Enabled(rows, ws[0]) && RunEnabled(Apply(rows, ws[0]), ws[1..]))
  }

  ghost function Run(rows: Table, ws: seq<Write>): Table
    requires RunEnabled(rows, ws)
    decreases |ws|
  {
    if ws == [] then rows else Run(Apply(rows, ws[0]), ws[1..])
  }

  // --- One address ---

  /** What the chain is meant to hold: a freeze beats a revocation, which beats an approval. */
  function Target(a: Address): Onchain {
    if a.frozenAt.Some? then Frozen
    else if a.revokedAt.Some? then Revoked
    else if Due(a, Allow) then Onchain.Approved
    else a.onchain
  }

  /** The writes an address may still need. */
  function Work(a: Address): nat {
    (if Due(a, Allow) then 1 else 0) + (if Due(a, Disallow) || Due(a, Freeze) then 1 else 0)
  }

  /** In no queue: a frozen intent shows frozen, otherwise a revoked intent shows
      revoked, and no approved address is left pending. */
  lemma SettledExactly(a: Address)
    ensures (forall op :: !Due(a, op)) <==> Work(a) == 0
    ensures Work(a) == 0 <==>
      && (a.frozenAt.Some? ==> a.onchain == Frozen)
      && (a.frozenAt == None && a.revokedAt.Some? ==> a.onchain == Revoked)
      && (a.status == Status.Approved ==> a.onchain != Onchain.Pending)
    ensures Work(a) == 0 ==> a.onchain == Target(a)
  {
  }

  lemma WriteProgress(a: Address, op: Op)
    requires Due(a, op)
    ensures var b := a.(onchain := Confirmed(op)); Work(b) < Work(a) && Target(b) == Target(a)
  {
  }

  // --- All addresses ---

  ghost function WorkAt(rows: Table): Id -> int {
    id => if id in rows then Work(rows[id]) else 0
  }

  ghost function TotalWork(rows: Table): int { Sums.Sum(rows.Keys, WorkAt(rows)) }

  lemma StepShrinks(rows: Table, w: Write)
    requires Enabled(rows, w)
    ensures Apply(rows, w).Keys == rows.Keys
    ensures TotalWork(Apply(rows, w)) < TotalWork(rows)
  {
    var rows' := Apply(rows, w);
    WriteProgress(rows[w.id], w.op);
    assert rows'.Keys == rows.Keys;
    Sums.SumOut(rows.Keys, WorkAt(rows), w.id);
    Sums.SumOut(rows.Keys, WorkAt(rows'), w.id);
    Sums.SumSame(rows.Keys - {w.id}, WorkAt(rows), WorkAt(rows'));
  }

  lemma {:induction false} RunShrinks(rows: Table, ws: seq<Write>)
    requires RunEnabled(rows, ws)
    ensures Run(rows, ws).Keys == rows.Keys
    ensures |ws| + TotalWork(Run(rows, ws)) <= TotalWork(rows)
    ensures forall id | id in rows :: Target(Run(rows, ws)[id]) == Target(rows[id])
    ensures forall id | id in rows :: Run(rows, ws)[id].(onchain := rows[id].onchain) == rows[id]
    decreases |ws|
  {
    if ws != [] {
      StepShrinks(rows, ws[0]);
      WriteProgress(rows[ws[0].id], ws[0].op);
      RunShrinks(Apply(rows, ws[0]), ws[1..]);
    }
  }

  lemma WorkLeft(rows: Table)
    ensures TotalWork(rows) >= 0
  {
    Sums.SumNonNegative(rows.Keys, WorkAt(rows));
  }

  /** How often `ws` writes address `x`. */
  function WritesTo(ws: seq<Write>, x: Id): nat {
    if ws == [] then 0 else (if ws[0].id == x then 1 else 0) + WritesTo(ws[1..], x)
  }

  lemma {:induction false} TwoWritesEach(rows: Table, ws: seq<Write>, x: Id)
    requires RunEnabled(rows, ws) && x in rows
    ensures WritesTo(ws, x) <= Work(rows[x]) <= 2
    decreases |ws|
  {
    if ws != [] {
      if ws[0].id == x { WriteProgress(rows[x], ws[0].op); }
      TwoWritesEach(Apply(rows, ws[0]), ws[1..], x);
    }
  }

  ghost predicate Settled(rows: Table) {
    forall id | id in rows :: Work(rows[id]) == 0
  }

  /** With no new intents, every order of writes stops: after at most two per
      address, and when no queue holds anything the table is the one in which
      every address shows its target, whatever the order was. */
  lemma Converges(rows: Table, ws: seq<Write>)
    requires RunEnabled(rows, ws)
    ensures |ws| <= 2 * |rows.Keys|
    ensures forall id | id in rows :: WritesTo(ws, id) <= 2
    ensures Settled(Run(rows, ws)) ==> Run(rows, ws) == map id | id in rows :: rows[id].(onchain := Target(rows[id]))
    ensures !Settled(Run(rows, ws)) ==> exists w :: Enabled(Run(rows, ws), w)
  {
    RunShrinks(rows, ws);
    Sums.SumBound(rows.Keys, WorkAt(rows), 2);
    WorkLeft(Run(rows, ws));
    forall id | id in rows ensures WritesTo(ws, id) <= 2 { TwoWritesEach(rows, ws, id); }
    var end := Run(rows, ws);
    if Settled(end) {
      var goal := map id | id in rows :: rows[id].(onchain := Target(rows[id]));
      forall id | id in rows ensures end[id] == goal[id] {
        SettledExactly(end[id]);
        assert end[id].(onchain := rows[id].onchain) == rows[id];
      }
      assert end.Keys == goal.Keys;
    } else {
      var id :| id in end && Work(end[id]) != 0;
      SettledExactly(end[id]);
      var op :| Due(end[id], op);
      assert Enabled(end, Write(op, id));
    }
  }

  // --- The worker ---

  const BATCH: nat := 50

  lemma {:induction false} RunAppend(rows: Table, ws: seq<Write>, w: Write)
    requires RunEnabled(rows, ws) && Enabled(Run(rows, ws), w)
    ensures RunEnabled(rows, ws + [w]) && Run(rows, ws + [w]) == Apply(Run(rows, ws), w)
    decreases |ws|
  {
    if ws == [] {
      assert ws + [w] == [w];
    } else {
      RunAppend(Apply(rows, ws[0]), ws[1..], w);
      assert (ws + [w])[1..] == ws[1..] + [w];
    }
  }

  /** The table after a pass over `ids`: a failed submission leaves its row as it was. */
  ghost function Processed(rows: Table, op: Op, ids: seq<Id>, submit: (Op, string) -> bool): Table {
    map id | id in rows ::
      if id in ids && submit(op, rows[id].account) then rows[id].(onchain := Confirmed(op)) else rows[id]
  }

  /** The writes of `trace`, each enabled when made, lead from `start` to `rows`. */
  ghost predicate Traced(start: Table, trace: seq<Write>, rows: Table) {
    RunEnabled(start, trace) && rows == Run(start, trace)
  }

  ghost predicate AllSubmit(submit: (Op, string) -> bool) {
    forall op, account :: submit(op, account)
  }

  method Submit(repo: CounterpartyRepository, op: Op, id: Id, submit: (Op, string) -> bool,
                ghost start: Table, ghost trace: seq<Write>)
    returns (ghost trace': seq<Write>)
    requires Traced(start, trace, repo.rows) && id in repo.rows && Due(repo.rows[id], op)
    modifies repo
    ensures Traced(start, trace', repo.rows)
    ensures |trace'| == |trace| + if submit(op, old(repo.rows)[id].account) then 1 else 0
    ensures repo.rows == Processed(old(repo.rows), op, [id], submit)
  {
    trace' := trace;
    if submit(op, repo.rows[id].account) {
      RunAppend(start, trace, Write(op, id));
      var _ := repo.SetOnchainState(id, Confirmed(op));
      trace' := trace + [Write(op, id)];
    }
  }

  lemma ProcessedNext(rows: Table, op: Op, ids: seq<Id>, i: nat, submit: (Op, string) -> bool)
    requires i < |ids| && Distinct(ids) && ids[i] in rows
    ensures var t := Processed(rows, op, ids[..i], submit);
      && t[ids[i]] == rows[ids[i]]
      && Processed(t, op, [ids[i]], submit) == Processed(rows, op, ids[..i + 1], submit)
  {
  }

  /** One queue's pass: list a batch, submit each address in turn. */
  method Process(repo: CounterpartyRepository, op: Op, submit: (Op, string) -> bool,
                 ghost start: Table, ghost trace: seq<Write>)
    returns (ids: seq<Id>, ghost trace': seq<Write>)
    requires Traced(start, trace, repo.rows)
    modifies repo
    ensures Traced(start, trace', repo.rows)
    ensures IsWriterBatch(old(repo.rows), op, BATCH, ids)
    ensures repo.rows == Processed(old(repo.rows), op, ids, submit)
    ensures |trace'| >= |trace|
    ensures AllSubmit(submit) ==> |trace'| == |trace| + |ids|
  {
    ids := repo.ListNeeding(op, BATCH);
    trace' := SubmitAll(repo, op, ids, submit, start, trace);
  }

  method SubmitAll(repo: CounterpartyRepository, op: Op, ids: seq<Id>, submit: (Op, string) -> bool,
                   ghost start: Table, ghost trace: seq<Write>)
    returns (ghost trace': seq<Write>)
    requires Traced(start, trace, repo.rows)
    requires Distinct(ids) && forall id | id in ids :: id in repo.rows && Due(repo.rows[id], op)
    modifies repo
    ensures Traced(start, trace', repo.rows)
    ensures repo.rows == Processed(old(repo.rows), op, ids, submit)
    ensures |trace'| >= |trace|
    ensures AllSubmit(submit) ==> |trace'| == |trace| + |ids|
  {
    trace' := trace;
    ghost var before := repo.rows;
    for i := 0 to |ids|
      invariant Traced(start, trace', repo.rows)
      invariant repo.rows == Processed(before, op, ids[..i], submit)
      invariant |trace'| >= |trace|
      invariant AllSubmit(submit) ==> |trace'| == |trace| + i
    {
      assert ids[i] in ids;
      ProcessedNext(before, op, ids, i, submit);
      trace' := Submit(repo, op, ids[i], submit, start, trace');
    }
    assert ids[..|ids|] == ids;
  }

  lemma PassClears(rows: Table, op: Op, ids: seq<Id>, submit: (Op, string) -> bool)
    requires IsWriterBatch(rows, op, BATCH, ids) && |rows.Keys| <= BATCH && AllSubmit(submit)
    ensures var rows' := Processed(rows, op, ids, submit);
      && rows'.Keys == rows.Keys
      && (forall id | id in rows' :: !Due(rows'[id], op))
      && (forall id, earlier | id in rows' && !Due(rows[id], earlier) && op != Allow && earlier != Freeze ::
            !Due(rows'[id], earlier))
  {
    BatchComplete(rows, (a: Address) => Due(a, op), (a: Address) => QueueKey(a, op), BATCH, ids);
    assert Processed(rows, op, ids, submit).Keys == rows.Keys;
  }

  lemma ThreePassesSettle(start: Table, allows: seq<Id>, revokes: seq<Id>, freezes: seq<Id>,
                          submit: (Op, string) -> bool)
    requires AllSubmit(submit) && |start.Keys| <= BATCH && IsWriterBatch(start, Allow, BATCH, allows)
    requires var t1 := Processed(start, Allow, allows, submit);
      && IsWriterBatch(t1, Disallow, BATCH, revokes)
      && IsWriterBatch(Processed(t1, Disallow, revokes, submit), Freeze, BATCH, freezes)
    ensures var t1 := Processed(start, Allow, allows, submit);
      Settled(Processed(Processed(t1, Disallow, revokes, submit), Freeze, freezes, submit))
  {
    var t1 := Processed(start, Allow, allows, submit);
    var t2 := Processed(t1, Disallow, revokes, submit);
    var end := Processed(t2, Freeze, freezes, submit);
    PassClears(start, Allow, allows, submit);
    PassClears(t1, Disallow, revokes, submit);
    PassClears(t2, Freeze, freezes, submit);
    forall id | id in end ensures Work(end[id]) == 0 {
      SettledExactly(end[id]);
    }
  }

  /** One tick of the worker: allows, then revocations, then freezes. Whatever
      fails, it is a run of enabled writes; when nothing fails it makes progress,
      and a table within the batch size is settled by a single tick. */
  method Tick(repo: CounterpartyRepository, submit: (Op, string) -> bool) returns (ghost trace: seq<Write>)
    modifies repo
    ensures Traced(old(repo.rows), trace, repo.rows)
    ensures AllSubmit(submit) && !Settled(old(repo.rows)) ==> trace != []
    ensures AllSubmit(submit) && |old(repo.rows).Keys| <= BATCH ==> Settled(repo.rows)
  {
    ghost var start := repo.rows;
    var allows, revokes, freezes;
    allows, trace := Process(repo, Allow, submit, start, []);
    ghost var t1 := repo.rows;
    revokes, trace := Process(repo, Disallow, submit, start, trace);
    ghost var t2 := repo.rows;
    freezes, trace := Process(repo, Freeze, submit, start, trace);
    if AllSubmit(submit) && |start.Keys| <= BATCH {
      ThreePassesSettle(start, allows, revokes, freezes, submit);
    }
    if AllSubmit(submit) && trace == [] {
      Idle(start, allows, submit);
      Idle(t1, revokes, submit);
      Idle(t2, freezes, submit);
    }
  }

  /** A pass over an empty batch changes nothing. */
  lemma Idle(rows: Table, ids: seq<Id>, submit: (Op, string) -> bool)
    ensures ids == [] ==> forall op :: Processed(rows, op, ids, submit) == rows
  {
  }
}
