/**
 Updates of the ledger that overlap: the read that checks a row and the write that
 follows are two statements, and the write carries no guard on the status.
 */
module LedgerOverlaps {
  import opened Options
  import opened TransactionLedger
  import Runs = LedgerRuns

  type Sid = nat

  /** An update between its read and its write. */
  datatype Update = Update(id: Id, read: Row, req: UpdateRequest)

  datatype State = State(rows: Table, open: map<Sid, Update>)

  datatype Event =
    | Creates(id: Id, created: CreateRequest)
    | Reads(sid: Sid, id: Id, req: UpdateRequest)
    | Writes(sid: Sid)

  /** What the write statement of an update does to the rows as they are by then. */
  function LateWrite(rows: Table, u: Update): Table {
    if u.id in rows then Written(rows, u.id, Overlaid(rows[u.id], u.req)).0 else rows
  }

  /** A read that finds nothing, or a row the request may not change, ends the update. */
  function Step(s: State, e: Event): State {
    match e
    case Creates(id, req) => s.(rows := Runs.Step(s.rows, Runs.CreateEvent(id, req)))
    case Reads(sid, id, req) =>
      if id in s.rows && Refusal(s.rows[id], req) == None
      then s.(open := s.open[sid := Update(id, s.rows[id], req)]) else s.(open := s.open - {sid})
    case Writes(sid) =>
      if sid in s.open then State(LateWrite(s.rows, s.open[sid]), s.open - {sid}) else s
  }

  function Run(s: State, es: seq<Event>): State
    decreases |es|
  {
    if es == [] then s else Run(Step(s, es[0]), es[1..])
  }

  // --- The rules ---

  function RowOf(rows: Table, id: Id): Option<Row> { if id in rows then Some(rows[id]) else None }

  function StatusIn(row: Option<Row>): Option<Status> { if row.Some? then Some(row.value.status) else None }

  /** A row appears pending, moves along the table, keeps its terms, and does not
      change in any column once it is done. */
  predicate KeepsRules(a: Option<Row>, b: Option<Row>) {
    && Runs.Follows(StatusIn(a), StatusIn(b))
    && (a.Some? && b.Some? ==> b.value.terms == a.value.terms)
    && (Runs.Final(StatusIn(a)) ==> b == a)
  }

  /** One row's past, from the start of a run to its end. */
  function History(s: State, es: seq<Event>, id: Id): seq<Option<Row>>
    decreases |es|
  {
    [RowOf(s.rows, id)] + if es == [] then [] else History(Step(s, es[0]), es[1..], id)
  }

  ghost predicate IsLawful(history: seq<Option<Row>>) {
    forall i | 0 < i < |history| :: KeepsRules(history[i - 1], history[i])
  }

  /** Every row's past follows the rules. */
  ghost predicate RunLawful(s: State, es: seq<Event>) { forall id :: IsLawful(History(s, es, id)) }

  ghost predicate StepLawful(s: State, e: Event) {
    forall id :: KeepsRules(RowOf(s.rows, id), RowOf(Step(s, e).rows, id))
  }

  /** The guard the write lacks: it changes nothing, or the check its update made on
      reading would pass on the row as it is now. */
  ghost predicate Guarded(s: State, e: Event) {
    e.Writes? && e.sid in s.open && s.open[e.sid].id in s.rows ==>
      var u := s.open[e.sid];
      LateWrite(s.rows, u) == s.rows || Refusal(s.rows[u.id], u.req) == None
  }

  ghost predicate RunGuarded(s: State, es: seq<Event>)
    decreases |es|
  {
    es == [] || (Guarded(s, es[0]) && RunGuarded(Step(s, es[0]), es[1..]))
  }

  // --- One write ---

  /** A late write keeps the rules exactly when it changes nothing or the check would
      still pass, whatever its update read. */
  lemma LateWriteExactly(rows: Table, u: Update)
    requires u.id in rows
    ensures KeepsRules(RowOf(rows, u.id), RowOf(LateWrite(rows, u), u.id))
       <==> LateWrite(rows, u) == rows || Refusal(rows[u.id], u.req) == None
    ensures forall id | id != u.id :: RowOf(LateWrite(rows, u), id) == RowOf(rows, id)
  {
  }

  lemma StepKeepsRules(s: State, e: Event)
    ensures StepLawful(s, e) <==> Guarded(s, e)
  {
    if e.Writes? && e.sid in s.open && s.open[e.sid].id in s.rows {
      LateWriteExactly(s.rows, s.open[e.sid]);
      assert KeepsRules(RowOf(s.rows, s.open[e.sid].id), RowOf(LateWrite(s.rows, s.open[e.sid]), s.open[e.sid].id))
        || !Guarded(s, e);
    }
  }

  // --- Any interleaving ---

  lemma HistoryStarts(s: State, es: seq<Event>, id: Id)
    ensures |History(s, es, id)| > 0 && History(s, es, id)[0] == RowOf(s.rows, id)
    ensures es == [] ==> |History(s, es, id)| == 1
  {
  }

  lemma LawfulNext(s: State, es: seq<Event>, id: Id)
    requires es != []
    ensures IsLawful(History(s, es, id)) <==>
      KeepsRules(RowOf(s.rows, id), RowOf(Step(s, es[0]).rows, id)) && IsLawful(History(Step(s, es[0]), es[1..], id))
  {
    var h, rest := History(s, es, id), History(Step(s, es[0]), es[1..], id);
    HistoryStarts(Step(s, es[0]), es[1..], id);
    assert h == [RowOf(s.rows, id)] + rest;
    assert forall i | 0 <= i < |rest| :: h[i + 1] == rest[i];
    if IsLawful(h) {
      assert KeepsRules(h[0], h[1]);
      forall i | 0 < i < |rest| ensures KeepsRules(rest[i - 1], rest[i]) { assert KeepsRules(h[i], h[i + 1]); }
    }
    if KeepsRules(h[0], rest[0]) && IsLawful(rest) {
      forall i | 0 < i < |h| ensures KeepsRules(h[i - 1], h[i]) {
        if i > 1 { assert KeepsRules(rest[i - 2], rest[i - 1]); }
      }
    }
  }

  lemma RunLawfulNext(s: State, es: seq<Event>)
    requires es != []
    ensures RunLawful(s, es) <==> StepLawful(s, es[0]) && RunLawful(Step(s, es[0]), es[1..])
  {
    var s' := Step(s, es[0]);
    forall id
      ensures IsLawful(History(s, es, id)) <==>
        KeepsRules(RowOf(s.rows, id), RowOf(s'.rows, id)) && IsLawful(History(s', es[1..], id))
    {
      LawfulNext(s, es, id);
    }
    if RunLawful(s, es) {
      forall id ensures KeepsRules(RowOf(s.rows, id), RowOf(s'.rows, id)) { LawfulNext(s, es, id); }
      forall id ensures IsLawful(History(s', es[1..], id)) { LawfulNext(s, es, id); }
    }
    if StepLawful(s, es[0]) && RunLawful(s', es[1..]) {
      forall id ensures IsLawful(History(s, es, id)) { LawfulNext(s, es, id); }
    }
  }

  /** In any interleaving of any number of updates, every row's past follows the rules
      exactly when every write meets the guard the statement lacks. */
  lemma {:induction false} LawfulExactly(s: State, es: seq<Event>)
    ensures RunLawful(s, es) <==> RunGuarded(s, es)
    decreases |es|
  {
    if es == [] {
      forall id ensures IsLawful(History(s, es, id)) { HistoryStarts(s, es, id); }
    } else {
      RunLawfulNext(s, es);
      StepKeepsRules(s, es[0]);
      LawfulExactly(Step(s, es[0]), es[1..]);
    }
  }

  lemma {:induction false} HistoryEnds(s: State, es: seq<Event>, id: Id)
    ensures |History(s, es, id)| == |es| + 1
    ensures History(s, es, id)[|es|] == RowOf(Run(s, es).rows, id)
    decreases |es|
  {
    if es != [] { HistoryEnds(Step(s, es[0]), es[1..], id); }
  }

  lemma {:induction false} LawfulFreezes(history: seq<Option<Row>>, i: nat)
    requires IsLawful(history) && i < |history| && Runs.Final(StatusIn(history[0]))
    ensures history[i] == history[0]
  {
    if i > 0 {
      LawfulFreezes(history, i - 1);
      assert KeepsRules(history[i - 1], history[i]);
    }
  }

  /** So under the guard a finished row is the same row at the end of any interleaving. */
  lemma GuardedRunFreezes(s: State, es: seq<Event>, id: Id)
    requires RunGuarded(s, es) && Runs.Final(StatusIn(RowOf(s.rows, id)))
    ensures RowOf(Run(s, es).rows, id) == RowOf(s.rows, id)
  {
    LawfulExactly(s, es);
    HistoryStarts(s, es, id);
    HistoryEnds(s, es, id);
    LawfulFreezes(History(s, es, id), |es|);
  }

  /** An update whose two statements nothing comes between meets the guard, and does
      what the service's Update does. */
  lemma UndisturbedIsUpdate(s: State, sid: Sid, id: Id, req: UpdateRequest)
    ensures var s' := Step(s, Reads(sid, id, req));
      Guarded(s', Writes(sid)) && Step(s', Writes(sid)).rows == AfterUpdate(s.rows, id, req).0
  {
  }

  /** Without the guard: a succeeded row is made to fail by an update that read it
      while it was submitted. */
  lemma OverlappingUpdatesUnfreeze(row: Row, id: Id)
    requires row.status == Submitted
    ensures exists won, lost: UpdateRequest ::
      var s := State(map[id := row], map[]);
      var es := [Reads(1, id, won), Reads(2, id, lost), Writes(1)];
      && RowOf(Run(s, es).rows, id) == Some(row.(status := Success))
      && RowOf(Step(Run(s, es), Writes(2)).rows, id) == Some(row.(status := Failed))
  {
    var nothing := UpdateRequest(None, None, None, None, None, None, None, None);
    var won, lost := nothing.(status := Some(Success)), nothing.(status := Some(Failed));
    var s := State(map[id := row], map[]);
    var s1 := Step(s, Reads(1, id, won));
    var s2 := Step(s1, Reads(2, id, lost));
    var s3 := Step(s2, Writes(1));
    var es := [Reads(1, id, won), Reads(2, id, lost), Writes(1)];
    assert es[1..] == [Reads(2, id, lost), Writes(1)] && es[1..][1..] == [Writes(1)] && [Writes(1)][1..] == [];
    assert Run(s, es) == Run(s1, es[1..]) == Run(s2, [Writes(1)]) == Run(s3, []) == s3;
    assert RowOf(s3.rows, id) == Some(row.(status := Success));
    assert RowOf(Step(s3, Writes(2)).rows, id) == Some(row.(status := Failed));
  }
}
