/** Status histories over any sequence of creations and updates. */
module LedgerRuns {
  import opened Options
  import opened TransactionLedger

  datatype Event = CreateEvent(id: Id, created: CreateRequest) | UpdateEvent(id: Id, req: UpdateRequest)

  /** A creation under an id already in use does not happen: ids are fresh. */
  function Step(rows: Table, e: Event): Table {
    match e
    case CreateEvent(id, req) => if id in rows then rows else AfterCreate(rows, id, req).0
    case UpdateEvent(id, req) => AfterUpdate(rows, id, req).0
  }

  function Run(rows: Table, es: seq<Event>): Table
    decreases |es|
  {
    if es == [] then rows else Run(Step(rows, es[0]), es[1..])
  }

  function StatusOf(rows: Table, id: Id): Option<Status> { if id in rows then Some(rows[id].status) else None }

  /** The statuses a row passes through; None until it is created. */
  function History(rows: Table, es: seq<Event>, id: Id): seq<Option<Status>>
    decreases |es|
  {
    [StatusOf(rows, id)] + if es == [] then [] else History(Step(rows, es[0]), es[1..], id)
  }

  /** A row appears pending, and moves only along the table. */
  predicate Follows(a: Option<Status>, b: Option<Status>) {
    match (a, b)
    case (None, None) => true
    case (None, Some(s)) => s == Pending
    case (Some(s), Some(t)) => IsValidTransition(s, t)
    case (Some(_), None) => false
  }

  ghost predicate IsWalk(history: seq<Option<Status>>) {
    forall i | 0 < i < |history| :: Follows(history[i - 1], history[i])
  }

  predicate Final(s: Option<Status>) { s == Some(Success) || s == Some(Cancelled) }

  // --- One step ---

  lemma StepFollows(rows: Table, e: Event, id: Id)
    ensures Follows(StatusOf(rows, id), StatusOf(Step(rows, e), id))
  {
  }

  lemma StepKeepsUnique(rows: Table, e: Event)
    requires HashesUnique(rows)
    ensures HashesUnique(Step(rows, e))
  {
  }

  /** A row that is done does not change in any column; no row changes its terms. */
  lemma StepKeepsRow(rows: Table, e: Event, id: Id)
    requires id in rows
    ensures id in Step(rows, e) && Step(rows, e)[id].terms == rows[id].terms
    ensures Final(Some(rows[id].status)) ==> Step(rows, e)[id] == rows[id]
  {
  }

  // --- Any run ---

  lemma HistoryStarts(rows: Table, es: seq<Event>, id: Id)
    ensures |History(rows, es, id)| > 0 && History(rows, es, id)[0] == StatusOf(rows, id)
  {
  }

  lemma {:induction false} HistoryIsWalk(rows: Table, es: seq<Event>, id: Id)
    ensures IsWalk(History(rows, es, id))
    decreases |es|
  {
    if es != [] {
      var rest := History(Step(rows, es[0]), es[1..], id);
      HistoryIsWalk(Step(rows, es[0]), es[1..], id);
      HistoryStarts(Step(rows, es[0]), es[1..], id);
      StepFollows(rows, es[0], id);
      var h := History(rows, es, id);
      assert h == [StatusOf(rows, id)] + rest;
      forall i | 0 < i < |h| ensures Follows(h[i - 1], h[i]) {
        if i > 1 { assert Follows(rest[i - 2], rest[i - 1]); }
      }
    }
  }

  lemma {:induction false} HistoryEnds(rows: Table, es: seq<Event>, id: Id)
    ensures |History(rows, es, id)| == |es| + 1
    ensures History(rows, es, id)[|es|] == StatusOf(Run(rows, es), id)
    decreases |es|
  {
    if es != [] {
      HistoryEnds(Step(rows, es[0]), es[1..], id);
    }
  }

  /** A row succeeds or fails once submitted, is submitted or cancelled while pending, and
      is pending when new or tried again; no other status is entered. */
  predicate MayEnter(was: Option<Status>, now: Option<Status>) {
    match now
    case Some(Success) => was == Some(Submitted)
    case Some(Failed) => was == Some(Submitted)
    case Some(Submitted) => was == Some(Pending)
    case Some(Cancelled) => was == Some(Pending)
    case Some(Pending) => was == None || was == Some(Failed)
    case _ => false
  }

  ghost predicate IsLawful(history: seq<Option<Status>>) {
    forall i | 0 < i < |history| :: history[i - 1] == history[i] || MayEnter(history[i - 1], history[i])
  }

  lemma LawfulIsWalk(history: seq<Option<Status>>)
    ensures IsLawful(history) <==> IsWalk(history)
  {
    assert forall a, b :: Follows(a, b) <==> a == b || MayEnter(a, b);
  }

  const NOTHING_ASKED := UpdateRequest(None, None, None, None, None, None, None, None)

  const SOME_CREATION :=
    CreateRequest(Terms(None, None, None, "deposit", 1, "USDC", None, None), None, None, None, None, None, None)

  /** The step that takes a row from one status to the next. */
  function Moving(id: Id, was: Option<Status>, now: Option<Status>): Event {
    if was == None && now.Some? then CreateEvent(id, SOME_CREATION)
    else if now.Some? then UpdateEvent(id, NOTHING_ASKED.(status := now))
    else UpdateEvent(id, NOTHING_ASKED)
  }

  lemma MovingMoves(rows: Table, id: Id, now: Option<Status>)
    requires HashesUnique(rows) && Follows(StatusOf(rows, id), now)
    ensures StatusOf(Step(rows, Moving(id, StatusOf(rows, id), now)), id) == now
  {
    if id in rows {
      var req := NOTHING_ASKED.(status := now);
      assert Overlaid(rows[id], req).stellarTxHash == rows[id].stellarTxHash;
      assert !HashTaken(rows, id, rows[id].stellarTxHash);
    }
  }

  /** Every walk from where a row is happens: the service refuses no step of it. */
  lemma {:induction false} WalkHappens(rows: Table, id: Id, history: seq<Option<Status>>) returns (es: seq<Event>)
    requires HashesUnique(rows) && IsWalk(history) && history != [] && history[0] == StatusOf(rows, id)
    ensures History(rows, es, id) == history
    decreases |history|
  {
    es := [];
    if |history| > 1 {
      var e := Moving(id, history[0], history[1]);
      assert Follows(history[0], history[1]);
      MovingMoves(rows, id, history[1]);
      StepKeepsUnique(rows, e);
      var rest := history[1..];
      assert forall i | 0 < i < |rest| :: rest[i] == history[i + 1] && rest[i - 1] == history[i];
      var later := WalkHappens(Step(rows, e), id, rest);
      es := [e] + later;
      assert es[1..] == later;
    }
  }

  /** What can become of a row is exactly this: the histories are the lawful sequences of
      statuses that start where it stands. */
  lemma HistoriesExactly(rows: Table, id: Id, history: seq<Option<Status>>)
    requires HashesUnique(rows)
    ensures (exists es :: History(rows, es, id) == history)
       <==> IsLawful(history) && history != [] && history[0] == StatusOf(rows, id)
  {
    LawfulIsWalk(history);
    if IsLawful(history) && history != [] && history[0] == StatusOf(rows, id) {
      var es := WalkHappens(rows, id, history);
      assert History(rows, es, id) == history;
    }
    forall es | History(rows, es, id) == history
      ensures IsLawful(history) && history != [] && history[0] == StatusOf(rows, id)
    {
      HistoryIsWalk(rows, es, id);
      HistoryStarts(rows, es, id);
    }
  }

  lemma {:induction false} WalkReachesSubmitted(history: seq<Option<Status>>, k: nat)
    requires IsWalk(history) && k < |history| && history[0] == None && history[k] == Some(Success)
    ensures exists i | 0 <= i < k :: history[i] == Some(Submitted)
  {
    assert k > 0 && Follows(history[k - 1], history[k]);
    if history[k - 1] == Some(Success) { WalkReachesSubmitted(history, k - 1); }
  }

  /** A row that succeeded was submitted first, whatever else happened to it. */
  lemma SucceededWasSubmitted(es: seq<Event>, id: Id)
    requires StatusOf(Run(map[], es), id) == Some(Success)
    ensures exists i | 0 <= i < |History(map[], es, id)| :: History(map[], es, id)[i] == Some(Submitted)
  {
    HistoryIsWalk(map[], es, id);
    HistoryEnds(map[], es, id);
    HistoryStarts(map[], es, id);
    WalkReachesSubmitted(History(map[], es, id), |es|);
  }

  /** A succeeded or cancelled row never changes again, a row's terms never change,
      and hashes stay unique. */
  lemma {:induction false} RunKeepsRow(rows: Table, es: seq<Event>, id: Id)
    requires HashesUnique(rows) && id in rows
    ensures HashesUnique(Run(rows, es))
    ensures id in Run(rows, es) && Run(rows, es)[id].terms == rows[id].terms
    ensures Final(Some(rows[id].status)) ==> Run(rows, es)[id] == rows[id]
    decreases |es|
  {
    if es != [] {
      StepKeepsUnique(rows, es[0]);
      StepKeepsRow(rows, es[0], id);
      RunKeepsRow(Step(rows, es[0]), es[1..], id);
    }
  }
}
