/**
 Settlement sweeps over the Airtel log: listing the queue and setting the applied
 figures are separate statements, and the second has no guard of its own.
 */
module AirtelSweeps {
  import opened Options
  import opened AirtelLog
  import Runs = AirtelRuns
  import Applied

  type Sid = nat

  /** `held` is what each sweep has listed and not set yet. */
  datatype State = State(log: Log, held: map<Sid, set<PartnerId>>)

  datatype Event =
    | Notice(e: Runs.Event)                          // a notification, confirmation or poll
    | Lists(sid: Sid, ids: set<PartnerId>)
    | Sets(sid: Sid, p: PartnerId, stroops: int)
    | Ends(sid: Sid)

  function Held(s: State, sid: Sid): set<PartnerId> { if sid in s.held then s.held[sid] else {} }

  predicate IsApplied(log: Log, p: PartnerId) { p in log && log[p].applied.Some? }

  ghost predicate Enabled(s: State, e: Event) {
    match e
    case Notice(n) => !n.ApplyEvent? && Runs.Enabled(s.log, n)
    case Lists(_, ids) => forall p | p in ids :: p in s.log && Unapplied(s.log[p])
    case Sets(sid, p, _) => p in Held(s, sid)
    case Ends(_) => true
  }

  function Step(s: State, e: Event): State {
    match e
    case Notice(n) => s.(log := Runs.Step(s.log, n))
    case Lists(sid, ids) => s.(held := s.held[sid := ids])
    case Sets(sid, p, stroops) =>
      State(Runs.Step(s.log, Runs.ApplyEvent(p, stroops)), s.held[sid := Held(s, sid) - {p}])
    case Ends(sid) => s.(held := s.held - {sid})
  }

  function Run(s: State, es: seq<Event>): State
    decreases |es|
  {
    if es == [] then s else Run(Step(s, es[0]), es[1..])
  }

  ghost predicate RunEnabled(s: State, es: seq<Event>)
    decreases |es|
  {
    es == [] || (Enabled(s, es[0]) && RunEnabled(Step(s, es[0]), es[1..]))
  }

  /** No sweep lists a row another one still holds. */
  ghost predicate Exclusive(s: State, e: Event) {
    e.Lists? ==> forall other | other != e.sid :: Held(s, other) !! e.ids
  }

  ghost predicate RunExclusive(s: State, es: seq<Event>)
    decreases |es|
  {
    es == [] || (Exclusive(s, es[0]) && RunExclusive(Step(s, es[0]), es[1..]))
  }

  // --- How often a row is applied ---

  function TimesSet(es: seq<Event>, p: PartnerId): nat {
    if es == [] then 0 else (if es[0].Sets? && es[0].p == p then 1 else 0) + TimesSet(es[1..], p)
  }

  function Already(log: Log, p: PartnerId): nat { if IsApplied(log, p) then 1 else 0 }

  /** Rows are never deleted, so what is held is in the log. */
  ghost predicate HeldInLog(s: State) { forall sid, p | p in Held(s, sid) :: p in s.log }

  /** At most one sweep holds the row, and none once it is applied. */
  ghost predicate HeldOnce(s: State, p: PartnerId) {
    && (forall a, b | p in Held(s, a) && p in Held(s, b) :: a == b)
    && (IsApplied(s.log, p) ==> forall a :: p !in Held(s, a))
  }

  lemma NoticeKeepsApplied(log: Log, n: Runs.Event, p: PartnerId)
    requires !n.ApplyEvent? && Runs.Enabled(log, n)
    ensures IsApplied(Runs.Step(log, n), p) <==> IsApplied(log, p)
  {
  }

  lemma NoticeKeepsRows(log: Log, n: Runs.Event)
    ensures log.Keys <= Runs.Step(log, n).Keys
  {
  }

  lemma HeldAfter(s: State, e: Event, sid: Sid)
    ensures !e.Notice? && sid == e.sid && e.Lists? ==> Held(Step(s, e), sid) == e.ids
    ensures !e.Notice? && sid == e.sid && e.Sets? ==> Held(Step(s, e), sid) == Held(s, sid) - {e.p}
    ensures !e.Notice? && sid == e.sid && e.Ends? ==> Held(Step(s, e), sid) == {}
    ensures e.Notice? || sid != e.sid ==> Held(Step(s, e), sid) == Held(s, sid)
  {
  }

  lemma StepKeepsInLog(s: State, e: Event)
    requires Enabled(s, e) && HeldInLog(s)
    ensures HeldInLog(Step(s, e))
  {
    var s' := Step(s, e);
    if e.Notice? { NoticeKeepsRows(s.log, e.e); }
    forall sid, p | p in Held(s', sid) ensures p in s'.log { HeldAfter(s, e, sid); }
  }

  lemma StepKeepsOnce(s: State, e: Event, p: PartnerId)
    requires Enabled(s, e) && Exclusive(s, e) && HeldInLog(s) && HeldOnce(s, p)
    ensures HeldOnce(Step(s, e), p)
    ensures Already(Step(s, e).log, p) == Already(s.log, p) + if e.Sets? && e.p == p then 1 else 0
  {
    var s' := Step(s, e);
    if e.Notice? { NoticeKeepsApplied(s.log, e.e, p); }
    forall a, b | p in Held(s', a) && p in Held(s', b) ensures a == b {
      HeldAfter(s, e, a);
      HeldAfter(s, e, b);
    }
    if IsApplied(s'.log, p) {
      forall a ensures p !in Held(s', a) { HeldAfter(s, e, a); }
    }
  }

  lemma {:induction false} RunAppliesOnce(s: State, es: seq<Event>, p: PartnerId)
    requires RunEnabled(s, es) && RunExclusive(s, es) && HeldInLog(s) && HeldOnce(s, p)
    ensures Already(s.log, p) + TimesSet(es, p) <= 1
    decreases |es|
  {
    if es != [] {
      StepKeepsInLog(s, es[0]);
      StepKeepsOnce(s, es[0], p);
      RunAppliesOnce(Step(s, es[0]), es[1..], p);
    }
  }

  /** Whatever else happens, as long as sweeps list exclusively from now on, the row is
      applied at most once in all. */
  ghost predicate AppliedOnceFrom(s: State, p: PartnerId) {
    forall es | RunEnabled(s, es) && RunExclusive(s, es) :: Already(s.log, p) + TimesSet(es, p) <= 1
  }

  /** That is so exactly when no two sweeps hold the row, and none does once it is applied. */
  lemma AppliedOnceExactly(s: State, p: PartnerId)
    requires HeldInLog(s)
    ensures AppliedOnceFrom(s, p) <==> HeldOnce(s, p)
  {
    if HeldOnce(s, p) {
      forall es | RunEnabled(s, es) && RunExclusive(s, es) ensures Already(s.log, p) + TimesSet(es, p) <= 1 {
        RunAppliesOnce(s, es, p);
      }
    } else if IsApplied(s.log, p) && exists a :: p in Held(s, a) {
      var a :| p in Held(s, a);
      var es := [Sets(a, p, 0)];
      assert es[1..] == [] && TimesSet(es[1..], p) == 0;
      assert TimesSet(es, p) == 1;
      assert RunEnabled(s, es) && RunExclusive(s, es);
    } else {
      var a, b :| p in Held(s, a) && p in Held(s, b) && a != b;
      SetTwice(s, p, a, b);
    }
  }

  lemma SetTwice(s: State, p: PartnerId, a: Sid, b: Sid)
    requires p in Held(s, a) && p in Held(s, b) && a != b
    ensures !AppliedOnceFrom(s, p)
  {
    var es := [Sets(a, p, 0), Sets(b, p, 0)];
    assert es[1..] == [Sets(b, p, 0)] && [Sets(b, p, 0)][1..] == [];
    HeldAfter(s, es[0], b);
    var s1 := Step(s, es[0]);
    assert RunEnabled(s1, es[1..]) && RunExclusive(s1, es[1..]);
    assert TimesSet(es[1..], p) == 1;
    assert RunEnabled(s, es) && RunExclusive(s, es) && TimesSet(es, p) == 2;
  }

  /** Listing keeps that so for every row exactly when it is exclusive. */
  lemma ListingExactly(s: State, e: Event)
    requires e.Lists? && Enabled(s, e) && HeldInLog(s) && forall p :: HeldOnce(s, p)
    ensures (forall p :: HeldOnce(Step(s, e), p)) <==> Exclusive(s, e)
  {
    var s' := Step(s, e);
    if Exclusive(s, e) {
      forall p ensures HeldOnce(s', p) { StepKeepsOnce(s, e, p); }
    } else {
      var other :| other != e.sid && !(Held(s, other) !! e.ids);
      var p :| p in Held(s, other) && p in e.ids;
      HeldAfter(s, e, other);
      HeldAfter(s, e, e.sid);
      assert !HeldOnce(s', p);
    }
  }

  // --- Exclusive sweeps are runs of the log ---

  /** What the log sees of a run. */
  function OnLog(es: seq<Event>): seq<Runs.Event> {
    if es == [] then []
    else (match es[0]
          case Notice(n) => [n]
          case Sets(_, p, stroops) => [Runs.ApplyEvent(p, stroops)]
          case _ => []) + OnLog(es[1..])
  }

  function EverSet(es: seq<Event>): int {
    if es == [] then 0 else (if es[0].Sets? then es[0].stroops else 0) + EverSet(es[1..])
  }

  /** Held rows are still as the queue listed them, each in one sweep's hands. */
  ghost predicate Inv(s: State) {
    && Runs.ReceiptsUnique(s.log)
    && (forall sid, p | p in Held(s, sid) :: p in s.log && Unapplied(s.log[p]))
    && (forall a, b | a != b :: Held(s, a) !! Held(s, b))
  }

  lemma NoticeKeepsUnapplied(log: Log, n: Runs.Event, p: PartnerId)
    requires !n.ApplyEvent? && Runs.Enabled(log, n) && Runs.ReceiptsUnique(log)
    requires p in log && Unapplied(log[p])
    ensures p in Runs.Step(log, n) && Unapplied(Runs.Step(log, n)[p])
  {
    Runs.StepKeeps(log, n);
    NoticeKeepsApplied(log, n, p);
    assert Runs.Keeps(log[p], Runs.Step(log, n)[p]);
  }

  lemma StepKeepsInv(s: State, e: Event)
    requires Enabled(s, e) && Exclusive(s, e) && Inv(s)
    ensures Inv(Step(s, e))
    ensures e.Sets? ==> Runs.Enabled(s.log, Runs.ApplyEvent(e.p, e.stroops))
  {
    var s' := Step(s, e);
    if e.Notice? { Runs.StepKeeps(s.log, e.e); }
    if e.Sets? { Runs.StepKeeps(s.log, Runs.ApplyEvent(e.p, e.stroops)); }
    forall sid, p | p in Held(s', sid) ensures p in s'.log && Unapplied(s'.log[p]) {
      HeldAfter(s, e, sid);
      if e.Notice? { NoticeKeepsUnapplied(s.log, e.e, p); }
    }
    forall a, b | a != b ensures Held(s', a) !! Held(s', b) {
      HeldAfter(s, e, a);
      HeldAfter(s, e, b);
    }
  }

  lemma {:induction false} SweepsAreRuns(s: State, es: seq<Event>)
    requires RunEnabled(s, es) && RunExclusive(s, es) && Inv(s)
    ensures Runs.RunEnabled(s.log, OnLog(es)) && Runs.Run(s.log, OnLog(es)) == Run(s, es).log
    ensures Runs.EverApplied(OnLog(es)) == EverSet(es)
    decreases |es|
  {
    if es != [] {
      var s' := Step(s, es[0]);
      StepKeepsInv(s, es[0]);
      SweepsAreRuns(s', es[1..]);
      if es[0].Notice? || es[0].Sets? {
        var n := if es[0].Notice? then es[0].e else Runs.ApplyEvent(es[0].p, es[0].stroops);
        assert OnLog(es) == [n] + OnLog(es[1..]);
        assert OnLog(es)[1..] == OnLog(es[1..]);
      } else {
        assert OnLog(es) == OnLog(es[1..]);
      }
    }
  }

  /** With exclusive sweeps the per-loan sums show everything ever set, whatever
      notifications come between a listing and its settings. */
  lemma SweepsConserve(s: State, es: seq<Event>, loans: set<string>)
    requires RunEnabled(s, es) && RunExclusive(s, es) && Inv(s)
    requires forall p | p in s.log :: s.log[p].applied == None
    requires Applied.Covers(loans, BookOf(Run(s, es).log))
    ensures Applied.ByLoans(BookOf(Run(s, es).log), loans) == EverSet(es)
  {
    SweepsAreRuns(s, es);
    Runs.LoansShowEverythingApplied(s.log, OnLog(es), loans);
  }

  /** Two sweeps that list the same row break both: it is set twice, and what was set
      first is no longer shown. */
  lemma OverlapLoses(s: State, p: PartnerId)
    requires Inv(s) && p in s.log && Unapplied(s.log[p])
    ensures var es := [Lists(1, {p}), Lists(2, {p}), Sets(1, p, 3), Sets(2, p, 4)];
      && RunEnabled(s, es) && TimesSet(es, p) == 2
      && p in Run(s, es).log && Run(s, es).log[p].applied == Some(4) && EverSet(es) == 7
  {
    var es := [Lists(1, {p}), Lists(2, {p}), Sets(1, p, 3), Sets(2, p, 4)];
    var s1 := Step(s, es[0]);
    var s2 := Step(s1, es[1]);
    var s3 := Step(s2, es[2]);
    var s4 := Step(s3, es[3]);
    assert es[1..] == [es[1], es[2], es[3]] && es[1..][1..] == [es[2], es[3]];
    assert [es[2], es[3]][1..] == [es[3]] && [es[3]][1..] == [];
    assert Run(s3, [es[3]]) == Run(s4, []) == s4 && RunEnabled(s3, [es[3]]);
    assert Run(s2, [es[2], es[3]]) == s4 && RunEnabled(s2, [es[2], es[3]]);
    assert Run(s1, es[1..]) == s4 && RunEnabled(s1, es[1..]);
    assert TimesSet([es[3]], p) == 1 && TimesSet([es[2], es[3]], p) == 2 && TimesSet(es[1..], p) == 2;
    assert EverSet([es[3]]) == 4 && EverSet([es[2], es[3]]) == 7 && EverSet(es[1..]) == 7;
  }
}
