/**
 What the Airtel log keeps over any run of duplicated and reordered
 notifications, and where two kinds of notification meet.
 */
module AirtelRuns {
  import opened Options
  import opened AirtelLog
  import Applied

  datatype Event =
    | CallbackEvent(p: PartnerId, tx: Row)
    | SummaryEvent(p: PartnerId, tx: Row)
    | ConfirmEvent(p: PartnerId, via: Via, status: string, receipt: string, loan: string)
    | PollEvent(p: PartnerId, at: int)
    | StopEvent(p: PartnerId)
    | ApplyEvent(p: PartnerId, stroops: int)

  /** Notifications arrive unapplied; stroops are set only on a row in the
      settlement queue. */
  ghost predicate Enabled(log: Log, e: Event) {
    match e
    case CallbackEvent(_, tx) => tx.applied == None
    case SummaryEvent(_, tx) => tx.applied == None
    case ApplyEvent(p, _) => p in log && Unapplied(log[p])
    case _ => true
  }

  function Step(log: Log, e: Event): Log {
    match e
    case CallbackEvent(p, tx) => AfterCallback(log, p, tx).0
    case SummaryEvent(p, tx) => AfterSummary(log, p, tx).0
    case ConfirmEvent(p, via, status, receipt, loan) => AfterConfirm(log, p, via, status, receipt, loan).0
    case PollEvent(p, at) =>
      if p in log then log[p := log[p].(nextPollAt := Some(at), pollAttempts := log[p].pollAttempts + 1)] else log
    case StopEvent(p) => if p in log then log[p := log[p].(nextPollAt := None)] else log
    case ApplyEvent(p, stroops) => if p in log then log[p := log[p].(applied := Some(stroops))] else log
  }

  function Run(log: Log, es: seq<Event>): Log
    decreases |es|
  {
    if es == [] then log else Run(Step(log, es[0]), es[1..])
  }

  ghost predicate RunEnabled(log: Log, es: seq<Event>)
    decreases |es|
  {
    es == [] || (Enabled(log, es[0]) && RunEnabled(Step(log, es[0]), es[1..]))
  }

  // --- What a row keeps ---

  /** A later version of the same row: first observation, confirmation, receipt,
      loan and applied figure stay. */
  predicate Keeps(a: Row, b: Row) {
    && b.source == a.source && b.amountMinor == a.amountMinor && b.reference == a.reference
    && (a.confirmed ==> b.confirmed)
    && (Known(a.receipt) ==> Known(b.receipt))
    && (a.loan.Some? ==> b.loan.Some?)
    && (a.applied.Some? ==> b.applied == a.applied)
  }

  ghost predicate Grows(a: Log, b: Log) {
    forall p | p in a :: p in b && Keeps(a[p], b[p])
  }

  /** No two rows hold the same receipt. */
  ghost predicate ReceiptsUnique(log: Log) {
    forall p, q | p in log && q in log && p != q && log[p].receipt.Some? :: log[p].receipt != log[q].receipt
  }

  lemma InsertKeeps(log: Log, p: PartnerId, tx: Row)
    requires !InsertRefused(log, p, tx) && ReceiptsUnique(log)
    ensures Grows(log, log[p := tx]) && ReceiptsUnique(log[p := tx])
  {
  }

  lemma UpdateKeeps(log: Log, p: PartnerId, row: Row)
    requires p in log && Keeps(log[p], row) && ReceiptsUnique(log)
    ensures Grows(log, Updated(log, p, row).0) && ReceiptsUnique(Updated(log, p, row).0)
  {
  }

  lemma StepKeeps(log: Log, e: Event)
    requires Enabled(log, e) && ReceiptsUnique(log)
    ensures Grows(log, Step(log, e)) && ReceiptsUnique(Step(log, e))
  {
    var p := e.p;
    if p in log {
      match e
      case CallbackEvent(_, tx) => UpdateKeeps(log, p, FromCallback(log[p], tx));
      case SummaryEvent(_, tx) => UpdateKeeps(log, p, FromSummary(log[p], tx));
      case ConfirmEvent(_, via, status, receipt, loan) =>
        UpdateKeeps(log, p, FromConfirm(log[p], via, status, receipt, loan));
      case _ => UpdateKeeps(log, p, Step(log, e)[p]);
    } else if (e.CallbackEvent? || e.SummaryEvent?) && !InsertRefused(log, p, e.tx) {
      InsertKeeps(log, p, e.tx);
    }
  }

  /** Over any run: confirmation is never undone, a known receipt never cleared, a
      loan never dropped, an applied figure never changed, the first observation
      never overwritten, and receipts stay unique. */
  lemma {:induction false} RunKeeps(log: Log, es: seq<Event>)
    requires RunEnabled(log, es) && ReceiptsUnique(log)
    ensures Grows(log, Run(log, es)) && ReceiptsUnique(Run(log, es))
    decreases |es|
  {
    if es != [] {
      var log' := Step(log, es[0]);
      StepKeeps(log, es[0]);
      RunKeeps(log', es[1..]);
      forall p | p in log ensures p in Run(log, es) && Keeps(log[p], Run(log, es)[p]) {
        assert Keeps(log[p], log'[p]);
      }
    }
  }

  /** The event confirms the row: it inserts it confirmed, or it is a confirmation or a
      sweep of it that the log accepts. */
  predicate Confirms(log: Log, e: Event, p: PartnerId) {
    match e
    case CallbackEvent(q, tx) => q == p && tx.confirmed && !InsertRefused(log, p, tx)
    case SummaryEvent(q, tx) =>
      q == p && if p in log then AfterSummary(log, p, tx).1 == Ok else tx.confirmed && !InsertRefused(log, p, tx)
    case ConfirmEvent(q, via, status, receipt, loan) =>
      q == p && AfterConfirm(log, p, via, status, receipt, loan).1 == Ok
    case _ => false
  }

  ghost predicate RunConfirms(log: Log, es: seq<Event>, p: PartnerId)
    decreases |es|
  {
    es != [] && (Confirms(log, es[0], p) || RunConfirms(Step(log, es[0]), es[1..], p))
  }

  predicate IsConfirmed(log: Log, p: PartnerId) { p in log && log[p].confirmed }

  lemma StepConfirms(log: Log, e: Event, p: PartnerId)
    ensures IsConfirmed(Step(log, e), p) <==> IsConfirmed(log, p) || Confirms(log, e, p)
  {
  }

  /** Over any run a row is confirmed exactly if it was before, was inserted confirmed, or
      a confirmation or sweep of it was accepted. */
  lemma {:induction false} ConfirmedExactly(log: Log, es: seq<Event>, p: PartnerId)
    ensures IsConfirmed(Run(log, es), p) <==> IsConfirmed(log, p) || RunConfirms(log, es, p)
    decreases |es|
  {
    if es != [] {
      StepConfirms(log, es[0], p);
      ConfirmedExactly(Step(log, es[0]), es[1..], p);
    }
  }

  /** Callbacks for confirmed transactions, however many, change nothing at all. */
  lemma {:induction false} LateCallbacksIgnored(log: Log, es: seq<Event>)
    requires forall i | 0 <= i < |es| :: es[i].CallbackEvent? && es[i].p in log && log[es[i].p].confirmed
    ensures Run(log, es) == log
    decreases |es|
  {
    if es != [] {
      assert es[0].CallbackEvent?;
      assert Step(log, es[0]) == log;
      assert forall i | 0 <= i < |es[1..]| :: es[1..][i] == es[i + 1];
      LateCallbacksIgnored(log, es[1..]);
    }
  }

  // --- A callback and a sweep, in either order ---

  function CallbackFirst(log: Log, p: PartnerId, cb: Row, sw: Row): Log {
    AfterSummary(AfterCallback(log, p, cb).0, p, sw).0
  }

  function SweepFirst(log: Log, p: PartnerId, cb: Row, sw: Row): Log {
    AfterCallback(AfterSummary(log, p, sw).0, p, cb).0
  }

  /** Both orders leave the same rows, and the one they are about agrees on
      confirmation and status. */
  ghost predicate Agree(a: Log, b: Log, p: PartnerId) {
    && a.Keys == b.Keys
    && (forall q | q in a && q != p :: a[q] == b[q])
    && (p in a ==> a[p].confirmed == b[p].confirmed && a[p].status == b[p].status)
  }

  /** The callback puts a receipt on the row that the sweep neither repeats nor replaces. */
  predicate OnlyCallbackHasReceipt(log: Log, p: PartnerId, cb: Row, sw: Row) {
    && !Known(sw.receipt)
    && (if p in log
        then !log[p].confirmed && Known(cb.receipt) && cb.receipt != log[p].receipt && !Clash(log, p, cb.receipt)
        else !Clash(log, p, cb.receipt) && !Clash(log, p, sw.receipt) && cb.receipt != sw.receipt)
  }

  /** The same for the loan, which a callback sets only when it creates the row. */
  predicate OnlyCallbackHasLoan(log: Log, p: PartnerId, cb: Row, sw: Row) {
    && !Known(sw.loan)
    && p !in log && !Clash(log, p, cb.receipt) && !Clash(log, p, sw.receipt) && cb.loan != sw.loan
  }

  /** Neither notification carries an empty receipt: callers set the field only
      from a non-empty string. */
  predicate WellFormed(cb: Row, sw: Row) {
    sw.confirmed && cb.receipt != Some("") && sw.receipt != Some("")
  }

  /** A callback and a confirming sweep of one transaction agree on confirmation
      and status in either order, on the receipt unless only the callback has one,
      and on the loan unless the sweep names none and the callback creates the row. */
  lemma CallbackAndSweepConverge(log: Log, p: PartnerId, cb: Row, sw: Row)
    requires WellFormed(cb, sw) && ReceiptsUnique(log)
    ensures var a, b := CallbackFirst(log, p, cb, sw), SweepFirst(log, p, cb, sw);
      && Agree(a, b, p)
      && (p in a ==> (a[p].receipt == b[p].receipt <==> !OnlyCallbackHasReceipt(log, p, cb, sw)))
      && (p in a ==> (a[p].loan == b[p].loan <==> !OnlyCallbackHasLoan(log, p, cb, sw)))
  {
    if p in log { SweepOnRow(log, p, cb, sw); } else { SweepOnNothing(log, p, cb, sw); }
  }

  /** A clash is about the other rows only. */
  lemma ClashIgnoresRow(log: Log, p: PartnerId, row: Row, receipt: Option<string>)
    ensures Clash(log[p := row], p, receipt) == Clash(log, p, receipt)
  {
    var log' := log[p := row];
    assert forall q | q in log && q != p :: q in log' && log'[q] == log[q];
    assert forall q | q in log' && q != p :: q in log && log'[q] == log[q];
  }

  lemma SweepOnRow(log: Log, p: PartnerId, cb: Row, sw: Row)
    requires WellFormed(cb, sw) && ReceiptsUnique(log) && p in log
    ensures var a, b := CallbackFirst(log, p, cb, sw), SweepFirst(log, p, cb, sw);
      && Agree(a, b, p)
      && p in a
      && (a[p].receipt == b[p].receipt <==> !OnlyCallbackHasReceipt(log, p, cb, sw))
      && a[p].loan == b[p].loan
  {
    ClashIgnoresRow(log, p, FromCallback(log[p], cb), sw.receipt);
    ClashIgnoresRow(log, p, FromSummary(log[p], sw), cb.receipt);
  }

  lemma SweepOnNothing(log: Log, p: PartnerId, cb: Row, sw: Row)
    requires WellFormed(cb, sw) && ReceiptsUnique(log) && p !in log
    ensures var a, b := CallbackFirst(log, p, cb, sw), SweepFirst(log, p, cb, sw);
      && Agree(a, b, p)
      && (p in a ==> (a[p].receipt == b[p].receipt <==> !OnlyCallbackHasReceipt(log, p, cb, sw)))
      && (p in a ==> (a[p].loan == b[p].loan <==> !OnlyCallbackHasLoan(log, p, cb, sw)))
  {
    ClashIgnoresRow(log, p, cb, sw.receipt);
    ClashIgnoresRow(log, p, sw, cb.receipt);
  }

  // --- Conservation ---

  ghost function TotalApplied(log: Log): int { Applied.Total(BookOf(log)) }

  /** Everything ever handed to SetAppliedStroops in a run. */
  function EverApplied(es: seq<Event>): int {
    if es == [] then 0 else (if es[0].ApplyEvent? then es[0].stroops else 0) + EverApplied(es[1..])
  }

  /** A step writes no row but its own. */
  lemma StepWritesOneRow(log: Log, e: Event)
    ensures Step(log, e) == log || (e.p in Step(log, e) && Step(log, e) == log[e.p := Step(log, e)[e.p]])
  {
  }

  lemma StepAmount(log: Log, e: Event)
    requires Enabled(log, e)
    ensures Applied.Amount(BookOf(Step(log, e)), e.p)
         == Applied.Amount(BookOf(log), e.p) + if e.ApplyEvent? then e.stroops else 0
  {
  }

  lemma StepMovesTotal(log: Log, e: Event)
    requires Enabled(log, e)
    ensures TotalApplied(Step(log, e)) == TotalApplied(log) + if e.ApplyEvent? then e.stroops else 0
  {
    StepWritesOneRow(log, e);
    StepAmount(log, e);
    var log' := Step(log, e);
    if log' != log {
      assert BookOf(log') == BookOf(log)[e.p := BookOf(log')[e.p]];
      Applied.WriteMovesTotal(BookOf(log), e.p, BookOf(log')[e.p]);
    }
  }

  lemma StepKeepsLoans(log: Log, e: Event)
    requires Enabled(log, e) && Applied.NamesLoan(BookOf(log))
    ensures Applied.NamesLoan(BookOf(Step(log, e)))
  {
    var log' := Step(log, e);
    StepWritesOneRow(log, e);
    forall p | p in log' && log'[p].applied.Some? ensures log'[p].loan.Some? {
      if p in log { assert BookOf(log)[p] == Applied.Entry(log[p].loan, log[p].applied); }
    }
  }

  /** Conservation: what the log shows as applied is what it showed before plus
      everything applied since, whatever notifications came in between. */
  lemma {:induction false} RunConserves(log: Log, es: seq<Event>)
    requires RunEnabled(log, es) && Applied.NamesLoan(BookOf(log))
    ensures TotalApplied(Run(log, es)) == TotalApplied(log) + EverApplied(es)
    ensures Applied.NamesLoan(BookOf(Run(log, es)))
    decreases |es|
  {
    if es != [] {
      StepMovesTotal(log, es[0]);
      StepKeepsLoans(log, es[0]);
      RunConserves(Step(log, es[0]), es[1..]);
    }
  }

  /** Over any run from a log with nothing applied, the sums shown per loan add up to
      everything ever applied: a later confirmation that moves a row to another loan
      moves money between the sums, never in or out. */
  lemma LoansShowEverythingApplied(log: Log, es: seq<Event>, loans: set<string>)
    requires RunEnabled(log, es) && forall p | p in log :: log[p].applied == None
    requires Applied.Covers(loans, BookOf(Run(log, es)))
    ensures Applied.ByLoans(BookOf(Run(log, es)), loans) == EverApplied(es)
  {
    Applied.NothingApplied(BookOf(log));
    RunConserves(log, es);
    Applied.LoansAddUp(BookOf(Run(log, es)), loans);
    Applied.NoOrphans(BookOf(Run(log, es)));
  }
}
