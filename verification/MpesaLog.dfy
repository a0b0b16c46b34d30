/**
 The M-Pesa observation log, one row per receipt, written by callbacks, status
 queries and the Pull reconciler (pkg/repository/mpesa_repository.go).
 */
module MpesaLog {
  import opened Options
  import opened Queues
  import Applied

  /** The M-Pesa receipt; the table's unique key. */
  type TransId = string

  datatype Source = StkCallback | C2BConfirmation | Pull | StatusResult | StkQuery
  datatype Via = ByStkQuery | ByPull | ByTransactionStatus

  datatype Row = Row(
    source: Source,
    confirmed: bool,
    via: Option<Via>,
    billRef: string,
    loan: Option<string>,
    amountKes: int,
    applied: Option<int>,             // applied_stroops
    msisdnFull: Option<string>,
    transTime: int,
    payload: string,
    reversal: string,
    nextPollAt: Option<int>)

  type Log = map<TransId, Row>

  datatype Result = Ok | Conflict | NotFound | FailedToRecord

  /** The columns a Pull fills in, loan and confirmation included, whatever they held. */
  function FromPull(row: Row, tx: Row): Row {
    row.(msisdnFull := tx.msisdnFull, loan := tx.loan, confirmed := tx.confirmed)
  }

  function AfterPull(log: Log, p: TransId, tx: Row): Log {
    if p in log then log[p := FromPull(log[p], tx)] else log[p := tx]
  }

  /** loan_id is a UUID column, so the empty string is refused. */
  function AfterConfirm(log: Log, p: TransId, via: Via, loan: string): (Log, Result) {
    if loan == "" then (log, FailedToRecord)
    else if p !in log then (log, NotFound)
    else (log[p := log[p].(confirmed := true, via := Some(via), loan := Some(loan), nextPollAt := None)], Ok)
  }

  /** The paybill sweep's queue: an STK payment is never in it. */
  predicate Unapplied(row: Row) {
    row.confirmed && row.loan.Some? && row.applied == None && (row.source == C2BConfirmation || row.source == Pull)
  }

  function BookOf(log: Log): Applied.Book { map p | p in log :: Applied.Entry(log[p].loan, log[p].applied) }

  class MpesaTransactionRepository {
    var rows: Log

    constructor ()
      ensures rows == map[]
    {
      rows := map[];
    }

    method Record(p: TransId, tx: Row) returns (r: Result)
      modifies this
      ensures r == if p in old(rows) then Conflict else Ok
      ensures rows == if p in old(rows) then old(rows) else old(rows)[p := tx]
    {
      if p in rows {
        return Conflict;
      }
      rows := rows[p := tx];
      r := Ok;
    }

    method UpdateFields(p: TransId, tx: Row) returns (r: Result)
      modifies this
      ensures r == if p in old(rows) then Ok else NotFound
      ensures rows == if p in old(rows) then old(rows)[p := FromPull(old(rows)[p], tx)] else old(rows)
    {
      if p !in rows {
        return NotFound;
      }
      rows := rows[p := rows[p].(msisdnFull := tx.msisdnFull, loan := tx.loan, confirmed := tx.confirmed)];
      r := Ok;
    }

    method UpsertFromPull(p: TransId, tx: Row) returns (r: Result)
      modifies this
      ensures r == Ok && rows == AfterPull(old(rows), p, tx)
      ensures p in rows && rows == old(rows)[p := rows[p]]
      ensures p !in old(rows) ==> rows[p] == tx
      ensures p in old(rows) ==>
        && rows[p].confirmed == tx.confirmed && rows[p].loan == tx.loan && rows[p].msisdnFull == tx.msisdnFull
        && rows[p].(confirmed := old(rows)[p].confirmed, loan := old(rows)[p].loan,
                    msisdnFull := old(rows)[p].msisdnFull) == old(rows)[p]
    {
      r := Record(p, tx);
      if r == Ok {
        return;
      }
      if r != Conflict {
        return;
      }
      r := UpdateFields(p, tx);
    }

    method Confirm(p: TransId, via: Via, loan: string) returns (r: Result)
      modifies this
      ensures (rows, r) == AfterConfirm(old(rows), p, via, loan)
      ensures r == Ok <==> p in old(rows) && loan != ""
      ensures r != Ok ==> rows == old(rows) && (r == NotFound <==> loan != "" && p !in old(rows))
      ensures r == Ok ==> p in rows && rows == old(rows)[p := rows[p]]
      ensures r == Ok ==> rows[p].confirmed && rows[p].via == Some(via) && rows[p].loan == Some(loan)
      ensures r == Ok ==> rows[p].nextPollAt == None
      ensures r == Ok ==>
        rows[p].(confirmed := old(rows)[p].confirmed, via := old(rows)[p].via, loan := old(rows)[p].loan,
                 nextPollAt := old(rows)[p].nextPollAt) == old(rows)[p]
      ensures r == Ok && old(rows)[p].applied == None ==>
        (Unapplied(rows[p]) <==> old(rows)[p].source in {C2BConfirmation, Pull})
    {
      if loan == "" {
        return FailedToRecord;
      }
      if p !in rows {
        return NotFound;
      }
      rows := rows[p := rows[p].(confirmed := true, via := Some(via), loan := Some(loan), nextPollAt := None)];
      r := Ok;
    }

    method ListUnappliedConfirmed(limit: nat) returns (due: seq<TransId>)
      ensures IsBatch(rows, Unapplied, (row: Row) => Some(row.transTime), limit, due)
      ensures forall p | p in due :: p in rows && rows[p].confirmed && rows[p].loan.Some? && rows[p].applied == None
      ensures forall p | p in due :: rows[p].source in {C2BConfirmation, Pull}
      ensures |due| < limit ==> forall p | p in rows && rows[p].confirmed && rows[p].loan.Some? ::
        rows[p].applied == None && rows[p].source in {C2BConfirmation, Pull} ==> p in due
      ensures forall i, j | 0 <= i < j < |due| :: rows[due[i]].transTime <= rows[due[j]].transTime
    {
      due := Select(rows, Unapplied, (row: Row) => Some(row.transTime), limit);
    }

    method SetAppliedStroops(p: TransId, stroops: int) returns (r: Result)
      modifies this
      ensures r == if p in old(rows) then Ok else NotFound
      ensures rows == if p in old(rows) then old(rows)[p := old(rows)[p].(applied := Some(stroops))] else old(rows)
    {
      if p !in rows {
        return NotFound;
      }
      rows := rows[p := rows[p].(applied := Some(stroops))];
      r := Ok;
    }

    method SumAppliedStroopsByLoan(loan: string) returns (total: int)
      ensures total == Applied.ByLoan(BookOf(rows), loan)
    {
      total := Applied.SumByLoan(BookOf(rows), loan);
    }
  }

  // --- Runs ---

  datatype Event =
    | RecordEvent(p: TransId, tx: Row)
    | PullEvent(p: TransId, tx: Row)
    | ConfirmEvent(p: TransId, via: Via, loan: string)
    | PollEvent(p: TransId, at: Option<int>)          // UpdatePoll, and StopPoll with None
    | ReversalEvent(p: TransId, state: string)
    | ApplyEvent(p: TransId, stroops: int)

  /** Observations arrive unapplied; stroops are set only on a row in the queue. */
  ghost predicate Enabled(log: Log, e: Event) {
    match e
    case RecordEvent(_, tx) => tx.applied == None
    case PullEvent(_, tx) => tx.applied == None
    case ApplyEvent(p, _) => p in log && Unapplied(log[p])
    case _ => true
  }

  function Step(log: Log, e: Event): Log {
    match e
    case RecordEvent(p, tx) => if p in log then log else log[p := tx]
    case PullEvent(p, tx) => AfterPull(log, p, tx)
    case ConfirmEvent(p, via, loan) => AfterConfirm(log, p, via, loan).0
    case PollEvent(p, at) => if p in log then log[p := log[p].(nextPollAt := at)] else log
    case ReversalEvent(p, state) => if p in log then log[p := log[p].(reversal := state)] else log
    case ApplyEvent(p, stroops) => if p in log then log[p := log[p].(applied := Some(stroops))] else log
  }

  function Run(log: Log, es: seq<Event>): Log
    decreases |es|
  {
    if es == [] then log else Run(Step(log, es[0]), es[1..])
  }

  ghost predicate RunEnabled(log: Log, es: seq<Event>)
    decreases |es|
  {
    es == [] || (Enabled(log, es[0]) && RunEnabled(Step(log, es[0]), es[1..]))
  }

  /** What the first observation of a payment said of it, and what was applied. */
  predicate Keeps(a: Row, b: Row) {
    && b.source == a.source && b.amountKes == a.amountKes && b.payload == a.payload
    && b.billRef == a.billRef && b.transTime == a.transTime
    && (a.applied.Some? ==> b.applied == a.applied)
  }

  /** A step writes no row but its own, and keeps that one's first observation. */
  lemma StepWritesOneRow(log: Log, e: Event)
    ensures Step(log, e) == log || (e.p in Step(log, e) && Step(log, e) == log[e.p := Step(log, e)[e.p]])
    ensures Enabled(log, e) && e.p in log ==> Keeps(log[e.p], Step(log, e)[e.p])
  {
  }

  /** The first observation wins over any run: no later callback or pull changes a
      row's source, amount, payload, reference or time, and an applied figure stays. */
  lemma {:induction false} FirstObservationWins(log: Log, es: seq<Event>, p: TransId)
    requires RunEnabled(log, es) && p in log
    ensures p in Run(log, es) && Keeps(log[p], Run(log, es)[p])
    decreases |es|
  {
    if es != [] {
      StepWritesOneRow(log, es[0]);
      FirstObservationWins(Step(log, es[0]), es[1..], p);
    }
  }

  /** What one event says of a row's confirmation and loan, if it says anything. */
  function Word(e: Event, p: TransId): Option<(bool, Option<string>)> {
    match e
    case PullEvent(q, tx) => if q == p then Some((tx.confirmed, tx.loan)) else None
    case ConfirmEvent(q, _, loan) => if q == p && loan != "" then Some((true, Some(loan))) else None
    case _ => None
  }

  /** The last word of a run on it. */
  function LastWord(es: seq<Event>, p: TransId, before: (bool, Option<string>)): (bool, Option<string>) {
    if es == [] then before
    else
      var last := Word(es[|es| - 1], p);
      if last.Some? then last.value else LastWord(es[..|es| - 1], p, before)
  }

  lemma {:induction false} LastWordFirst(es: seq<Event>, p: TransId, before: (bool, Option<string>))
    requires es != []
    ensures var word := Word(es[0], p);
      LastWord(es, p, before) == LastWord(es[1..], p, if word.Some? then word.value else before)
  {
    var n := |es| - 1;
    if n > 0 {
      assert es[1..][n - 1] == es[n] && es[1..][..n - 1] == es[..n][1..];
      LastWordFirst(es[..n], p, before);
    } else {
      assert es[..0] == [] && es[1..] == [];
    }
  }

  /** Neither confirmation nor attribution is safe from a later pull: over any run both are
      whatever the last confirmation or pull of that receipt said. */
  lemma {:induction false} LastWordWins(log: Log, es: seq<Event>, p: TransId)
    requires p in log
    ensures p in Run(log, es)
    ensures (Run(log, es)[p].confirmed, Run(log, es)[p].loan) == LastWord(es, p, (log[p].confirmed, log[p].loan))
    decreases |es|
  {
    if es != [] {
      StepWritesOneRow(log, es[0]);
      LastWordFirst(es, p, (log[p].confirmed, log[p].loan));
      LastWordWins(Step(log, es[0]), es[1..], p);
    }
  }

  // --- Conservation ---

  function EverApplied(es: seq<Event>): int {
    if es == [] then 0 else (if es[0].ApplyEvent? then es[0].stroops else 0) + EverApplied(es[1..])
  }

  /** A pull whose reference no longer resolves takes an applied row's loan away. */
  predicate ClearsAppliedLoan(log: Log, e: Event) {
    e.PullEvent? && e.tx.loan == None && e.p in log && log[e.p].applied.Some?
  }

  ghost predicate NeverClears(log: Log, es: seq<Event>)
    decreases |es|
  {
    es == [] || (!ClearsAppliedLoan(log, es[0]) && NeverClears(Step(log, es[0]), es[1..]))
  }

  lemma StepMovesTotal(log: Log, e: Event)
    requires Enabled(log, e)
    ensures Applied.Total(BookOf(Step(log, e)))
         == Applied.Total(BookOf(log)) + if e.ApplyEvent? then e.stroops else 0
  {
    var log' := Step(log, e);
    StepWritesOneRow(log, e);
    if log' != log {
      assert BookOf(log') == BookOf(log)[e.p := BookOf(log')[e.p]];
      Applied.WriteMovesTotal(BookOf(log), e.p, BookOf(log')[e.p]);
    }
  }

  /** Every applied row still names a loan after a step exactly unless it cleared one. */
  lemma StepNamesLoan(log: Log, e: Event)
    requires Enabled(log, e) && Applied.NamesLoan(BookOf(log))
    ensures Applied.NamesLoan(BookOf(Step(log, e))) <==> !ClearsAppliedLoan(log, e)
  {
    var log' := Step(log, e);
    StepWritesOneRow(log, e);
    if ClearsAppliedLoan(log, e) {
      assert BookOf(log')[e.p].applied.Some? && BookOf(log')[e.p].loan == None;
    } else {
      forall p | p in log' && log'[p].applied.Some? ensures log'[p].loan.Some? {
        if p in log { assert BookOf(log)[p] == Applied.Entry(log[p].loan, log[p].applied); }
      }
    }
  }

  lemma {:induction false} RunMovesTotal(log: Log, es: seq<Event>)
    requires RunEnabled(log, es)
    ensures Applied.Total(BookOf(Run(log, es))) == Applied.Total(BookOf(log)) + EverApplied(es)
    decreases |es|
  {
    if es != [] {
      StepMovesTotal(log, es[0]);
      RunMovesTotal(Step(log, es[0]), es[1..]);
    }
  }

  lemma {:induction false} RunNamesLoan(log: Log, es: seq<Event>)
    requires RunEnabled(log, es) && Applied.NamesLoan(BookOf(log)) && NeverClears(log, es)
    ensures Applied.NamesLoan(BookOf(Run(log, es)))
    decreases |es|
  {
    if es != [] {
      StepNamesLoan(log, es[0]);
      RunNamesLoan(Step(log, es[0]), es[1..]);
    }
  }

  predicate PositiveFigures(es: seq<Event>) { forall i | 0 <= i < |es| && es[i].ApplyEvent? :: es[i].stroops > 0 }

  lemma {:induction false} RunKeepsPositive(log: Log, es: seq<Event>)
    requires RunEnabled(log, es) && PositiveFigures(es) && Applied.AllPositive(BookOf(log))
    ensures Applied.AllPositive(BookOf(Run(log, es)))
    decreases |es|
  {
    if es != [] {
      var log' := Step(log, es[0]);
      StepWritesOneRow(log, es[0]);
      forall p | p in log' && log'[p].applied.Some? ensures log'[p].applied.value > 0 {
        if p in log && log[p].applied.Some? { assert BookOf(log)[p].applied.value > 0; }
      }
      assert forall i | 0 <= i < |es[1..]| :: es[1..][i] == es[i + 1];
      RunKeepsPositive(log', es[1..]);
    }
  }

  /** The sums shown per loan fall short of everything ever applied by the stroops on rows
      that have lost their loan. As figures are positive they add up exactly when every
      applied row still names one; it does when no pull cleared an applied row's loan. */
  lemma LoansShowAppliedExactly(log: Log, es: seq<Event>, loans: set<string>)
    requires RunEnabled(log, es) && forall p | p in log :: log[p].applied == None
    requires Applied.Covers(loans, BookOf(Run(log, es)))
    ensures Applied.ByLoans(BookOf(Run(log, es)), loans) == EverApplied(es) - Applied.Orphaned(BookOf(Run(log, es)))
    ensures PositiveFigures(es) ==>
      (Applied.ByLoans(BookOf(Run(log, es)), loans) == EverApplied(es) <==> Applied.NamesLoan(BookOf(Run(log, es))))
    ensures NeverClears(log, es) ==> Applied.NamesLoan(BookOf(Run(log, es)))
    ensures NeverClears(log, es) ==> Applied.ByLoans(BookOf(Run(log, es)), loans) == EverApplied(es)
  {
    var book := BookOf(Run(log, es));
    Applied.NothingApplied(BookOf(log));
    RunMovesTotal(log, es);
    Applied.LoansAddUp(book, loans);
    if PositiveFigures(es) {
      RunKeepsPositive(log, es);
      Applied.NoOrphansExactly(book);
    }
    if NeverClears(log, es) {
      RunNamesLoan(log, es);
      Applied.NoOrphans(book);
    }
  }

  /** A lost payment: a pull that clears the loan leaves it showing nothing applied. */
  lemma ClearedPaymentIsLost(row: Row, tx: Row, p: TransId, loan: string)
    requires row.loan == Some(loan) && row.applied.Some? && tx.loan == None
    ensures Applied.ByLoan(BookOf(map[p := row]), loan) == row.applied.value
    ensures Applied.ByLoan(BookOf(AfterPull(map[p := row], p, tx)), loan) == 0
  {
    var before, after := BookOf(map[p := row]), BookOf(AfterPull(map[p := row], p, tx));
    assert before.Keys == {p} && after.Keys == {p};
    Applied.OneRow(before, p, loan);
    Applied.OneRow(after, p, loan);
  }
}
