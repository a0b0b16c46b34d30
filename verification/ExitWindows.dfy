/**
 Alerts on closing exit windows: the mirrored deadline, the level already warned
 of, and the watcher that raises each alert once
 (pkg/repository/counterparty_repository.go, pkg/services/vaultwatch/watcher.go).
 */
module ExitWindows {
  import opened Options
  import opened Queues

  type Id = string

  datatype Row = Row(deadline: Option<int>, level: int)

  type Table = map<Id, Row>

  datatype Warning = Warning(level: int, within: int)

  const DAY := 86400

  /** Nearest first. */
  const EXIT_WARNINGS := [Warning(2, DAY), Warning(1, 7 * DAY)]

  const BATCH: nat := 200

  predicate Closing(row: Row, at: int, before: int, level: int) {
    row.deadline.Some? && at < row.deadline.value <= before && row.level < level
  }

  function ClosesBy(at: int, before: int, level: int): Row -> bool { (row: Row) => Closing(row, at, before, level) }

  function DeadlineOf(row: Row): Option<int> { row.deadline }

  /** A deadline that did not change leaves the row, and what was warned of, alone. */
  function Mirrored(row: Row, deadline: Option<int>): Row {
    if row.deadline == deadline then row else Row(deadline, 0)
  }

  class CounterpartyRepository {
    var rows: Table

    constructor (rows: Table)
      ensures this.rows == rows
    {
      this.rows := rows;
    }

    method SetExitDeadline(id: Id, deadline: Option<int>)
      modifies this
      ensures rows == if id in old(rows) then old(rows)[id := Mirrored(old(rows)[id], deadline)] else old(rows)
      ensures id in old(rows) ==> id in rows && rows[id].deadline == deadline
      ensures id in old(rows) ==>
        rows[id].level == if old(rows)[id].deadline == deadline then old(rows)[id].level else 0
    {
      if id in rows && rows[id].deadline != deadline {
        rows := rows[id := rows[id].(deadline := deadline, level := 0)];
      }
    }

    method ListExitWindowsClosing(at: int, before: int, level: int, limit: nat) returns (ids: seq<Id>)
      ensures IsBatch(rows, ClosesBy(at, before, level), DeadlineOf, limit, ids)
    {
      ids := Select(rows, ClosesBy(at, before, level), DeadlineOf, limit);
    }

    method SetExitWarningLevel(id: Id, level: int)
      modifies this
      ensures rows == if id in old(rows) then old(rows)[id := old(rows)[id].(level := level)] else old(rows)
    {
      if id in rows {
        rows := rows[id := rows[id].(level := level)];
      }
    }
  }

  /** In terms of deadlines: the windows still open that close by then and have not been
      warned of at this level, nearest first, and all of them short of the limit. */
  lemma ClosingBatch(rows: Table, at: int, before: int, level: int, limit: nat, ids: seq<Id>)
    requires IsBatch(rows, ClosesBy(at, before, level), DeadlineOf, limit, ids)
    ensures forall id | id in ids :: id in rows && rows[id].level < level
    ensures forall id | id in ids :: rows[id].deadline.Some? && at < rows[id].deadline.value <= before
    ensures |ids| < limit ==> forall id | id in rows && rows[id].deadline.Some? && rows[id].level < level ::
      at < rows[id].deadline.value <= before ==> id in ids
    ensures forall i, j | 0 <= i < j < |ids| :: rows[ids[i]].deadline.value <= rows[ids[j]].deadline.value
  {
    forall i, j | 0 <= i < j < |ids| ensures rows[ids[i]].deadline.value <= rows[ids[j]].deadline.value {
      assert ids[i] in ids && ids[j] in ids;
      assert NoLater(DeadlineOf(rows[ids[i]]), DeadlineOf(rows[ids[j]]));
    }
  }

  // --- Runs ---

  /** `saved` says whether the level was recorded after the alert went out. */
  datatype Event =
    | Mirror(id: Id, deadline: Option<int>)
    | Warn(id: Id, level: int, at: int, before: int, saved: bool)

  /** The rows, and the levels each address was warned of since its deadline last changed. */
  datatype State = State(rows: Table, sent: map<Id, seq<int>>)

  ghost predicate Enabled(s: State, e: Event) {
    match e
    case Mirror(_, _) => true
    case Warn(id, level, at, before, _) =>
      id in s.rows && Closing(s.rows[id], at, before, level) && 1 <= level <= 2
  }

  function Sent(s: State, id: Id): seq<int> { if id in s.sent then s.sent[id] else [] }

  function Step(s: State, e: Event): State {
    match e
    case Mirror(id, deadline) =>
      if id !in s.rows || s.rows[id].deadline == deadline then s
      else State(s.rows[id := Mirrored(s.rows[id], deadline)], s.sent[id := []])
    case Warn(id, level, _, _, saved) =>
      State(if id in s.rows && saved then s.rows[id := s.rows[id].(level := level)] else s.rows,
            s.sent[id := Sent(s, id) + [level]])
  }

  function Run(s: State, es: seq<Event>): State
    decreases |es|
  {
    if es == [] then s else Run(Step(s, es[0]), es[1..])
  }

  ghost predicate RunEnabled(s: State, es: seq<Event>)
    decreases |es|
  {
    es == [] || (Enabled(s, es[0]) && RunEnabled(Step(s, es[0]), es[1..]))
  }

  predicate AllSaved(es: seq<Event>) { forall i | 0 <= i < |es| && es[i].Warn? :: es[i].saved }

  predicate Rising(levels: seq<int>) {
    && (forall i | 0 <= i < |levels| :: 1 <= levels[i] <= 2)
    && (forall i, j | 0 <= i < j < |levels| :: levels[i] < levels[j])
  }

  lemma {:induction false} RisingGrows(levels: seq<int>, i: nat)
    requires Rising(levels) && i < |levels|
    ensures levels[i] >= i + 1
  {
    if i > 0 { RisingGrows(levels, i - 1); }
  }

  lemma RisingIsShort(levels: seq<int>)
    requires Rising(levels)
    ensures |levels| <= 2
  {
    if levels != [] { RisingGrows(levels, |levels| - 1); }
  }

  /** The recorded level is the last one warned of. */
  predicate RowInv(row: Row, sent: seq<int>) {
    Rising(sent) && row.level == if sent == [] then 0 else sent[|sent| - 1]
  }

  ghost predicate Inv(s: State) { forall id | id in s.rows :: RowInv(s.rows[id], Sent(s, id)) }

  lemma WarnKeepsRow(row: Row, sent: seq<int>, level: int)
    requires RowInv(row, sent) && row.level < level && 1 <= level <= 2
    ensures RowInv(row.(level := level), sent + [level])
  {
    assert forall i | 0 <= i < |sent| :: sent[i] <= row.level;
  }

  lemma StepKeepsInv(s: State, e: Event)
    requires Enabled(s, e) && Inv(s) && (e.Warn? ==> e.saved)
    ensures Inv(Step(s, e))
  {
    var s' := Step(s, e);
    forall id | id in s'.rows ensures RowInv(s'.rows[id], Sent(s', id)) {
      assert RowInv(s.rows[id], Sent(s, id));
      if id == e.id && e.Warn? { WarnKeepsRow(s.rows[id], Sent(s, id), e.level); }
    }
  }

  /** While recordings succeed, an address is warned at most twice for one mirrored
      deadline, seven days before one day, however often the deadline is mirrored
      again and the windows are checked. */
  lemma {:induction false} WarnedOncePerLevel(s: State, es: seq<Event>)
    requires RunEnabled(s, es) && AllSaved(es) && Inv(s)
    ensures Inv(Run(s, es))
    ensures forall id | id in Run(s, es).rows :: Rising(Sent(Run(s, es), id)) && |Sent(Run(s, es), id)| <= 2
    decreases |es|
  {
    if es == [] {
      forall id | id in s.rows ensures |Sent(s, id)| <= 2 {
        assert RowInv(s.rows[id], Sent(s, id));
        RisingIsShort(Sent(s, id));
      }
    } else {
      StepKeepsInv(s, es[0]);
      assert forall i | 0 <= i < |es[1..]| :: es[1..][i] == es[i + 1];
      WarnedOncePerLevel(Step(s, es[0]), es[1..]);
    }
  }

  /** No other deadline is mirrored for the address. */
  ghost predicate KeepsDeadline(s: State, es: seq<Event>, id: Id)
    decreases |es|
  {
    es == [] || ((es[0].Mirror? && es[0].id == id && id in s.rows ==> es[0].deadline == s.rows[id].deadline)
                 && KeepsDeadline(Step(s, es[0]), es[1..], id))
  }

  predicate Sends(es: seq<Event>, id: Id, level: int) {
    exists i | 0 <= i < |es| :: es[i].Warn? && es[i].id == id && es[i].level == level
  }

  lemma {:induction false} RecordedNeverSentAgain(s: State, es: seq<Event>, id: Id, level: int)
    requires RunEnabled(s, es) && KeepsDeadline(s, es, id) && id in s.rows && s.rows[id].level >= level
    ensures !Sends(es, id, level)
    decreases |es|
  {
    if es != [] {
      RecordedNeverSentAgain(Step(s, es[0]), es[1..], id, level);
      assert forall i | 0 < i < |es| :: es[i] == es[1..][i - 1];
    }
  }

  /** The same warning of the same deadline can go out again exactly when its recording
      failed, whatever is recorded or lost afterwards. */
  lemma RepeatsExactly(s: State, e: Event)
    requires e.Warn? && Enabled(s, e)
    ensures (exists es :: RunEnabled(Step(s, e), es) && KeepsDeadline(Step(s, e), es, e.id) && Sends(es, e.id, e.level))
       <==> !e.saved
  {
    var s' := Step(s, e);
    if e.saved {
      forall es | RunEnabled(s', es) && KeepsDeadline(s', es, e.id) ensures !Sends(es, e.id, e.level) {
        RecordedNeverSentAgain(s', es, e.id, e.level);
      }
    } else {
      var es := [e];
      assert es[1..] == [];
      assert es[0].level == e.level && Sends(es, e.id, e.level);
      assert RunEnabled(s', es) && KeepsDeadline(s', es, e.id);
    }
  }

  // --- The watcher ---

  lemma {:induction false} RunAppend(s: State, es: seq<Event>, e: Event)
    requires RunEnabled(s, es) && Enabled(Run(s, es), e)
    ensures RunEnabled(s, es + [e]) && Run(s, es + [e]) == Step(Run(s, es), e)
    decreases |es|
  {
    if es == [] {
      assert es + [e] == [e];
    } else {
      RunAppend(Step(s, es[0]), es[1..], e);
      assert (es + [e])[1..] == es[1..] + [e];
    }
  }

  ghost predicate Traced(start: State, trace: seq<Event>, rows: Table) {
    RunEnabled(start, trace) && Run(start, trace).rows == rows
  }

  /** The rows after one warning has gone out to `ids`. */
  ghost function Warned(rows: Table, ids: seq<Id>, level: int, save: (Id, int) -> bool): Table {
    map id | id in rows :: if id in ids && save(id, level) then rows[id].(level := level) else rows[id]
  }

  lemma WarnedNext(rows: Table, ids: seq<Id>, i: nat, level: int, save: (Id, int) -> bool)
    requires i < |ids| && Distinct(ids) && ids[i] in rows
    ensures var t := Warned(rows, ids[..i], level, save);
      && t[ids[i]] == rows[ids[i]]
      && Warned(t, [ids[i]], level, save) == Warned(rows, ids[..i + 1], level, save)
  {
    assert ids[i] !in ids[..i];
    assert ids[..i + 1] == ids[..i] + [ids[i]];
    assert Warned(rows, ids[..i], level, save).Keys == rows.Keys;
  }

  /** One alert, and the recording of it. */
  method Raise(repo: CounterpartyRepository, id: Id, level: int, at: int, before: int, save: (Id, int) -> bool,
               ghost start: State, ghost trace: seq<Event>)
    returns (ghost trace': seq<Event>)
    requires Traced(start, trace, repo.rows) && 1 <= level <= 2
    requires id in repo.rows && Closing(repo.rows[id], at, before, level)
    modifies repo
    ensures Traced(start, trace', repo.rows)
    ensures repo.rows == Warned(old(repo.rows), [id], level, save)
  {
    var saved := save(id, level);
    ghost var e := Warn(id, level, at, before, saved);
    RunAppend(start, trace, e);
    if saved {
      repo.SetExitWarningLevel(id, level);
    }
    trace' := trace + [e];
  }

  /** When its turn comes a row of the batch is as the query found it. */
  lemma StillClosing(rows: Table, warn: Warning, now: int, at: int, ids: seq<Id>, i: nat, save: (Id, int) -> bool)
    requires IsClosingBatch(rows, warn, now, at, ids) && i < |ids|
    ensures ids[i] in rows && ids[i] in Warned(rows, ids[..i], warn.level, save)
    ensures Closing(Warned(rows, ids[..i], warn.level, save)[ids[i]], at, now + warn.within, warn.level)
    ensures Warned(Warned(rows, ids[..i], warn.level, save), [ids[i]], warn.level, save)
         == Warned(rows, ids[..i + 1], warn.level, save)
  {
    assert ids[i] in ids;
    WarnedNext(rows, ids, i, warn.level, save);
  }

  /** One warning's pass. `at` is the clock of the query, `now` that of the check. */
  method RaiseDue(repo: CounterpartyRepository, warn: Warning, now: int, at: int, save: (Id, int) -> bool,
                  ghost start: State, ghost trace: seq<Event>)
    returns (ids: seq<Id>, ghost trace': seq<Event>)
    requires Traced(start, trace, repo.rows) && 1 <= warn.level <= 2
    modifies repo
    ensures Traced(start, trace', repo.rows)
    ensures IsClosingBatch(old(repo.rows), warn, now, at, ids)
    ensures repo.rows == Warned(old(repo.rows), ids, warn.level, save)
  {
    ids := repo.ListExitWindowsClosing(at, now + warn.within, warn.level, BATCH);
    trace' := trace;
    ghost var before := repo.rows;
    for i := 0 to |ids|
      invariant Traced(start, trace', repo.rows)
      invariant repo.rows == Warned(before, ids[..i], warn.level, save)
    {
      StillClosing(before, warn, now, at, ids, i, save);
      trace' := Raise(repo, ids[i], warn.level, at, now + warn.within, save, start, trace');
    }
    assert ids[..|ids|] == ids;
  }

  ghost predicate AllSave(save: (Id, int) -> bool) { forall id, level :: save(id, level) }

  /** What one warning's query may return. */
  ghost predicate IsClosingBatch(rows: Table, warn: Warning, now: int, at: int, ids: seq<Id>) {
    IsBatch(rows, ClosesBy(at, now + warn.within, warn.level), DeadlineOf, BATCH, ids)
  }

  ghost predicate NoneClosing(rows: Table, warn: Warning, now: int, at: int) {
    forall id | id in rows :: !Closing(rows[id], at, now + warn.within, warn.level)
  }

  /** A pass that records all its warnings leaves none of its kind due, and keeps it
      so for a higher level that was clear before. */
  lemma PassClears(rows: Table, warn: Warning, now: int, at: int, ids: seq<Id>, save: (Id, int) -> bool)
    requires IsClosingBatch(rows, warn, now, at, ids) && |rows.Keys| <= BATCH && AllSave(save)
    ensures NoneClosing(Warned(rows, ids, warn.level, save), warn, now, at)
    ensures forall w: Warning, clock: int | NoneClosing(rows, w, now, clock) ::
      NoneClosing(Warned(rows, ids, warn.level, save), w, now, clock)
  {
    BatchComplete(rows, ClosesBy(at, now + warn.within, warn.level), DeadlineOf,
                  BATCH, ids);
    var rows' := Warned(rows, ids, warn.level, save);
    forall w: Warning, clock: int | NoneClosing(rows, w, now, clock) ensures NoneClosing(rows', w, now, clock) {
      forall id | id in rows' ensures !Closing(rows'[id], clock, now + w.within, w.level) {
        assert !Closing(rows[id], clock, now + w.within, w.level);
        assert id in ids ==> rows[id].level < warn.level;
      }
    }
  }

  /** Whoever was just warned at the higher level is not warned at the lower. */
  lemma NobodyTwice(rows: Table, urgent: seq<Id>, early: seq<Id>, w: Warning, v: Warning, now: int, at: seq<int>,
                    save: (Id, int) -> bool)
    requires |at| == 2 && AllSave(save) && v.level < w.level
    requires IsClosingBatch(rows, w, now, at[0], urgent)
    requires IsClosingBatch(Warned(rows, urgent, w.level, save), v, now, at[1], early)
    ensures forall id | id in urgent :: id !in early
  {
    var between := Warned(rows, urgent, w.level, save);
    forall id | id in urgent ensures id !in early {
      assert between[id].level == w.level;
    }
  }

  /** One check of the exit windows: a run of due warnings whatever fails to be
      recorded. When nothing fails no address is warned twice in it, and with no
      more addresses than a batch holds everyone whose window closes within a day,
      or seven, has been warned of it. */
  method CheckExitWindows(repo: CounterpartyRepository, now: int, at: seq<int>, save: (Id, int) -> bool)
    returns (urgent: seq<Id>, early: seq<Id>, ghost trace: seq<Event>)
    requires |at| == |EXIT_WARNINGS|
    modifies repo
    ensures Traced(State(old(repo.rows), map[]), trace, repo.rows)
    ensures AllSave(save) ==> forall id | id in urgent :: id !in early
    ensures AllSave(save) && |old(repo.rows).Keys| <= BATCH ==>
      NoneClosing(repo.rows, EXIT_WARNINGS[0], now, at[0]) && NoneClosing(repo.rows, EXIT_WARNINGS[1], now, at[1])
  {
    ghost var start := repo.rows;
    urgent, trace := RaiseDue(repo, EXIT_WARNINGS[0], now, at[0], save, State(start, map[]), []);
    ghost var between := repo.rows;
    early, trace := RaiseDue(repo, EXIT_WARNINGS[1], now, at[1], save, State(start, map[]), trace);
    if AllSave(save) {
      NobodyTwice(start, urgent, early, EXIT_WARNINGS[0], EXIT_WARNINGS[1], now, at, save);
      if |start.Keys| <= BATCH {
        assert between.Keys == start.Keys;
        PassClears(start, EXIT_WARNINGS[0], now, at[0], urgent, save);
        PassClears(between, EXIT_WARNINGS[1], now, at[1], early, save);
      }
    }
  }
}
