/**
 Whole runs of the index allocator: allocations, registrations that finish or
 are given up, re-issues that commit or roll back, deletes and restores,
 rewound sequences, restored dumps, and boots.
 */
module AccountRuns {
  import opened Options
  import opened Accounts
  import Queues

  /**
   The database and what is remembered about it. `inflight` are indices handed
   to registrations still under way; `handed` is every index nextval returned,
   in order; `recorded` is every index that was ever in a row. `armed` is false
   from the moment the database is tampered with until the next boot check.
   */
  datatype World = World(
    sequence: Sequence,
    rows: Table,
    inflight: set<int>,
    handed: seq<int>,
    recorded: set<int>,
    armed: bool)

  datatype Event =
    | Alloc
    | Record(id: Id, key: string, index: int, now: int)
    | Abandon(index: int)
    | Reissue(id: Id, address: Option<string>)
    | SetStatus(id: Id, status: ChainStatus)
    | Check(id: Id, attempts: int, at: int)
    | Delete(id: Id, now: int)
    | Restore(id: Id)
    | Tamper(sequence: Sequence, rows: Table)        // a rewind, or a restored dump
    | Boot(base: int, survivors: set<int>)       // in-flight registrations of other processes live on

  ghost function Indices(rows: Table): set<int> { set id | id in rows :: rows[id].index }

  /** A world before its first boot. */
  ghost predicate Initial(w: World) {
    && w.sequence.lastValue >= 1
    && w.recorded == Indices(w.rows)
    && w.inflight == {} && w.handed == [] && !w.armed
  }

  /** nextval is reached only after the boot check; registrations record only
      indices they were handed; a rewind stays within the sequence's bounds. */
  ghost predicate Enabled(w: World, e: Event) {
    match e
    case Alloc => w.armed
    case Record(id, key, index, _) => index in w.inflight && id !in w.rows && !KeyTaken(w.rows, key, id)
    case Abandon(index) => index in w.inflight
    case Reissue(_, _) => w.armed
    case Tamper(s, _) => s.lastValue >= 1
    case Boot(_, survivors) => survivors <= w.inflight
    case _ => true
  }

  ghost function Handout(w: World): World {
    w.(sequence := NextVal(w.sequence), handed := w.handed + [Next(w.sequence)])
  }

  /** Re-issue reaches nextval exactly for a live conflict row. */
  predicate Reissues(w: World, id: Id) { Live(w.rows, id) && w.rows[id].status == Conflict }

  predicate HandsOut(w: World, e: Event) {
    e.Alloc? || (e.Reissue? && Reissues(w, e.id))
  }

  ghost function Step(w: World, e: Event): World {
    match e
    case Alloc => Handout(w).(inflight := w.inflight + {Next(w.sequence)})
    case Record(id, key, index, now) =>
      w.(rows := w.rows[id := Account(index, key, Pending, 0, None, now, None)],
         inflight := w.inflight - {index},
         recorded := w.recorded + {index})
    case Abandon(index) => w.(inflight := w.inflight - {index})
    case Reissue(id, address) =>
      if !Reissues(w, id) then w
      else if address.None? || KeyTaken(w.rows, address.value, id) then Handout(w)
      else Handout(w).(
        rows := w.rows[id := Reissued(w.rows[id], Next(w.sequence), address.value)],
        recorded := w.recorded + {Next(w.sequence)})
    case SetStatus(id, status) =>
      if Live(w.rows, id) && StatusWritable(w.rows[id], status)
      then w.(rows := w.rows[id := w.rows[id].(status := status)]) else w
    case Check(id, attempts, at) =>
      if Live(w.rows, id) then w.(rows := w.rows[id := w.rows[id].(attempts := attempts, checkedAt := Some(at))]) else w
    case Delete(id, now) =>
      if Live(w.rows, id) then w.(rows := w.rows[id := w.rows[id].(deletedAt := Some(now))]) else w
    case Restore(id) =>
      if id in w.rows then w.(rows := w.rows[id := w.rows[id].(deletedAt := None)]) else w
    case Tamper(s, rows) => w.(sequence := s, rows := rows, recorded := w.recorded + Indices(rows), armed := false)
    case Boot(base, survivors) =>
      w.(sequence := Rearm(w.sequence, w.rows, base), inflight := survivors, armed := true)
  }

  ghost function Run(w: World, es: seq<Event>): World
    decreases |es|
  {
    if es == [] then w else Run(Step(w, es[0]), es[1..])
  }

  ghost predicate RunEnabled(w: World, es: seq<Event>)
    decreases |es|
  {
    es == [] || (Enabled(w, es[0]) && RunEnabled(Step(w, es[0]), es[1..]))
  }

  // --- The sequence clears what must not be handed out again ---

  ghost predicate Below(s: set<int>, bound: int) { forall i | i in s :: i < bound }

  /** Every index ever recorded or still in flight is behind an armed sequence. */
  ghost predicate Inv(w: World) {
    && w.sequence.lastValue >= 1
    && Indices(w.rows) <= w.recorded
    && (forall i | i in w.inflight :: i >= 1)
    && (w.armed ==> Below(w.recorded + w.inflight, Next(w.sequence)))
  }

  /** A boot whose evidence, rows and base, lies past every index ever recorded and
      every index other processes still hold. */
  ghost predicate Covered(w: World, e: Event) {
    e.Boot? ==> Below(w.recorded + e.survivors, Next(Rearm(w.sequence, w.rows, e.base)))
  }

  ghost predicate RunCovered(w: World, es: seq<Event>)
    decreases |es|
  {
    es == [] || (Covered(w, es[0]) && RunCovered(Step(w, es[0]), es[1..]))
  }

  /** Rewriting or adding one row: the mark is that row's index or stays where it was. */
  lemma HighWaterUpdate(rows: Table, id: Id, a: Account)
    requires id in rows ==> rows[id].index <= a.index
    requires a.index >= -1
    ensures HighWater(rows[id := a]) >= HighWater(rows)
    ensures HighWater(rows[id := a]) >= a.index
    ensures Indices(rows[id := a]) <= Indices(rows) + {a.index}
  {
    var rows' := rows[id := a];
    assert id in rows' && rows'[id] == a;
    assert IsHighWater(rows', HighWater(rows'));
    assert IsHighWater(rows, HighWater(rows));
    if rows != map[] {
      var top :| top in rows && rows[top].index == HighWater(rows);
      assert top in rows' && rows'[top].index >= HighWater(rows);
    } else {
      assert HighWater(rows) == -1;
    }
  }

  /** A write that leaves every index where it was leaves the mark there too. */
  lemma HighWaterKept(rows: Table, id: Id, a: Account)
    requires id in rows && rows[id].index == a.index
    ensures HighWater(rows[id := a]) == HighWater(rows)
    ensures Indices(rows[id := a]) == Indices(rows)
  {
    var rows' := rows[id := a];
    assert forall x | x in rows :: rows'[x].index == rows[x].index;
    assert IsHighWater(rows, HighWater(rows)) && IsHighWater(rows', HighWater(rows'));
    var top :| top in rows && rows[top].index == HighWater(rows);
    assert rows'[top].index == HighWater(rows);
    var top' :| top' in rows' && rows'[top'].index == HighWater(rows');
    assert rows[top'].index == HighWater(rows');
    forall i ensures i in Indices(rows') <==> i in Indices(rows) {
      if i in Indices(rows') { var x :| x in rows' && rows'[x].index == i; assert rows[x].index == i; }
      if i in Indices(rows) { var x :| x in rows && rows[x].index == i; assert rows'[x].index == i; }
    }
  }

  lemma RecordKeepsInv(w: World, e: Event)
    requires e.Record? && Enabled(w, e) && Inv(w)
    ensures Inv(Step(w, e)) && HighWater(Step(w, e).rows) >= HighWater(w.rows)
    ensures HighWater(Step(w, e).rows) >= e.index
  {
    HighWaterUpdate(w.rows, e.id, Step(w, e).rows[e.id]);
  }

  lemma ReissueKeepsInv(w: World, e: Event)
    requires e.Reissue? && Enabled(w, e) && Inv(w)
    ensures Inv(Step(w, e)) && HighWater(Step(w, e).rows) >= HighWater(w.rows)
    ensures Step(w, e).recorded <= w.recorded + {HighWater(Step(w, e).rows)} || Step(w, e).recorded == w.recorded
  {
    if Step(w, e).rows != w.rows {
      assert w.rows[e.id].index in Indices(w.rows);
      HighWaterUpdate(w.rows, e.id, Step(w, e).rows[e.id]);
    }
  }

  lemma RowWriteKeepsInv(w: World, e: Event)
    requires (e.SetStatus? || e.Check? || e.Delete? || e.Restore?) && Inv(w)
    ensures Inv(Step(w, e)) && HighWater(Step(w, e).rows) == HighWater(w.rows)
  {
    if Step(w, e) != w { HighWaterKept(w.rows, e.id, Step(w, e).rows[e.id]); }
  }

  /** Every step keeps the invariant, and only a restored dump lowers the table's
      high-water mark: a re-issue, which overwrites an index, does not. */
  lemma StepKeepsInv(w: World, e: Event)
    requires Enabled(w, e) && Inv(w) && Covered(w, e)
    ensures Inv(Step(w, e))
    ensures !e.Tamper? ==> HighWater(Step(w, e).rows) >= HighWater(w.rows)
    ensures w.recorded <= Step(w, e).recorded
  {
    match e
    case Record(_, _, _, _) => RecordKeepsInv(w, e);
    case Reissue(_, _) => ReissueKeepsInv(w, e);
    case SetStatus(_, _) => RowWriteKeepsInv(w, e);
    case Check(_, _, _) => RowWriteKeepsInv(w, e);
    case Delete(_, _) => RowWriteKeepsInv(w, e);
    case Restore(_) => RowWriteKeepsInv(w, e);
    case _ =>
  }

  lemma {:induction false} RunKeepsInv(w: World, es: seq<Event>)
    requires RunEnabled(w, es) && RunCovered(w, es) && Inv(w)
    ensures Inv(Run(w, es))
    ensures w.recorded <= Run(w, es).recorded
    decreases |es|
  {
    if es != [] {
      StepKeepsInv(w, es[0]);
      RunKeepsInv(Step(w, es[0]), es[1..]);
    }
  }

  lemma {:induction false} RunSplit(w: World, es: seq<Event>, e: Event)
    ensures RunEnabled(w, es + [e]) <==> RunEnabled(w, es) && Enabled(Run(w, es), e)
    ensures RunCovered(w, es + [e]) <==> RunCovered(w, es) && Covered(Run(w, es), e)
    ensures RunCleared(w, es + [e]) <==> RunCleared(w, es) && Cleared(Run(w, es), e)
    ensures Run(w, es + [e]) == Step(Run(w, es), e)
    decreases |es|
  {
    if es == [] {
      assert es + [e] == [e];
    } else {
      RunSplit(Step(w, es[0]), es[1..], e);
      assert (es + [e])[1..] == es[1..] + [e];
    }
  }

  /** In every run from before the first boot on, with any number of rewinds and
      restored dumps, each followed by a boot that covers what was ever recorded, an
      index that was ever in a row is not handed out again, by an allocation or a
      re-issue. Index 0 is never handed out. */
  lemma NeverRecordedAgain(w: World, es: seq<Event>, e: Event)
    requires Initial(w) && RunEnabled(w, es + [e]) && RunCovered(w, es + [e])
    requires HandsOut(Run(w, es), e)
    ensures var index := Next(Run(w, es).sequence);
      && index !in Run(w, es).recorded
      && index !in Run(w, es).inflight
      && index >= 1
      && Run(w, es + [e]).handed == Run(w, es).handed + [index]
  {
    RunSplit(w, es, e);
    RunKeepsInv(w, es);
  }

  // --- Every account lives at the address of its own index ---

  ghost predicate KeysDerived(rows: Table, derive: int -> Option<string>) {
    forall id | id in rows :: derive(rows[id].index) == Some(rows[id].publicKey)
  }

  /** Registrations record the address derived from the index they were handed, re-issues
      derive theirs from the fresh one, and a dump holds rows made that way. */
  ghost predicate Derives(w: World, e: Event, derive: int -> Option<string>) {
    match e
    case Record(_, key, index, _) => derive(index) == Some(key)
    case Reissue(_, address) => address == derive(Next(w.sequence))
    case Tamper(_, rows) => KeysDerived(rows, derive)
    case _ => true
  }

  ghost predicate RunDerives(w: World, es: seq<Event>, derive: int -> Option<string>)
    decreases |es|
  {
    es == [] || (Derives(w, es[0], derive) && RunDerives(Step(w, es[0]), es[1..], derive))
  }

  lemma StepKeepsDerived(w: World, e: Event, derive: int -> Option<string>)
    requires KeysDerived(w.rows, derive) && Derives(w, e, derive)
    ensures KeysDerived(Step(w, e).rows, derive)
  {
  }

  /** Over any run every row's key is the address of its own index: a re-issued account
      leaves the address that conflicted together with the index. */
  lemma {:induction false} AddressesMatchIndices(w: World, es: seq<Event>, derive: int -> Option<string>)
    requires KeysDerived(w.rows, derive) && RunDerives(w, es, derive)
    ensures KeysDerived(Run(w, es).rows, derive)
    decreases |es|
  {
    if es != [] {
      StepKeepsDerived(w, es[0], derive);
      AddressesMatchIndices(Step(w, es[0]), es[1..], derive);
    }
  }

  // --- Rewinds alone ---

  /** A tampering that rewinds the sequence and leaves the rows alone, and a boot
      after which no other process holds an index at or past the sequence. */
  ghost predicate Rewinds(w: World, e: Event) {
    && (e.Tamper? ==> e.rows == w.rows)
    && (e.Boot? ==> Below(e.survivors, Next(Rearm(w.sequence, w.rows, e.base))))
  }

  ghost predicate RunRewinds(w: World, es: seq<Event>)
    decreases |es|
  {
    es == [] || (Rewinds(w, es[0]) && RunRewinds(Step(w, es[0]), es[1..]))
  }

  /** The rows show everything: no index was ever recorded above the high-water mark. */
  ghost predicate SeenInv(w: World) { Inv(w) && Below(w.recorded, HighWater(w.rows) + 1) }

  lemma StepKeepsSeen(w: World, e: Event)
    requires Enabled(w, e) && SeenInv(w) && Rewinds(w, e)
    ensures Covered(w, e) && SeenInv(Step(w, e))
    ensures HighWater(Step(w, e).rows) >= HighWater(w.rows)
  {
    if e.Boot? { FloorIsExact(w.sequence, Max(e.base, HighWater(w.rows) + 1)); }
    StepKeepsInv(w, e);
    if e.Record? { RecordKeepsInv(w, e); }
    if e.Reissue? { ReissueKeepsInv(w, e); }
  }

  /** While the rows are left alone the boot covers everything recorded by itself,
      whatever its base, and the high-water mark never falls. */
  lemma {:induction false} RewindsAreCovered(w: World, es: seq<Event>)
    requires RunEnabled(w, es) && RunRewinds(w, es) && SeenInv(w)
    ensures RunCovered(w, es) && SeenInv(Run(w, es))
    ensures HighWater(Run(w, es).rows) >= HighWater(w.rows)
    decreases |es|
  {
    if es != [] {
      StepKeepsSeen(w, es[0]);
      RewindsAreCovered(Step(w, es[0]), es[1..]);
    }
  }

  /** So over any number of rewinds no recorded index is handed out again. */
  lemma RewindsNeverReuse(w: World, es: seq<Event>, e: Event)
    requires Initial(w) && RunEnabled(w, es + [e]) && RunRewinds(w, es + [e])
    requires HandsOut(Run(w, es), e)
    ensures Next(Run(w, es).sequence) !in Run(w, es).recorded
  {
    RewindsAreCovered(w, es + [e]);
    NeverRecordedAgain(w, es, e);
  }

  // --- Exactly when a boot makes the allocator safe ---

  /** No run from here hands out an index that a row has held, as long as later boots
      are covered too. */
  ghost predicate SafeFrom(w: World) {
    forall es, e | RunEnabled(w, es + [e]) && RunCovered(w, es + [e]) && HandsOut(Run(w, es), e) ::
      Next(Run(w, es).sequence) !in Run(w, es).recorded
  }

  function Allocs(n: nat): seq<Event> {
    if n == 0 then [] else [Alloc] + Allocs(n - 1)
  }

  lemma {:induction false} AllocsRun(w: World, n: nat)
    requires w.armed
    ensures RunEnabled(w, Allocs(n)) && RunCovered(w, Allocs(n)) && RunCleared(w, Allocs(n))
    ensures var w' := Run(w, Allocs(n));
      && w'.armed && w'.recorded == w.recorded && w.handed <= w'.handed
      && Next(w'.sequence) == Next(w.sequence) + n
    decreases n
  {
    if n > 0 {
      AllocsRun(Step(w, Alloc), n - 1);
      assert Allocs(n)[1..] == Allocs(n - 1);
    }
  }

  lemma {:induction false} FreshString(taken: set<string>) returns (s: string)
    ensures s !in taken && forall t | t in taken :: |t| < |s|
    decreases |taken|
  {
    s := "0";
    if taken != {} {
      var t :| t in taken;
      var rest := FreshString(taken - {t});
      s := rest + t + "0";
      assert forall x | x in taken :: x == t || x in taken - {t};
    }
  }

  lemma FreshAccount(rows: Table) returns (id: Id, key: string)
    ensures id !in rows && !KeyTaken(rows, key, id)
  {
    id := FreshString(rows.Keys);
    var keys := set other | other in rows :: rows[other].publicKey;
    key := FreshString(keys);
    forall other | other in rows ensures rows[other].publicKey != key {
      assert rows[other].publicKey in keys;
    }
  }

  /** A registration that outlives a rewind with an index the sequence will reach
      again: it records its index, and the sequence then hands it out. */
  lemma StaleIndexReused(w: World, stale: int) returns (es: seq<Event>)
    requires w.armed && stale in w.inflight && stale >= Next(w.sequence)
    ensures RunEnabled(w, es + [Alloc]) && RunCovered(w, es + [Alloc])
    ensures Next(Run(w, es).sequence) == stale && stale in Run(w, es).recorded
  {
    var id, key := FreshAccount(w.rows);
    var record := Record(id, key, stale, 0);
    var n := stale - Next(w.sequence);
    es := [record] + Allocs(n);
    assert es[1..] == Allocs(n);
    AllocsRun(Step(w, record), n);
    RunSplit(w, es, Alloc);
  }

  /** The same of an index the rows no longer show. */
  lemma LostIndexReused(w: World, lost: int) returns (es: seq<Event>)
    requires w.armed && lost in w.recorded && lost >= Next(w.sequence)
    ensures RunEnabled(w, es + [Alloc]) && RunCovered(w, es + [Alloc])
    ensures Next(Run(w, es).sequence) == lost && lost in Run(w, es).recorded
  {
    es := Allocs(lost - Next(w.sequence));
    AllocsRun(w, lost - Next(w.sequence));
    RunSplit(w, es, Alloc);
  }

  /** A boot, after any rewind or restored dump, makes the allocator safe exactly when
      every index ever recorded, in rows lost to the dump too, and every index a
      registration in another process still holds lies below the largest of the old
      next index, the operator's base and the high-water mark plus one. */
  lemma BootSafeExactly(w: World, boot: Event)
    requires Inv(w) && boot.Boot? && Enabled(w, boot)
    ensures SafeFrom(Step(w, boot))
       <==> Below(w.recorded + boot.survivors, Max(Next(w.sequence), Max(boot.base, HighWater(w.rows) + 1)))
  {
    var w' := Step(w, boot);
    FloorIsExact(w.sequence, Max(boot.base, HighWater(w.rows) + 1));
    assert IsHighWater(w.rows, HighWater(w.rows));
    if Below(w.recorded + boot.survivors, Next(w'.sequence)) {
      StepKeepsInv(w, boot);
      forall es, e | RunEnabled(w', es + [e]) && RunCovered(w', es + [e]) && HandsOut(Run(w', es), e)
        ensures Next(Run(w', es).sequence) !in Run(w', es).recorded
      {
        RunSplit(w', es, e);
        RunKeepsInv(w', es);
      }
    } else {
      var index :| index in w.recorded + boot.survivors && index >= Next(w'.sequence);
      var es;
      if index in w.recorded { es := LostIndexReused(w', index); } else { es := StaleIndexReused(w', index); }
      RunSplit(w', es, Alloc);
      assert !SafeFrom(w');
    }
  }

  /** Both ways of failing start from an ordinary database. A dump from before the
      only account, and a base of zero: the account's index is handed out again. */
  lemma DumpReuses() returns (w: World, es: seq<Event>)
    ensures Initial(w) && RunEnabled(w, es + [Alloc])
    ensures Next(Run(w, es).sequence) in Run(w, es).recorded
  {
    var row := Account(1, "G", Confirmed, 0, None, 0, None);
    w := World(Sequence(1, true), map["a" := row], {}, [], Indices(map["a" := row]), false);
    var dump, boot := Tamper(Sequence(1, false), map[]), Boot(0, {});
    es := [dump, boot];
    var w1 := Step(w, dump);
    var w2 := Step(w1, boot);
    assert es[1..] == [boot] && [boot][1..] == [];
    assert "a" in w.rows && w.rows["a"].index == 1;
    assert 1 in w.recorded;
    assert IsHighWater(w1.rows, HighWater(w1.rows));
    assert Run(w, es) == Run(w1, [boot]) == Run(w2, []) == w2;
    assert RunEnabled(w2, []) && RunEnabled(w1, [boot]);
    RunSplit(w, es, Alloc);
  }

  /** A registration that outlives a rewind to the start, with nothing recorded yet. */
  lemma SurvivorReuses() returns (w: World, es: seq<Event>)
    ensures Initial(w) && RunEnabled(w, es + [Alloc])
    ensures Next(Run(w, es).sequence) in Run(w, es).recorded
  {
    w := World(Sequence(1, false), map[], {}, [], {}, false);
    var rewind := Tamper(Sequence(1, false), map[]);
    es := [Boot(0, {}), Alloc, rewind, Boot(0, {1})];
    assert IsHighWater(w.rows, HighWater(w.rows));
    var w1 := Step(w, es[0]);
    var w2 := Step(w1, es[1]);
    var w3 := Step(w2, es[2]);
    var w4 := Step(w3, es[3]);
    assert Next(w1.sequence) == 1 && w4.inflight == {1} && Next(w4.sequence) == 1;
    RunFour(w, es, w1, w2, w3, w4);
    var more := StaleIndexReused(w4, 1);
    RunJoined(w, es, more + [Alloc]);
    RunJoined(w, es, more);
    assert es + (more + [Alloc]) == es + more + [Alloc];
    es := es + more;
  }

  lemma RunFour(w: World, es: seq<Event>, w1: World, w2: World, w3: World, w4: World)
    requires |es| == 4 && Enabled(w, es[0]) && w1 == Step(w, es[0])
    requires Enabled(w1, es[1]) && w2 == Step(w1, es[1])
    requires Enabled(w2, es[2]) && w3 == Step(w2, es[2])
    requires Enabled(w3, es[3]) && w4 == Step(w3, es[3])
    ensures RunEnabled(w, es) && Run(w, es) == w4
  {
    RunSplit(w, [], es[0]);
    RunSplit(w, [es[0]], es[1]);
    RunSplit(w, [es[0], es[1]], es[2]);
    RunSplit(w, [es[0], es[1], es[2]], es[3]);
    assert [] + [es[0]] == [es[0]] && [es[0]] + [es[1]] == [es[0], es[1]];
    assert [es[0], es[1]] + [es[2]] == [es[0], es[1], es[2]];
    assert [es[0], es[1], es[2]] + [es[3]] == es;
  }

  lemma {:induction false} RunJoined(w: World, es: seq<Event>, more: seq<Event>)
    ensures RunEnabled(w, es + more) <==> RunEnabled(w, es) && RunEnabled(Run(w, es), more)
    ensures Run(w, es + more) == Run(Run(w, es), more)
    decreases |es|
  {
    if es == [] {
      assert es + more == more;
    } else {
      RunJoined(Step(w, es[0]), es[1..], more);
      assert (es + more)[1..] == es[1..] + more;
    }
  }

  // --- Everything issued, recorded or not ---

  ghost predicate AllBelow(s: seq<int>, bound: int) { forall i | i in s :: i < bound }

  /** A boot past every index ever handed out, burned ones included. */
  ghost predicate Cleared(w: World, e: Event) {
    e.Boot? ==> AllBelow(w.handed, Next(Rearm(w.sequence, w.rows, e.base)))
  }

  ghost predicate RunCleared(w: World, es: seq<Event>)
    decreases |es|
  {
    es == [] || (Cleared(w, es[0]) && RunCleared(Step(w, es[0]), es[1..]))
  }

  ghost predicate HandedInv(w: World) {
    && w.sequence.lastValue >= 1 && Queues.Distinct(w.handed)
    && (w.armed ==> AllBelow(w.handed, Next(w.sequence)))
  }

  lemma HandoutKeepsDistinct(w: World)
    requires HandedInv(w) && w.armed
    ensures HandedInv(Handout(w))
  {
    var h := Handout(w).handed;
    assert forall j | 0 <= j < |w.handed| :: h[j] == w.handed[j] && h[j] in w.handed;
  }

  /** Whatever is rewound, restored or lost, no index is handed out twice, whether
      or not it was ever recorded. */
  lemma {:induction false} NeverHandedTwice(w: World, es: seq<Event>)
    requires RunEnabled(w, es) && RunCleared(w, es) && HandedInv(w)
    ensures HandedInv(Run(w, es))
    decreases |es|
  {
    if es != [] {
      if HandsOut(w, es[0]) { HandoutKeepsDistinct(w); }
      NeverHandedTwice(Step(w, es[0]), es[1..]);
    }
  }

  /** An operator's base above everything issued clears a boot, with no rows to see. */
  lemma BaseClears(w: World, boot: Event)
    requires w.sequence.lastValue >= 1 && boot.Boot? && AllBelow(w.handed, boot.base)
    ensures Cleared(w, boot)
  {
    FloorIsExact(w.sequence, Max(boot.base, HighWater(w.rows) + 1));
  }

  /** No run from here hands out any index twice, counting those handed out before,
      as long as later boots are cleared too. */
  ghost predicate NoneTwiceFrom(w: World) {
    forall es | RunEnabled(w, es) && RunCleared(w, es) :: Queues.Distinct(Run(w, es).handed)
  }

  /** A boot rules out every double exactly when everything handed out so far lies
      below the largest of old next, base and high-water mark plus one. */
  lemma NoneTwiceExactly(w: World, boot: Event)
    requires w.sequence.lastValue >= 1 && Queues.Distinct(w.handed) && boot.Boot?
    ensures NoneTwiceFrom(Step(w, boot))
       <==> AllBelow(w.handed, Max(Next(w.sequence), Max(boot.base, HighWater(w.rows) + 1)))
  {
    var w' := Step(w, boot);
    FloorIsExact(w.sequence, Max(boot.base, HighWater(w.rows) + 1));
    assert IsHighWater(w.rows, HighWater(w.rows));
    if AllBelow(w.handed, Next(w'.sequence)) {
      forall es | RunEnabled(w', es) && RunCleared(w', es) ensures Queues.Distinct(Run(w', es).handed) {
        NeverHandedTwice(w', es);
      }
    } else {
      var j :| 0 <= j < |w.handed| && w.handed[j] >= Next(w'.sequence);
      var n := w.handed[j] - Next(w'.sequence);
      AllocsRun(w', n);
      RunSplit(w', Allocs(n), Alloc);
      var end := Run(w', Allocs(n) + [Alloc]).handed;
      assert end[j] == end[|end| - 1];
      assert !NoneTwiceFrom(w');
    }
  }
}
