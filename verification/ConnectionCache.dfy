/**
 The double-checked locking around the Redis connections
 (platform/cache/cache.go), as interleaved steps of any number of calls.
 A step is one statement: taking or releasing the lock, one map access, one
 client call. Outcomes of the network are given with the step.
 */
module ConnectionCache {
  import opened Options

  type Thread = nat
  type Client = nat

  datatype Call = Get(name: string) | Ready(name: string) | CloseOne(name: string) | CloseEvery

  /** What CloseConnection and CloseAll return: no error in the first case and, if no
      Close failed, in the last. */
  datatype CloseResult =
    | Removed(name: string)
    | NotThere(name: string)
    | StillThere(name: string)
    | AllGone(failed: bool)

  datatype Pc =
    | Idle
    | Entering(call: Call)                        // about to take the call's first lock
    | LookingUp(name: string)                     // read lock
    | Found(name: string, client: Client)         // read lock, about to return the client
    | Missed(name: string)                        // read lock
    | Upgrading(name: string)                     // no lock, about to take the write lock
    | Rechecking(name: string)                    // write lock
    | Creating(name: string)                      // write lock
    | Made(name: string, client: Client)          // write lock, created but not stored
    | Leaving(name: string, result: Option<Client>) // write lock, about to return
    | Probing(name: string)                       // read lock
    | Unready(name: string)                       // read lock, about to return false
    | ProbeFound(name: string, client: Client)    // read lock
    | Pinging(name: string, client: Client)       // no lock
    | Closing(name: string)                       // write lock
    | Deleting(name: string)                      // write lock, closed but not deleted
    | ClosingAll(left: set<string>, failed: bool) // write lock
    | Dropping(failed: bool)                      // write lock, all closed, map not cleared
    | Exiting(answer: CloseResult)                // write lock, about to return

  /** `made` counts successful creations per name since that name was last
      removed; `closed` holds the clients Close has been called on. Clients are
      numbered as they are created. */
  datatype State = State(
    instances: map<string, Client>,
    readers: set<Thread>,
    writer: Option<Thread>,
    pcs: map<Thread, Pc>,
    next: Client,
    made: map<string, nat>,
    closed: set<Client>)

  const START := State(map[], {}, None, map[], 0, map[], {})

  datatype Event =
    | Begin(t: Thread, call: Call)
    | Advance(t: Thread, ok: bool, pick: string)  // `pick`: the next name of CloseAll's range

  function PcOf(s: State, t: Thread): Pc { if t in s.pcs then s.pcs[t] else Idle }

  predicate HoldsRead(pc: Pc) {
    pc.LookingUp? || pc.Found? || pc.Missed? || pc.Probing? || pc.Unready? || pc.ProbeFound?
  }

  predicate HoldsWrite(pc: Pc) {
    || pc.Rechecking? || pc.Creating? || pc.Made? || pc.Leaving?
    || pc.Closing? || pc.Deleting? || pc.ClosingAll? || pc.Dropping? || pc.Exiting?
  }

  // --- Steps ---

  function At(s: State, t: Thread, pc: Pc): State { s.(pcs := s.pcs[t := pc]) }

  function RLock(s: State, t: Thread, pc: Pc): State {
    if s.writer == None then At(s.(readers := s.readers + {t}), t, pc) else s
  }

  function RUnlock(s: State, t: Thread, pc: Pc): State { At(s.(readers := s.readers - {t}), t, pc) }

  function Lock(s: State, t: Thread, pc: Pc): State {
    if s.writer == None && s.readers == {} then At(s.(writer := Some(t)), t, pc) else s
  }

  function Unlock(s: State, t: Thread): State { At(s.(writer := None), t, Idle) }

  function Count(s: State, name: string): nat { if name in s.made then s.made[name] else 0 }

  /** The next statement of thread `t`; a blocked or idle thread stays put. */
  function Next(s: State, t: Thread, ok: bool, pick: string): State {
    match PcOf(s, t)
    case Idle => s
    case Entering(Get(name)) => RLock(s, t, LookingUp(name))
    case Entering(Ready(name)) => RLock(s, t, Probing(name))
    case Entering(CloseOne(name)) => Lock(s, t, Closing(name))
    case Entering(CloseEvery) => Lock(s, t, ClosingAll(s.instances.Keys, false))
    case LookingUp(name) =>
      At(s, t, if name in s.instances then Found(name, s.instances[name]) else Missed(name))
    case Found(_, _) => RUnlock(s, t, Idle)
    case Missed(name) => RUnlock(s, t, Upgrading(name))
    case Upgrading(name) => Lock(s, t, Rechecking(name))
    case Rechecking(name) =>
      At(s, t, if name in s.instances then Leaving(name, Some(s.instances[name])) else Creating(name))
    case Creating(name) =>
      if ok then At(s.(next := s.next + 1, made := s.made[name := Count(s, name) + 1]), t, Made(name, s.next))
      else At(s, t, Leaving(name, None))
    case Made(name, client) =>
      At(s.(instances := s.instances[name := client]), t, Leaving(name, Some(client)))
    case Leaving(_, _) => Unlock(s, t)
    case Probing(name) => At(s, t, if name in s.instances then ProbeFound(name, s.instances[name]) else Unready(name))
    case Unready(_) => RUnlock(s, t, Idle)
    case ProbeFound(name, client) => RUnlock(s, t, Pinging(name, client))
    case Pinging(_, _) => At(s, t, Idle)
    case Closing(name) =>
      if name !in s.instances then At(s, t, Exiting(NotThere(name)))
      else At(s.(closed := s.closed + {s.instances[name]}), t, if ok then Deleting(name) else Exiting(StillThere(name)))
    case Deleting(name) =>
      At(s.(instances := s.instances - {name}, made := s.made[name := 0]), t, Exiting(Removed(name)))
    case ClosingAll(left, failed) =>
      if left == {} then At(s, t, Dropping(failed))
      else if pick in left && pick in s.instances
      then At(s.(closed := s.closed + {s.instances[pick]}), t, ClosingAll(left - {pick}, failed || !ok))
      else s
    case Dropping(failed) => At(s.(instances := map[], made := map[]), t, Exiting(AllGone(failed)))
    case Exiting(_) => Unlock(s, t)
  }

  function Step(s: State, e: Event): State {
    match e
    case Begin(t, call) => if PcOf(s, t) == Idle then At(s, t, Entering(call)) else s
    case Advance(t, ok, pick) => Next(s, t, ok, pick)
  }

  function Run(s: State, es: seq<Event>): State
    decreases |es|
  {
    if es == [] then s else Run(Step(s, es[0]), es[1..])
  }

  // --- Invariant ---

  /** The lock's state is what the threads believe it is, and a writer is alone. */
  ghost predicate LockInv(s: State) {
    && (forall t: Thread :: t in s.readers <==> HoldsRead(PcOf(s, t)))
    && (forall t: Thread :: s.writer == Some(t) <==> HoldsWrite(PcOf(s, t)))
    && (s.writer.Some? ==> s.readers == {})
  }

  ghost predicate Registered(s: State, client: Client) {
    exists name | name in s.instances :: s.instances[name] == client
  }

  /** What a thread knows at each point because it still holds the lock. */
  ghost predicate Knows(s: State, pc: Pc) {
    match pc
    case Found(name, client) => name in s.instances && s.instances[name] == client
    case Missed(name) => name !in s.instances
    case Leaving(name, Some(client)) => name in s.instances && s.instances[name] == client
    case Leaving(name, None) => name !in s.instances
    case Creating(name) => name !in s.instances
    case Unready(name) => name !in s.instances
    case ProbeFound(name, client) => name in s.instances && s.instances[name] == client
    case Made(name, client) => name !in s.instances && client < s.next && !Registered(s, client)
    case Deleting(name) => name in s.instances && s.instances[name] in s.closed
    case ClosingAll(left, _) =>
      left <= s.instances.Keys && forall name | name in s.instances && name !in left :: s.instances[name] in s.closed
    case Dropping(_) => forall name | name in s.instances :: s.instances[name] in s.closed
    case Exiting(Removed(name)) => name !in s.instances
    case Exiting(NotThere(name)) => name !in s.instances
    case Exiting(StillThere(name)) => name in s.instances && s.instances[name] in s.closed
    case Exiting(AllGone(_)) => s.instances == map[]
    case _ => true
  }

  ghost predicate KnowsInv(s: State) { forall t: Thread :: Knows(s, PcOf(s, t)) }

  /** Where the writer stands, if it has just created a client and not stored it. */
  function Making(s: State): Pc {
    if s.writer.Some? && PcOf(s, s.writer.value).Made? then PcOf(s, s.writer.value) else Idle
  }

  ghost predicate CountInv(s: State) {
    forall name :: Count(s, name) == if name in s.instances || (Making(s).Made? && Making(s).name == name) then 1 else 0
  }

  /** Where a created client is: in the map, on its way there, or closed. */
  ghost predicate Accounted(s: State, client: Client) {
    || client in s.closed || Registered(s, client)
    || (Making(s).Made? && Making(s).client == client)
  }

  ghost predicate ClientInv(s: State) {
    && (forall client: Client | client < s.next :: Accounted(s, client))
    && (forall name | name in s.instances :: s.instances[name] < s.next)
    && (forall a, b | a in s.instances && b in s.instances && s.instances[a] == s.instances[b] :: a == b)
  }

  ghost predicate Inv(s: State) { LockInv(s) && KnowsInv(s) && CountInv(s) && ClientInv(s) }

  // --- Preservation ---

  /** Only `t` moves, and it holds in `s'` what the lock in `s'` says. */
  lemma MoveKeepsLock(s: State, s': State, t: Thread, pc: Pc)
    requires LockInv(s) && s'.pcs == s.pcs[t := pc]
    requires s'.readers == if HoldsRead(pc) then s.readers + {t} else s.readers - {t}
    requires s'.writer == if HoldsWrite(pc) then Some(t) else if s.writer == Some(t) then None else s.writer
    requires HoldsRead(pc) ==> s'.writer == None
    requires HoldsWrite(pc) ==> s'.readers == {} && (s.writer == None || s.writer == Some(t))
    ensures LockInv(s')
  {
  }

  lemma ReaderKeepsLock(s: State, e: Event)
    requires LockInv(s) && HoldsRead(PcOf(s, e.t))
    ensures LockInv(Step(s, e))
  {
    assert e.t in s.readers;
    if e.Advance? { MoveKeepsLock(s, Step(s, e), e.t, PcOf(Step(s, e), e.t)); }
  }

  lemma WriterKeepsLock(s: State, e: Event)
    requires LockInv(s) && HoldsWrite(PcOf(s, e.t))
    ensures LockInv(Step(s, e))
  {
    assert s.writer == Some(e.t);
    if Step(s, e) != s { MoveKeepsLock(s, Step(s, e), e.t, PcOf(Step(s, e), e.t)); }
  }

  lemma WaiterKeepsLock(s: State, e: Event)
    requires LockInv(s) && !HoldsRead(PcOf(s, e.t)) && !HoldsWrite(PcOf(s, e.t))
    ensures LockInv(Step(s, e))
  {
    assert e.t !in s.readers && s.writer != Some(e.t);
    if Step(s, e) != s { MoveKeepsLock(s, Step(s, e), e.t, PcOf(Step(s, e), e.t)); }
  }

  lemma StepKeepsLock(s: State, e: Event)
    requires LockInv(s)
    ensures LockInv(Step(s, e))
  {
    if HoldsRead(PcOf(s, e.t)) { ReaderKeepsLock(s, e); }
    else if HoldsWrite(PcOf(s, e.t)) { WriterKeepsLock(s, e); }
    else { WaiterKeepsLock(s, e); }
  }

  /** A thread without the lock relies on nothing. */
  lemma NoLockKnowsNothing(s: State, pc: Pc)
    requires !HoldsRead(pc) && !HoldsWrite(pc)
    ensures Knows(s, pc)
  {
  }

  predicate SameData(s: State, s': State) {
    s'.instances == s.instances && s'.next == s.next && s'.made == s.made && s'.closed == s.closed
  }

  lemma OthersStay(s: State, e: Event)
    ensures forall u | u != e.t :: PcOf(Step(s, e), u) == PcOf(s, u)
  {
    var pc := PcOf(s, e.t);
    if e.Advance? {
      if HoldsWrite(pc) { WriterLeavesOthers(s, e); } else { assert Step(s, e) == Next(s, e.t, e.ok, e.pick); }
    }
  }

  lemma WriterLeavesOthers(s: State, e: Event)
    requires e.Advance? && HoldsWrite(PcOf(s, e.t))
    ensures forall u | u != e.t :: PcOf(Step(s, e), u) == PcOf(s, u)
  {
  }

  /** Only the holder of the write lock changes the data. */
  lemma OnlyWriterWrites(s: State, e: Event)
    requires LockInv(s)
    ensures SameData(s, Step(s, e)) || s.writer == Some(e.t)
    ensures forall u | u != e.t :: PcOf(Step(s, e), u) == PcOf(s, u)
  {
    OthersStay(s, e);
    if !HoldsWrite(PcOf(s, e.t)) { assert SameData(s, Step(s, e)); }
  }

  lemma StepKeepsOwn(s: State, e: Event)
    requires Inv(s)
    ensures Knows(Step(s, e), PcOf(Step(s, e), e.t))
  {
    var pc := PcOf(s, e.t);
    assert Knows(s, pc);
    if e.Advance? && HoldsWrite(pc) {
      WriterKeepsOwn(s, e.t, e.ok, e.pick);
    } else if e.Advance? {
      assert SameData(s, Step(s, e));
    }
  }

  lemma WriterKeepsOwn(s: State, t: Thread, ok: bool, pick: string)
    requires ClientInv(s) && HoldsWrite(PcOf(s, t)) && Knows(s, PcOf(s, t))
    ensures Knows(Next(s, t, ok, pick), PcOf(Next(s, t, ok, pick), t))
  {
    if PcOf(s, t).Creating? {
      assert forall name | name in s.instances :: s.instances[name] < s.next;
    }
  }

  lemma StepKeepsKnown(s: State, e: Event)
    requires Inv(s)
    ensures KnowsInv(Step(s, e))
  {
    var s' := Step(s, e);
    OnlyWriterWrites(s, e);
    StepKeepsOwn(s, e);
    forall u: Thread ensures Knows(s', PcOf(s', u)) {
      if u != e.t {
        assert Knows(s, PcOf(s, u));
        if !SameData(s, s') {
          assert HoldsWrite(PcOf(s, u)) <==> s.writer == Some(u);
          assert HoldsRead(PcOf(s, u)) <==> u in s.readers;
          NoLockKnowsNothing(s', PcOf(s, u));
        }
      }
    }
  }

  lemma QuietStepKeepsMaking(s: State, e: Event)
    requires Inv(s) && SameData(s, Step(s, e))
    ensures Making(Step(s, e)) == Making(s)
  {
    assert HoldsWrite(PcOf(s, e.t)) <==> s.writer == Some(e.t);
    assert HoldsRead(PcOf(s, e.t)) <==> e.t in s.readers;
    assert Knows(s, PcOf(s, e.t));
  }

  lemma StepKeepsCount(s: State, e: Event)
    requires Inv(s)
    ensures CountInv(Step(s, e))
  {
    OnlyWriterWrites(s, e);
    if SameData(s, Step(s, e)) {
      QuietStepKeepsMaking(s, e);
    } else {
      WriterKeepsCount(s, e);
    }
  }

  lemma WriterKeepsCount(s: State, e: Event)
    requires Inv(s) && s.writer == Some(e.t)
    ensures CountInv(Step(s, e))
  {
    assert Knows(s, PcOf(s, e.t)) && HoldsWrite(PcOf(s, e.t));
  }

  lemma StepKeepsClients(s: State, e: Event)
    requires Inv(s)
    ensures ClientInv(Step(s, e))
  {
    var s' := Step(s, e);
    OnlyWriterWrites(s, e);
    if SameData(s, s') {
      QuietStepKeepsMaking(s, e);
      forall client: Client | client < s'.next ensures Accounted(s', client) { assert Accounted(s, client); }
    } else {
      assert HoldsWrite(PcOf(s, e.t));
      if PcOf(s, e.t).Creating? || PcOf(s, e.t).Made? { CreatorKeepsClients(s, e); } else { RemoverKeepsClients(s, e); }
    }
  }

  lemma CreatorKeepsClients(s: State, e: Event)
    requires Inv(s) && s.writer == Some(e.t) && !SameData(s, Step(s, e))
    requires PcOf(s, e.t).Creating? || PcOf(s, e.t).Made?
    ensures ClientInv(Step(s, e))
  {
    var s' := Step(s, e);
    assert Knows(s, PcOf(s, e.t));
    if PcOf(s, e.t).Creating? {
      CreatingKeepsClients(s, s', PcOf(s, e.t).name);
    } else {
      StoringKeepsClients(s, s', PcOf(s, e.t).name, PcOf(s, e.t).client);
    }
  }

  lemma RemoverKeepsClients(s: State, e: Event)
    requires Inv(s) && s.writer == Some(e.t) && !SameData(s, Step(s, e))
    requires !PcOf(s, e.t).Creating? && !PcOf(s, e.t).Made?
    ensures ClientInv(Step(s, e))
  {
    assert Knows(s, PcOf(s, e.t)) && HoldsWrite(PcOf(s, e.t));
    RemovingKeepsClients(s, Step(s, e));
  }

  lemma CreatingKeepsClients(s: State, s': State, name: string)
    requires ClientInv(s) && Making(s) == Idle && Making(s') == Made(name, s.next)
    requires s'.next == s.next + 1 && s'.instances == s.instances && s'.closed == s.closed
    ensures ClientInv(s')
  {
    forall client: Client | client < s'.next ensures Accounted(s', client) {
      if client < s.next { assert Accounted(s, client); }
    }
  }

  lemma StoringKeepsClients(s: State, s': State, name: string, client: Client)
    requires ClientInv(s) && Making(s) == Made(name, client)
    requires name !in s.instances && client < s.next && !Registered(s, client)
    requires s'.next == s.next && s'.instances == s.instances[name := client] && s'.closed == s.closed
    ensures ClientInv(s')
  {
    forall c: Client | c < s'.next ensures Accounted(s', c) {
      assert Accounted(s, c);
      if c == client {
        assert s'.instances[name] == c;
      } else if Registered(s, c) {
        var other :| other in s.instances && s.instances[other] == c;
        assert s'.instances[other] == c;
      }
    }
  }

  /** Closing clients, and removing ones that have been closed. */
  lemma RemovingKeepsClients(s: State, s': State)
    requires ClientInv(s) && Making(s) == Idle && Making(s') == Idle
    requires s'.next == s.next && s.closed <= s'.closed
    requires forall name | name in s'.instances :: name in s.instances && s'.instances[name] == s.instances[name]
    requires forall name | name in s.instances && name !in s'.instances :: s.instances[name] in s'.closed
    ensures ClientInv(s')
  {
    forall c: Client | c < s'.next ensures Accounted(s', c) {
      assert Accounted(s, c);
      if Registered(s, c) {
        var name :| name in s.instances && s.instances[name] == c;
        if name in s'.instances { assert s'.instances[name] == c; }
      }
    }
  }

  lemma StepKeepsInv(s: State, e: Event)
    requires Inv(s)
    ensures Inv(Step(s, e))
  {
    StepKeepsLock(s, e);
    StepKeepsKnown(s, e);
    StepKeepsCount(s, e);
    StepKeepsClients(s, e);
  }

  lemma {:induction false} RunKeepsInv(s: State, es: seq<Event>)
    requires Inv(s)
    ensures Inv(Run(s, es))
    decreases |es|
  {
    if es != [] {
      StepKeepsInv(s, es[0]);
      RunKeepsInv(Step(s, es[0]), es[1..]);
    }
  }

  lemma StartHasInv()
    ensures Inv(START)
  {
  }

  // --- What every interleaving keeps ---

  /** At most one client is created per name between removals of that name. */
  lemma OneClientPerName(es: seq<Event>, name: string)
    ensures Count(Run(START, es), name) <= 1
  {
    StartHasInv();
    RunKeepsInv(START, es);
  }

  /** A GetConnection about to return a client returns the one registered under
      its name at that moment; one about to create finds none registered. */
  lemma ReturnsRegistered(es: seq<Event>, t: Thread)
    ensures var s := Run(START, es);
      match PcOf(s, t)
      case Found(name, client) => name in s.instances && s.instances[name] == client
      case Leaving(name, Some(client)) => name in s.instances && s.instances[name] == client
      case Creating(name) => name !in s.instances
      case _ => true
  {
    StartHasInv();
    RunKeepsInv(START, es);
    assert Knows(Run(START, es), PcOf(Run(START, es), t));
  }

  /** A call that answers speaks of the map at that moment: Get of the registered client
      or of none, Ready false of none, a removal of none left under the name, a failed
      one of the closed client still there, and CloseAll of nothing at all. */
  lemma AnswersAreTrue(es: seq<Event>, t: Thread)
    ensures var s := Run(START, es);
      match PcOf(s, t)
      case Leaving(name, None) => name !in s.instances
      case Unready(name) => name !in s.instances
      case Exiting(Removed(name)) => name !in s.instances
      case Exiting(NotThere(name)) => name !in s.instances
      case Exiting(StillThere(name)) => name in s.instances && s.instances[name] in s.closed
      case Exiting(AllGone(_)) => s.instances == map[]
      case _ => true
  {
    StartHasInv();
    RunKeepsInv(START, es);
    assert Knows(Run(START, es), PcOf(Run(START, es), t));
  }

  // --- What one call does ---

  /** The call a thread is in. */
  function CallOf(pc: Pc): Option<Call> {
    match pc
    case Idle => None
    case Entering(call) => Some(call)
    case LookingUp(name) => Some(Get(name))
    case Found(name, _) => Some(Get(name))
    case Missed(name) => Some(Get(name))
    case Upgrading(name) => Some(Get(name))
    case Rechecking(name) => Some(Get(name))
    case Creating(name) => Some(Get(name))
    case Made(name, _) => Some(Get(name))
    case Leaving(name, _) => Some(Get(name))
    case Probing(name) => Some(Ready(name))
    case Unready(name) => Some(Ready(name))
    case ProbeFound(name, _) => Some(Ready(name))
    case Pinging(name, _) => Some(Ready(name))
    case Closing(name) => Some(CloseOne(name))
    case Deleting(name) => Some(CloseOne(name))
    case ClosingAll(_, _) => Some(CloseEvery)
    case Dropping(_) => Some(CloseEvery)
    case Exiting(AllGone(_)) => Some(CloseEvery)
    case Exiting(answer) => Some(CloseOne(answer.name))
  }

  /** A thread at a return statement. */
  predicate Returning(pc: Pc) { pc.Found? || pc.Leaving? || pc.Unready? || pc.Pinging? || pc.Exiting? }

  ghost predicate BusyThroughout(s: State, es: seq<Event>, t: Thread)
    decreases |es|
  {
    PcOf(s, t) != Idle && (es == [] || BusyThroughout(Step(s, es[0]), es[1..], t))
  }

  lemma StepStaysInCall(s: State, e: Event, t: Thread)
    requires PcOf(s, t) != Idle
    ensures if PcOf(Step(s, e), t) == Idle then Returning(PcOf(s, t)) && e.Advance? && e.t == t
            else CallOf(PcOf(Step(s, e), t)) == CallOf(PcOf(s, t))
  {
    if t != e.t { OthersStay(s, e); }
  }

  /** Until it returns a thread is in the call it began, whatever the others do; and it
      returns from that call's return statements only. */
  lemma {:induction false} StaysInCall(s: State, es: seq<Event>, e: Event, t: Thread)
    requires BusyThroughout(s, es, t)
    ensures CallOf(PcOf(Run(s, es), t)) == CallOf(PcOf(s, t))
    ensures PcOf(Step(Run(s, es), e), t) == Idle ==> Returning(PcOf(Run(s, es), t))
    decreases |es|
  {
    if es == [] {
      StepStaysInCall(s, e, t);
    } else {
      StepStaysInCall(s, es[0], t);
      StaysInCall(Step(s, es[0]), es[1..], e, t);
    }
  }

  /** Returning an error of the network's. */
  predicate ReportsFailure(pc: Pc) {
    match pc
    case Leaving(_, result) => result == None
    case ClosingAll(_, failed) => failed
    case Dropping(failed) => failed
    case Exiting(StillThere(_)) => true
    case Exiting(AllGone(failed)) => failed
    case _ => false
  }

  predicate NothingFails(es: seq<Event>) { forall i | 0 <= i < |es| && es[i].Advance? :: es[i].ok }

  lemma StepReportsNone(s: State, e: Event)
    requires (e.Advance? ==> e.ok) && forall t: Thread :: !ReportsFailure(PcOf(s, t))
    ensures forall t: Thread :: !ReportsFailure(PcOf(Step(s, e), t))
  {
    OthersStay(s, e);
    assert !ReportsFailure(PcOf(s, e.t));
    assert !ReportsFailure(PcOf(Step(s, e), e.t));
    forall t: Thread ensures !ReportsFailure(PcOf(Step(s, e), t)) {
      if t != e.t { assert PcOf(Step(s, e), t) == PcOf(s, t); }
    }
  }

  lemma {:induction false} RunReportsNone(s: State, es: seq<Event>, t: Thread)
    requires NothingFails(es) && forall u: Thread :: !ReportsFailure(PcOf(s, u))
    ensures !ReportsFailure(PcOf(Run(s, es), t))
    decreases |es|
  {
    if es != [] {
      StepReportsNone(s, es[0]);
      assert forall i | 0 <= i < |es[1..]| :: es[1..][i] == es[i + 1];
      RunReportsNone(Step(s, es[0]), es[1..], t);
    }
  }

  /** Errors come from the network alone: where nothing fails, GetConnection always ends
      with a client and no removal reports a failure. */
  lemma ErrorsComeFromFailures(es: seq<Event>, t: Thread)
    requires NothingFails(es)
    ensures !ReportsFailure(PcOf(Run(START, es), t))
  {
    RunReportsNone(START, es, t);
  }

  /** `n` statements of one thread. */
  function Statements(s: State, t: Thread, ok: bool, n: nat): State
    decreases n
  {
    if n == 0 then s else Next(Statements(s, t, ok, n - 1), t, ok, "")
  }

  predicate AtRest(s: State, t: Thread) { s.writer == None && s.readers == {} && PcOf(s, t) == Idle }

  /** Undisturbed, GetConnection finds the client; or it creates the next one, registers
      it and returns it; or the creation fails and nothing has changed. */
  lemma GetAlone(s: State, t: Thread, name: string, ok: bool)
    requires AtRest(s, t)
    ensures var began := Step(s, Begin(t, Get(name)));
      if name in s.instances then
        var found := Statements(began, t, ok, 2);
        SameData(s, found) && PcOf(found, t) == Found(name, s.instances[name])
      else if !ok then
        var failed := Statements(began, t, ok, 6);
        SameData(s, failed) && PcOf(failed, t) == Leaving(name, None)
      else
        var made := Statements(began, t, ok, 7);
        && PcOf(made, t) == Leaving(name, Some(s.next))
        && made.instances == s.instances[name := s.next] && made.next == s.next + 1 && made.closed == s.closed
  {
    LookUpAlone(s, t, name, ok);
    if name !in s.instances {
      RecheckAlone(s, Step(s, Begin(t, Get(name))), t, name, ok);
      CreateAlone(s, Step(s, Begin(t, Get(name))), t, name, ok);
    }
  }

  lemma LookUpAlone(s: State, t: Thread, name: string, ok: bool)
    requires AtRest(s, t)
    ensures var s2 := Statements(Step(s, Begin(t, Get(name))), t, ok, 2);
      && SameData(s, s2) && s2.writer == None && s2.readers == {t}
      && PcOf(s2, t) == if name in s.instances then Found(name, s.instances[name]) else Missed(name)
  {
    var began := At(s, t, Entering(Get(name)));
    assert Statements(began, t, ok, 1) == At(began.(readers := {t}), t, LookingUp(name));
  }

  lemma RecheckAlone(s: State, began: State, t: Thread, name: string, ok: bool)
    requires name !in s.instances
    requires var s2 := Statements(began, t, ok, 2);
      SameData(s, s2) && s2.writer == None && s2.readers == {t} && PcOf(s2, t) == Missed(name)
    ensures var s5 := Statements(began, t, ok, 5); SameData(s, s5) && PcOf(s5, t) == Creating(name)
  {
    var s3, s4 := Statements(began, t, ok, 3), Statements(began, t, ok, 4);
    assert SameData(s, s3) && s3.writer == None && s3.readers == {} && PcOf(s3, t) == Upgrading(name);
    assert SameData(s, s4) && PcOf(s4, t) == Rechecking(name);
  }

  lemma CreateAlone(s: State, began: State, t: Thread, name: string, ok: bool)
    requires var s5 := Statements(began, t, ok, 5); SameData(s, s5) && PcOf(s5, t) == Creating(name)
    ensures var s6 := Statements(began, t, ok, 6); !ok ==> SameData(s, s6) && PcOf(s6, t) == Leaving(name, None)
    ensures var s7 := Statements(began, t, ok, 7);
      ok ==> PcOf(s7, t) == Leaving(name, Some(s.next))
             && s7.instances == s.instances[name := s.next] && s7.next == s.next + 1 && s7.closed == s.closed
  {
    var s6 := Statements(began, t, ok, 6);
    assert s6 == Next(Statements(began, t, ok, 5), t, ok, "");
  }

  /** The Close calls of CloseAll, in the order of the range. */
  function Closes(t: Thread, picks: seq<string>, oks: seq<bool>): seq<Event>
    requires |picks| == |oks|
  {
    seq(|picks|, i requires 0 <= i < |picks| => Advance(t, oks[i], picks[i]))
  }

  /** Whatever the order, CloseAll closes each client once, goes on past failures and
      reports one exactly if a Close failed. */
  lemma {:induction false} CloseAllClosesEach(s: State, t: Thread, failed: bool, picks: seq<string>, oks: seq<bool>)
    requires |picks| == |oks| && (forall i, j | 0 <= i < j < |picks| :: picks[i] != picks[j])
    requires (set name | name in picks) <= s.instances.Keys
    requires PcOf(s, t) == ClosingAll((set name | name in picks), failed)
    ensures var s' := Run(s, Closes(t, picks, oks));
      && PcOf(s', t) == ClosingAll({}, failed || false in oks) && s'.instances == s.instances
      && s'.closed == s.closed + set name | name in picks :: s.instances[name]
    decreases |picks|
  {
    if picks != [] {
      var left := set name | name in picks;
      var s1 := Next(s, t, oks[0], picks[0]);
      assert picks[0] in left;
      assert (set name | name in picks[1..]) == left - {picks[0]};
      assert Closes(t, picks, oks)[1..] == Closes(t, picks[1..], oks[1..]);
      CloseAllClosesEach(s1, t, failed || !oks[0], picks[1..], oks[1..]);
    }
  }

  /** A writer excludes every other thread, reader or writer. */
  lemma MutualExclusion(es: seq<Event>, t: Thread, u: Thread)
    requires t != u && HoldsWrite(PcOf(Run(START, es), t))
    ensures !HoldsWrite(PcOf(Run(START, es), u)) && !HoldsRead(PcOf(Run(START, es), u))
  {
    StartHasInv();
    RunKeepsInv(START, es);
    var s := Run(START, es);
    assert s.writer == Some(t);
    assert HoldsRead(PcOf(s, u)) <==> u in s.readers;
  }

  /** The lock is free whenever no call is active. */
  lemma LockFreeAtRest(es: seq<Event>)
    requires forall t: Thread :: PcOf(Run(START, es), t) == Idle
    ensures Run(START, es).writer == None && Run(START, es).readers == {}
  {
    StartHasInv();
    RunKeepsInv(START, es);
    var s := Run(START, es);
    forall t: Thread ensures s.writer != Some(t) && t !in s.readers {
      assert PcOf(s, t) == Idle;
    }
  }

  /** No client is leaked: when no creation is under way, each one whose creation
      succeeded is registered, under one name only, or has been closed. */
  lemma NoneLeaked(es: seq<Event>, client: Client)
    requires client < Run(START, es).next
    requires Making(Run(START, es)) == Idle
    ensures client in Run(START, es).closed || Registered(Run(START, es), client)
  {
    StartHasInv();
    RunKeepsInv(START, es);
    assert Accounted(Run(START, es), client);
  }

  /** The step moves its thread on. */
  predicate Moves(s: State, e: Event) { Step(s, e) != s }

  /** No deadlock: while any call is active, a thread that holds the lock can move, or,
      with the lock free, every active thread can. So it makes no difference which
      waiting threads the lock prefers. */
  lemma NeverStuck(es: seq<Event>, t: Thread) returns (e: Event)
    requires PcOf(Run(START, es), t) != Idle
    ensures e.Advance? && Moves(Run(START, es), e)
    ensures var s := Run(START, es); e.t == t || s.writer == Some(e.t) || e.t in s.readers
    ensures var s := Run(START, es); s.writer == None && s.readers == {} ==> e.t == t
  {
    StartHasInv();
    RunKeepsInv(START, es);
    var s := Run(START, es);
    var holder := t;
    if s.writer.Some? {
      holder := s.writer.value;
      assert HoldsWrite(PcOf(s, holder));
    } else if s.readers != {} {
      holder :| holder in s.readers;
      assert HoldsRead(PcOf(s, holder));
    }
    e := HolderMoves(s, holder);
  }

  /** A thread that holds the lock is never blocked, and neither is one that finds it free. */
  lemma HolderMoves(s: State, t: Thread) returns (e: Event)
    requires Inv(s) && PcOf(s, t) != Idle
    requires s.writer == Some(t) || t in s.readers || (s.writer == None && s.readers == {})
    ensures e.Advance? && e.t == t && Moves(s, e)
  {
    var pick := "";
    if PcOf(s, t).ClosingAll? && PcOf(s, t).left != {} {
      pick :| pick in PcOf(s, t).left;
    }
    assert Knows(s, PcOf(s, t));
    e := Advance(t, true, pick);
    assert PcOf(Step(s, e), t) != PcOf(s, t);
  }

  // --- Closed clients ---

  /** Close fails, and the entry stays. */
  predicate FailedClose(s: State, e: Event) {
    e.Advance? && !e.ok && PcOf(s, e.t).Closing? && PcOf(s, e.t).name in s.instances
  }

  ghost predicate NoFailedClose(s: State, es: seq<Event>)
    decreases |es|
  {
    es == [] || (!FailedClose(s, es[0]) && NoFailedClose(Step(s, es[0]), es[1..]))
  }

  /** The writer has closed what is under this name and is about to remove it. */
  predicate Removing(pc: Pc, name: string) {
    pc == Deleting(name) || (pc.ClosingAll? && name !in pc.left) || pc.Dropping?
  }

  /** A registered client is closed only on its way out. */
  ghost predicate OpenInv(s: State) {
    && (forall name | name in s.instances && s.instances[name] in s.closed ::
          s.writer.Some? && Removing(PcOf(s, s.writer.value), name))
    && (forall client | client in s.closed :: client < s.next)
    && (Making(s).Made? ==> Making(s).client !in s.closed)
  }

  lemma StepKeepsOpen(s: State, e: Event)
    requires Inv(s) && OpenInv(s) && !FailedClose(s, e)
    ensures OpenInv(Step(s, e))
  {
    OnlyWriterWrites(s, e);
    if s.writer == Some(e.t) {
      WriterKeepsOpen(s, e);
    } else {
      QuietStepKeepsMaking(s, e);
      if s.writer.Some? {
        assert HoldsWrite(PcOf(s, s.writer.value));
        BystanderKeepsWriter(s, e);
      }
    }
  }

  /** A thread that does not hold the write lock leaves the writer where it is. */
  lemma BystanderKeepsWriter(s: State, e: Event)
    requires LockInv(s) && s.writer != Some(e.t) && s.writer.Some?
    ensures Step(s, e).writer == s.writer && PcOf(Step(s, e), s.writer.value) == PcOf(s, s.writer.value)
  {
  }

  lemma WriterKeepsOpen(s: State, e: Event)
    requires Inv(s) && OpenInv(s) && !FailedClose(s, e) && s.writer == Some(e.t)
    ensures OpenInv(Step(s, e))
  {
    var pc := PcOf(s, e.t);
    assert Knows(s, pc) && HoldsWrite(pc);
    if e.Begin? || pc.Exiting? || pc.Leaving? || pc.Rechecking? {
      assert SameData(s, Step(s, e));
    } else if pc.Creating? || pc.Made? {
      assert Step(s, e).closed == s.closed;
    }
  }

  lemma {:induction false} RunKeepsOpen(s: State, es: seq<Event>)
    requires Inv(s) && OpenInv(s) && NoFailedClose(s, es)
    ensures Inv(Run(s, es)) && OpenInv(Run(s, es))
    decreases |es|
  {
    if es != [] {
      StepKeepsInv(s, es[0]);
      StepKeepsOpen(s, es[0]);
      RunKeepsOpen(Step(s, es[0]), es[1..]);
    }
  }

  /** A GetConnection is about to return a client Close has been called on. */
  predicate ReturnsClosed(s: State, t: Thread) {
    match PcOf(s, t)
    case Found(_, client) => client in s.closed
    case Leaving(_, Some(client)) => client in s.closed
    case _ => false
  }

  /** While no Close fails, GetConnection never returns a client already closed. */
  lemma ReturnsOpen(es: seq<Event>, t: Thread)
    requires NoFailedClose(START, es)
    ensures !ReturnsClosed(Run(START, es), t)
  {
    StartHasInv();
    RunKeepsOpen(START, es);
    var s := Run(START, es);
    assert Knows(s, PcOf(s, t));
    assert HoldsRead(PcOf(s, t)) <==> t in s.readers;
    assert HoldsWrite(PcOf(s, t)) <==> s.writer == Some(t);
  }

  lemma {:induction false} FreshThread(threads: set<Thread>) returns (t: Thread)
    ensures forall u | u in threads :: u < t
    decreases |threads|
  {
    t := 0;
    if threads != {} {
      var u :| u in threads;
      var rest := FreshThread(threads - {u});
      t := rest + u + 1;
      assert forall v | v in threads :: v == u || v in threads - {u};
    }
  }

  /** After a Close fails its closed client stays registered: any idle thread that asks
      for the name gets it, with no further failure. */
  lemma FailedCloseIsServed(es: seq<Event>, e: Event, t: Thread) returns (cs: seq<Event>)
    requires FailedClose(Run(START, es), e) && t != e.t && PcOf(Run(START, es), t) == Idle
    ensures var s := Run(START, es);
      var name := PcOf(s, e.t).name;
      && NoFailedClose(Step(s, e), cs)
      && PcOf(Run(Step(s, e), cs), t) == Found(name, s.instances[name])
      && ReturnsClosed(Run(Step(s, e), cs), t)
  {
    StartHasInv();
    RunKeepsInv(START, es);
    var s := Run(START, es);
    var name := PcOf(s, e.t).name;
    assert s.writer == Some(e.t);
    var s1 := Step(s, e);
    cs := [Advance(e.t, true, ""), Begin(t, Get(name)), Advance(t, true, ""), Advance(t, true, "")];
    assert PcOf(s1, e.t) .Exiting? && PcOf(s1, t) == Idle && s1.instances == s.instances;
    assert s.instances[name] in s1.closed;
    var s2, s3, s4, s5 := ServeIdle(s1, e.t, t, name);
    RunFour(s1, cs, s2, s3, s4, s5);
  }

  lemma ServeIdle(s1: State, u: Thread, t: Thread, name: string) returns (s2: State, s3: State, s4: State, s5: State)
    requires u != t && PcOf(s1, u) .Exiting? && PcOf(s1, t) == Idle && name in s1.instances
    ensures s2 == Step(s1, Advance(u, true, "")) && s3 == Step(s2, Begin(t, Get(name)))
    ensures s4 == Step(s3, Advance(t, true, "")) && s5 == Step(s4, Advance(t, true, ""))
    ensures PcOf(s3, t).Entering? && PcOf(s4, t).LookingUp?
    ensures PcOf(s5, t) == Found(name, s1.instances[name]) && s5.closed == s1.closed
  {
    s2 := Unlock(s1, u);
    s3 := At(s2, t, Entering(Get(name)));
    s4 := At(s3.(readers := s3.readers + {t}), t, LookingUp(name));
    s5 := At(s4, t, Found(name, s1.instances[name]));
  }

  lemma RunFour(s: State, es: seq<Event>, s1: State, s2: State, s3: State, s4: State)
    requires |es| == 4 && s1 == Step(s, es[0]) && s2 == Step(s1, es[1])
    requires s3 == Step(s2, es[2]) && s4 == Step(s3, es[3])
    requires !FailedClose(s, es[0]) && !FailedClose(s1, es[1]) && !FailedClose(s2, es[2]) && !FailedClose(s3, es[3])
    ensures Run(s, es) == s4 && NoFailedClose(s, es)
  {
    RunJoined(s3, [es[3]], []);
    RunJoined(s2, [es[2]], [es[3]]);
    RunJoined(s1, [es[1]], [es[2], es[3]]);
    RunJoined(s, [es[0]], [es[1], es[2], es[3]]);
    assert [es[2]] + [es[3]] == [es[2], es[3]] && [es[1]] + [es[2], es[3]] == [es[1], es[2], es[3]];
    assert [es[0]] + [es[1], es[2], es[3]] == es;
  }

  lemma {:induction false} RunJoined(s: State, es: seq<Event>, more: seq<Event>)
    ensures Run(s, es + more) == Run(Run(s, es), more)
    ensures NoFailedClose(s, es + more) <==> NoFailedClose(s, es) && NoFailedClose(Run(s, es), more)
    decreases |es|
  {
    if es == [] {
      assert es + more == more;
    } else {
      RunJoined(Step(s, es[0]), es[1..], more);
      assert (es + more)[1..] == es[1..] + more;
    }
  }

  /** From here, calls whose Close succeeds never get a closed client. */
  ghost predicate ServesOpen(s: State) {
    forall cs, t | NoFailedClose(s, cs) :: !ReturnsClosed(Run(s, cs), t)
  }

  /** Up to this event every Close succeeded; then GetConnection goes on returning open
      clients only, until the next failure, exactly if this event is not a failed Close. */
  lemma ServesOpenExactly(es: seq<Event>, e: Event)
    requires NoFailedClose(START, es)
    ensures ServesOpen(Run(START, es + [e])) <==> !FailedClose(Run(START, es), e)
  {
    var s := Run(START, es);
    RunJoined(START, es, [e]);
    assert Run(s, [e]) == Step(s, e) by { assert [e][1..] == []; }
    if FailedClose(s, e) {
      var t := FreshThread(s.pcs.Keys + {e.t});
      var cs := FailedCloseIsServed(es, e, t);
      assert !ServesOpen(Step(s, e));
    } else {
      assert NoFailedClose(s, [e]);
      forall cs, t | NoFailedClose(Step(s, e), cs) ensures !ReturnsClosed(Run(Step(s, e), cs), t) {
        RunJoined(START, es + [e], cs);
        ReturnsOpen(es + [e] + cs, t);
      }
    }
  }

  /** Over whole runs: every Close in the run succeeded exactly if at no point of it
      calls whose Close succeeds could get a closed client. */
  lemma NoFailureExactly(es: seq<Event>)
    ensures NoFailedClose(START, es) <==> forall k | 0 <= k <= |es| :: ServesOpen(Run(START, es[..k]))
  {
    if NoFailedClose(START, es) {
      forall k | 0 <= k <= |es| ensures ServesOpen(Run(START, es[..k])) {
        assert es[..k] + es[k..] == es;
        RunJoined(START, es[..k], es[k..]);
        forall cs, t | NoFailedClose(Run(START, es[..k]), cs) ensures !ReturnsClosed(Run(Run(START, es[..k]), cs), t) {
          RunJoined(START, es[..k], cs);
          ReturnsOpen(es[..k] + cs, t);
        }
      }
    } else {
      var k := FirstFailure(START, es);
      assert es[..k + 1] == es[..k] + [es[k]];
      ServesOpenExactly(es[..k], es[k]);
    }
  }

  lemma {:induction false} FirstFailure(s: State, es: seq<Event>) returns (k: nat)
    requires !NoFailedClose(s, es)
    ensures k < |es| && NoFailedClose(s, es[..k]) && FailedClose(Run(s, es[..k]), es[k])
    decreases |es|
  {
    if FailedClose(s, es[0]) {
      k := 0;
      assert es[..0] == [];
    } else {
      var rest := FirstFailure(Step(s, es[0]), es[1..]);
      k := rest + 1;
      assert es[..k][1..] == es[1..][..rest];
    }
  }
}
