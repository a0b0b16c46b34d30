/**
 Any number of PIN and recovery sessions over the same users, their statements
 interleaved in any order.
 */
module PinRuns {
  import opened Options
  import opened PinLimiter
  import Queues

  type Sid = nat

  datatype Kind = Pin | Recovery

  /** How far a session has come. */
  datatype Phase =
    | Started
    | Checked                                             // read the user, found no standing lock
    | Held(attempts: int, lockedUntil: Option<int>)       // owns an admitted claim
    | Judged(correct: bool, attempts: int, lockedUntil: Option<int>)
    | Done(answer: Option<Outcome>)                       // none when the session was given up

  datatype Session = Session(user: Id, kind: Kind, phase: Phase)

  datatype Admission = Admission(sid: Sid, user: Id, at: int)

  /**
   `admissions` is every admitted claim in order and `claims` the one each session
   owns; `epoch` the times of those admitted for a user since its counter was
   last cleared; `comparisons` counts comparisons run, `compared` says by which
   sessions; `told` are the remaining counts sent to users.
   */
  datatype State = State(
    users: Table,
    sessions: map<Sid, Session>,
    admissions: seq<Admission>,
    claims: map<Sid, Admission>,
    epoch: map<Id, seq<int>>,
    comparisons: nat,
    compared: set<Sid>,
    told: seq<int>)

  /** The limiter's settings. */
  datatype Limits = Limits(maxAttempts: int, lockout: int)

  /** Clock values are whatever the calling process read: they need not agree
      with the order in which the statements run. */
  datatype Event =
    | Begin(sid: Sid, user: Id, kind: Kind)
    | Check(sid: Sid, now: int)
    | Claiming(sid: Sid, now: int)
    | Compare(sid: Sid, correct: bool)
    | Conclude(sid: Sid)                                  // reset after a right guess, report after a wrong one
    | GiveUp(sid: Sid)

  predicate At(s: State, sid: Sid, phase: Phase) { sid in s.sessions && s.sessions[sid].phase == phase }

  ghost predicate Enabled(s: State, e: Event) {
    match e
    case Begin(sid, user, _) => sid !in s.sessions
    case Check(sid, _) => At(s, sid, Started)
    case Claiming(sid, _) => At(s, sid, Checked)
    case Compare(sid, _) => sid in s.sessions && s.sessions[sid].phase.Held?
    case Conclude(sid) => sid in s.sessions && s.sessions[sid].phase.Judged?
    case GiveUp(sid) => sid in s.sessions
  }

  ghost function Moved(s: State, sid: Sid, phase: Phase): State
    requires sid in s.sessions
  {
    s.(sessions := s.sessions[sid := s.sessions[sid].(phase := phase)])
  }

  function Epoch(s: State, user: Id): seq<int> {
    if user in s.epoch then s.epoch[user] else []
  }

  /** VerifyPIN stops at a missing user, an unset PIN or a standing lock before it
      claims; recovery goes straight to the claim. */
  predicate PassesCheck(s: State, sess: Session, now: int) {
    sess.kind == Recovery
    || (Live(s.users, sess.user) && s.users[sess.user].pinHash.Some?
        && (s.users[sess.user].lockedUntil == None || now >= s.users[sess.user].lockedUntil.value))
  }

  /** What a session that fails its check answers. */
  function CheckAnswer(s: State, user: Id): Outcome {
    if !Live(s.users, user) then NotFound
    else if s.users[user].pinHash.None? then NotSet
    else if s.users[user].lockedUntil.Some? then LockedUntil(s.users[user].lockedUntil.value)
    else NotRecorded
  }

  /** What a session whose claim is not admitted answers. */
  function RefusedAnswer(s: State, user: Id): Outcome {
    if Live(s.users, user) && s.users[user].lockedUntil.Some? then LockedUntil(s.users[user].lockedUntil.value)
    else NotRecorded
  }

  /** What a session answers to a wrong guess. */
  function WrongAnswer(l: Limits, sess: Session): Outcome
    requires sess.phase.Judged?
  {
    if sess.kind == Recovery then Denied
    else if sess.phase.lockedUntil.Some? then LockedUntil(sess.phase.lockedUntil.value)
    else Wrong(l.maxAttempts - sess.phase.attempts)
  }

  ghost function Step(l: Limits, s: State, e: Event): State
    requires Enabled(s, e)
  {
    match e
    case Begin(sid, user, kind) => s.(sessions := s.sessions[sid := Session(user, kind, Started)])
    case Check(sid, now) => 
      Moved(s, sid, if PassesCheck(s, s.sessions[sid], now) then Checked
                    else Done(Some(CheckAnswer(s, s.sessions[sid].user))))
    case Claiming(sid, now) =>
      var user := s.sessions[sid].user;
      if !Claimable(s.users, user, now) then Moved(s, sid, Done(Some(RefusedAnswer(s, user))))
      else
        var u := Claimed(s.users[user], l.maxAttempts, l.lockout, now);
        Moved(s, sid, Held(u.attempts, u.lockedUntil)).(
          users := s.users[user := u],
          admissions := s.admissions + [Admission(sid, user, now)],
          claims := s.claims[sid := Admission(sid, user, now)],
          epoch := s.epoch[user := Epoch(s, user) + [now]])
    case Compare(sid, correct) =>
      var p := s.sessions[sid].phase;
      Moved(s, sid, Judged(correct, p.attempts, p.lockedUntil)).(
        comparisons := s.comparisons + 1, compared := s.compared + {sid})
    case Conclude(sid) =>
      var sess := s.sessions[sid];
      if !sess.phase.correct then
        Moved(s, sid, Done(Some(WrongAnswer(l, sess)))).(told :=
          if sess.kind == Pin && sess.phase.lockedUntil == None
          then s.told + [l.maxAttempts - sess.phase.attempts] else s.told)
      else if !Live(s.users, sess.user) then Moved(s, sid, Done(Some(ResetFailed)))
      else Moved(s, sid, Done(Some(Verified))).(
        users := s.users[sess.user := Cleared(s.users[sess.user])],
        epoch := s.epoch[sess.user := []])
    case GiveUp(sid) => Moved(s, sid, Done(None))
  }

  ghost predicate RunEnabled(l: Limits, s: State, es: seq<Event>)
    decreases |es|
  {
    es == [] || (Enabled(s, es[0]) && RunEnabled(l, Step(l, s, es[0]), es[1..]))
  }

  ghost function Run(l: Limits, s: State, es: seq<Event>): State
    requires RunEnabled(l, s, es)
    decreases |es|
  {
    if es == [] then s else Run(l, Step(l, s, es[0]), es[1..])
  }

  /** No sessions yet, every counter clear. */
  ghost predicate Initial(s: State) {
    && (forall id | id in s.users :: s.users[id].attempts == 0 && s.users[id].lockedUntil == None)
    && s.sessions == map[] && s.admissions == [] && s.claims == map[] && s.epoch == map[]
    && s.comparisons == 0 && s.compared == {} && s.told == []
  }

  // --- One user's counter ---

  /** From the maxAttempts-th admission on, each comes a lockout after the last. */
  ghost predicate Spaced(l: Limits, times: seq<int>) {
    forall i | 0 < i < |times| && i >= l.maxAttempts :: times[i] >= times[i - 1] + l.lockout
  }

  ghost predicate CounterInv(l: Limits, u: User, times: seq<int>) {
    && u.attempts == |times|
    && u.lockedUntil == (if |times| >= l.maxAttempts && times != [] then Some(times[|times| - 1] + l.lockout) else None)
    && Spaced(l, times)
  }

  lemma ClaimKeepsCounter(l: Limits, u: User, times: seq<int>, now: int)
    requires l.maxAttempts >= 1 && CounterInv(l, u, times)
    requires u.lockedUntil == None || u.lockedUntil.value <= now
    ensures CounterInv(l, Claimed(u, l.maxAttempts, l.lockout, now), times + [now])
  {
  }

  /** Spacing adds up: the n-th admission is (n - maxAttempts) lockouts after the
      maxAttempts-th. */
  lemma {:induction false} SpacingAddsUp(l: Limits, times: seq<int>, n: nat)
    requires l.maxAttempts >= 1 && Spaced(l, times) && l.maxAttempts <= n <= |times|
    ensures times[n - 1] >= times[l.maxAttempts - 1] + (n - l.maxAttempts) * l.lockout
  {
    if n > l.maxAttempts {
      SpacingAddsUp(l, times, n - 1);
      assert times[n - 1] >= times[n - 2] + l.lockout;
      assert (n - l.maxAttempts) * l.lockout == (n - 1 - l.maxAttempts) * l.lockout + l.lockout;
    }
  }

  // --- The invariant over interleavings ---

  ghost predicate SessionInv(l: Limits, s: State, sid: Sid)
    requires sid in s.sessions
  {
    match s.sessions[sid].phase
    case Started => sid !in s.claims
    case Checked => sid !in s.claims
    case Held(attempts, lockedUntil) =>
      && sid in s.claims && s.claims[sid].user == s.sessions[sid].user && sid !in s.compared
      && attempts >= 1 && (lockedUntil.Some? <==> attempts >= l.maxAttempts)
    case Judged(_, attempts, lockedUntil) =>
      && sid in s.claims
      && attempts >= 1 && (lockedUntil.Some? <==> attempts >= l.maxAttempts)
    case Done(_) => true
  }

  /** Each admission belongs to one session, each comparison to a session that
      owns one, and no session compares twice. */
  ghost predicate ClaimsInv(s: State) {
    && s.claims.Keys <= s.sessions.Keys
    && |s.claims.Keys| == |s.admissions|
    && (forall i | 0 <= i < |s.admissions| ::
          s.admissions[i].sid in s.claims && s.claims[s.admissions[i].sid] == s.admissions[i])
    && s.compared <= s.claims.Keys
    && s.comparisons == |s.compared|
  }

  ghost predicate ToldInv(l: Limits, s: State) {
    forall i | 0 <= i < |s.told| :: 1 <= s.told[i] <= l.maxAttempts - 1
  }

  ghost predicate ProtocolInv(l: Limits, s: State) {
    && (forall sid | sid in s.sessions :: SessionInv(l, s, sid))
    && ClaimsInv(s) && ToldInv(l, s)
  }

  ghost predicate Inv(l: Limits, s: State) {
    CountersInv(l, s) && ProtocolInv(l, s)
  }

  ghost predicate CountersInv(l: Limits, s: State) {
    && (forall id | id in s.users :: CounterInv(l, s.users[id], Epoch(s, id)))
    && (forall id | id in s.epoch :: id in s.users)
  }

  /** A statement that writes one user's counter and epoch together. */
  lemma OneCounterWritten(l: Limits, s: State, s': State, user: Id, u: User, times: seq<int>)
    requires CountersInv(l, s) && user in s.users && CounterInv(l, u, times)
    requires s'.users == s.users[user := u] && s'.epoch == s.epoch[user := times]
    ensures CountersInv(l, s')
  {
  }

  lemma CountersKept(l: Limits, s: State, e: Event)
    requires l.maxAttempts >= 1 && Enabled(s, e) && CountersInv(l, s)
    ensures CountersInv(l, Step(l, s, e))
  {
    var s' := Step(l, s, e);
    if s'.users != s.users || s'.epoch != s.epoch {
      var user := s.sessions[e.sid].user;
      assert CounterInv(l, s.users[user], Epoch(s, user));
      if e.Claiming? {
        ClaimKeepsCounter(l, s.users[user], Epoch(s, user), e.now);
        var u := Claimed(s.users[user], l.maxAttempts, l.lockout, e.now);
        OneCounterWritten(l, s, s', user, u, Epoch(s, user) + [e.now]);
      } else {
        OneCounterWritten(l, s, s', user, Cleared(s.users[user]), []);
      }
    }
  }

  lemma AdmissionKept(s: State, a: Admission)
    requires ClaimsInv(s) && a.sid in s.sessions && a.sid !in s.claims
    ensures var s' := s.(admissions := s.admissions + [a], claims := s.claims[a.sid := a]); ClaimsInv(s')
  {
  }

  lemma ClaimingKept(l: Limits, s: State, e: Event)
    requires e.Claiming? && Enabled(s, e) && ProtocolInv(l, s)
    requires var user := s.sessions[e.sid].user; user in s.users ==> s.users[user].attempts >= 0
    ensures ProtocolInv(l, Step(l, s, e))
  {
    var s' := Step(l, s, e);
    assert SessionInv(l, s, e.sid);
    forall sid | sid in s'.sessions ensures SessionInv(l, s', sid) {
      assert SessionInv(l, s, sid);
    }
    AdmissionKept(s, Admission(e.sid, s.sessions[e.sid].user, e.now));
  }

  lemma CompareKept(l: Limits, s: State, e: Event)
    requires e.Compare? && Enabled(s, e) && ProtocolInv(l, s)
    ensures ProtocolInv(l, Step(l, s, e))
  {
    var s' := Step(l, s, e);
    assert SessionInv(l, s, e.sid);
    forall sid | sid in s'.sessions ensures SessionInv(l, s', sid) {
      assert SessionInv(l, s, sid);
    }
  }

  /** A session that ends leaves what the others hold alone. */
  lemma EndingKept(l: Limits, s: State, s': State, sid: Sid)
    requires ProtocolInv(l, s) && ToldInv(l, s') && sid in s.sessions
    requires s'.sessions.Keys == s.sessions.Keys && s'.sessions[sid].phase.Done?
    requires forall other | other in s.sessions && other != sid :: s'.sessions[other] == s.sessions[other]
    requires s'.admissions == s.admissions && s'.claims == s.claims
    requires s'.comparisons == s.comparisons && s'.compared == s.compared
    ensures ProtocolInv(l, s')
  {
    forall other | other in s'.sessions ensures SessionInv(l, s', other) {
      assert SessionInv(l, s, other);
    }
  }

  lemma ConcludeTells(l: Limits, s: State, e: Event)
    requires e.Conclude? && Enabled(s, e) && SessionInv(l, s, e.sid) && ToldInv(l, s)
    ensures ToldInv(l, Step(l, s, e))
  {
  }

  lemma ConcludeKept(l: Limits, s: State, e: Event)
    requires e.Conclude? && Enabled(s, e) && ProtocolInv(l, s)
    ensures ProtocolInv(l, Step(l, s, e))
  {
    assert SessionInv(l, s, e.sid);
    ConcludeTells(l, s, e);
    EndingKept(l, s, Step(l, s, e), e.sid);
  }

  lemma OtherKept(l: Limits, s: State, e: Event)
    requires (e.Begin? || e.Check? || e.GiveUp?) && Enabled(s, e) && ProtocolInv(l, s)
    ensures ProtocolInv(l, Step(l, s, e))
  {
    var s' := Step(l, s, e);
    forall sid | sid in s'.sessions ensures SessionInv(l, s', sid) {
      if sid in s.sessions { assert SessionInv(l, s, sid); }
    }
  }

  lemma StepKeepsInv(l: Limits, s: State, e: Event)
    requires l.maxAttempts >= 1 && Enabled(s, e) && Inv(l, s)
    ensures Inv(l, Step(l, s, e))
  {
    CountersKept(l, s, e);
    match e
    case Claiming(sid, _) =>
      var user := s.sessions[sid].user;
      assert user in s.users ==> CounterInv(l, s.users[user], Epoch(s, user));
      ClaimingKept(l, s, e);
    case Compare(_, _) => CompareKept(l, s, e);
    case Conclude(_) => ConcludeKept(l, s, e);
    case _ => OtherKept(l, s, e);
  }

  lemma {:induction false} RunKeepsInv(l: Limits, s: State, es: seq<Event>)
    requires l.maxAttempts >= 1 && RunEnabled(l, s, es) && Inv(l, s)
    ensures Inv(l, Run(l, s, es))
    decreases |es|
  {
    if es != [] {
      StepKeepsInv(l, s, es[0]);
      RunKeepsInv(l, Step(l, s, es[0]), es[1..]);
    }
  }

  /** In every state reached by any interleaving: a lock time is present exactly
      when the counter is full, every remaining count sent to a user lies between
      1 and maxAttempts - 1, and no comparison ran without an admitted claim of
      its own session. */
  lemma Reached(l: Limits, s: State, es: seq<Event>)
    requires l.maxAttempts >= 1 && Initial(s) && RunEnabled(l, s, es)
    ensures var s' := Run(l, s, es);
      && (forall id | id in s'.users :: LockMatchesCount(s'.users[id], l.maxAttempts))
      && (forall i | 0 <= i < |s'.told| :: 1 <= s'.told[i] <= l.maxAttempts - 1)
      && s'.compared <= s'.claims.Keys
      && s'.comparisons == |s'.compared|
      && s'.comparisons <= |s'.admissions|
  {
    RunKeepsInv(l, s, es);
    var s' := Run(l, s, es);
    Queues.SubsetSize(s'.compared, s'.claims.Keys);
    forall id | id in s'.users ensures LockMatchesCount(s'.users[id], l.maxAttempts) {
      assert CounterInv(l, s'.users[id], Epoch(s', id));
    }
  }

  /** The rate bound, resets included: among the attempts admitted for a user since
      its counter was last cleared, the n-th comes at least (n - maxAttempts)
      lockouts after the maxAttempts-th. */
  lemma RateBound(l: Limits, s: State, es: seq<Event>, user: Id, n: nat)
    requires l.maxAttempts >= 1 && Initial(s) && RunEnabled(l, s, es)
    requires l.maxAttempts <= n <= |Epoch(Run(l, s, es), user)|
    ensures var times := Epoch(Run(l, s, es), user);
      times[n - 1] >= times[l.maxAttempts - 1] + (n - l.maxAttempts) * l.lockout
  {
    RunKeepsInv(l, s, es);
    var s' := Run(l, s, es);
    assert user in s'.users;
    assert CounterInv(l, s'.users[user], Epoch(s', user));
    SpacingAddsUp(l, Epoch(s', user), n);
  }

  // --- While nobody guesses right ---

  function TimesOf(admissions: seq<Admission>, user: Id): seq<int> {
    if admissions == [] then []
    else
      var a := admissions[|admissions| - 1];
      TimesOf(admissions[..|admissions| - 1], user) + (if a.user == user then [a.at] else [])
  }

  ghost predicate NoneCorrect(es: seq<Event>) {
    forall i | 0 <= i < |es| && es[i].Compare? :: !es[i].correct
  }

  ghost predicate NoResetDue(s: State) {
    forall sid | sid in s.sessions && s.sessions[sid].phase.Judged? :: !s.sessions[sid].phase.correct
  }

  lemma TimesOfAppend(admissions: seq<Admission>, a: Admission, user: Id)
    ensures TimesOf(admissions + [a], user) == TimesOf(admissions, user) + (if a.user == user then [a.at] else [])
  {
  }

  lemma NoResetComesDue(l: Limits, s: State, e: Event)
    requires Enabled(s, e) && NoResetDue(s) && (e.Compare? ==> !e.correct)
    ensures NoResetDue(Step(l, s, e))
  {
  }

  /** Without a reset due, only an admission touches the epochs. */
  lemma EpochsOnlyGrow(l: Limits, s: State, e: Event)
    requires Enabled(s, e) && NoResetDue(s)
    ensures Step(l, s, e).admissions == s.admissions ==> Step(l, s, e).epoch == s.epoch
    ensures Step(l, s, e).admissions != s.admissions ==> e.Claiming?
    ensures Step(l, s, e).admissions != s.admissions ==>
      var user := s.sessions[e.sid].user;
      && Step(l, s, e).admissions == s.admissions + [Admission(e.sid, user, e.now)]
      && Step(l, s, e).epoch == s.epoch[user := Epoch(s, user) + [e.now]]
  {
  }

  lemma WrongStep(l: Limits, s: State, e: Event, user: Id)
    requires Enabled(s, e) && NoResetDue(s) && (e.Compare? ==> !e.correct)
    requires Epoch(s, user) == TimesOf(s.admissions, user)
    ensures NoResetDue(Step(l, s, e))
    ensures Epoch(Step(l, s, e), user) == TimesOf(Step(l, s, e).admissions, user)
  {
    var s' := Step(l, s, e);
    NoResetComesDue(l, s, e);
    EpochsOnlyGrow(l, s, e);
    if s'.admissions != s.admissions {
      TimesOfAppend(s.admissions, Admission(e.sid, s.sessions[e.sid].user, e.now), user);
    }
  }

  lemma {:induction false} WithoutCorrectGuess(l: Limits, s: State, es: seq<Event>, user: Id)
    requires RunEnabled(l, s, es) && NoneCorrect(es) && NoResetDue(s)
    requires Epoch(s, user) == TimesOf(s.admissions, user)
    ensures Epoch(Run(l, s, es), user) == TimesOf(Run(l, s, es).admissions, user)
    decreases |es|
  {
    if es != [] {
      WrongStep(l, s, es[0], user);
      assert forall i | 0 <= i < |es[1..]| :: es[1..][i] == es[i + 1];
      WithoutCorrectGuess(l, Step(l, s, es[0]), es[1..], user);
    }
  }

  /** With no right guess, the bound covers every attempt ever admitted for the
      user: by time t at most maxAttempts + (t - t0) / lockout of them, where t0 is
      the time of the maxAttempts-th. */
  lemma {:induction false} GuessingRate(l: Limits, s: State, es: seq<Event>, user: Id, n: nat)
    requires l.maxAttempts >= 1 && Initial(s) && RunEnabled(l, s, es) && NoneCorrect(es)
    requires l.maxAttempts <= n <= |TimesOf(Run(l, s, es).admissions, user)|
    ensures var times := TimesOf(Run(l, s, es).admissions, user);
      && times[n - 1] - times[l.maxAttempts - 1] >= (n - l.maxAttempts) * l.lockout
      && (l.lockout > 0 ==> n <= l.maxAttempts + (times[n - 1] - times[l.maxAttempts - 1]) / l.lockout)
  {
    WithoutCorrectGuess(l, s, es, user);
    RateBound(l, s, es, user, n);
    var times := TimesOf(Run(l, s, es).admissions, user);
    if l.lockout > 0 { AtMost(n - l.maxAttempts, l.lockout, times[n - 1] - times[l.maxAttempts - 1]); }
  }

  lemma AtMost(k: nat, lockout: nat, elapsed: int)
    requires lockout > 0 && elapsed >= k * lockout
    ensures k <= elapsed / lockout
  {
    var q := elapsed / lockout;
    assert elapsed == lockout * q + elapsed % lockout;
    Larger(q + 1, k, lockout);
  }

  lemma Larger(a: int, b: int, n: nat)
    ensures a <= b ==> a * n <= b * n
  {
  }

  // --- A session that runs alone ---

  /** The statements of one PIN session, back to back, as far as it gets. */
  function Alone(service: Service, users: Table, sid: Sid, user: Id, pin: string, readAt: int, claimAt: int)
    : seq<Event>
  {
    var start := [Begin(sid, user, Pin), Check(sid, readAt)];
    if !Live(users, user) || users[user].pinHash.None?
       || (users[user].lockedUntil.Some? && readAt < users[user].lockedUntil.value) then start
    else if !Claimable(users, user, claimAt) then start + [Claiming(sid, claimAt)]
    else
      var correct := service.matches(users[user].pinHash.value, pin);
      start + [Claiming(sid, claimAt), Compare(sid, correct), Conclude(sid)]
  }

  lemma RunOne(l: Limits, s: State, e: Event, rest: seq<Event>)
    requires Enabled(s, e) && RunEnabled(l, Step(l, s, e), rest)
    ensures RunEnabled(l, s, [e] + rest) && Run(l, s, [e] + rest) == Run(l, Step(l, s, e), rest)
  {
  }

  /** The run of these events is possible, and ends with this table and this answer. */
  ghost predicate Ends(l: Limits, s: State, es: seq<Event>, sid: Sid, users: Table, answer: Outcome) {
    RunEnabled(l, s, es) && Run(l, s, es).users == users && At(Run(l, s, es), sid, Done(Some(answer)))
  }

  lemma EndsAfter(l: Limits, s: State, e: Event, rest: seq<Event>, sid: Sid, users: Table, answer: Outcome)
    requires Enabled(s, e) && Ends(l, Step(l, s, e), rest, sid, users, answer)
    ensures Ends(l, s, [e] + rest, sid, users, answer)
  {
    RunOne(l, s, e, rest);
  }

  /** From an admitted claim to the end. */
  lemma JudgedEnds(l: Limits, s: State, sid: Sid, correct: bool)
    requires sid in s.sessions && s.sessions[sid].phase.Held? && s.sessions[sid].kind == Pin
    requires Live(s.users, s.sessions[sid].user)
    ensures var sess := s.sessions[sid];
      Ends(l, s, [Compare(sid, correct), Conclude(sid)], sid,
           if correct then s.users[sess.user := Cleared(s.users[sess.user])] else s.users,
           if correct then Verified
           else if sess.phase.lockedUntil.Some? then LockedUntil(sess.phase.lockedUntil.value)
           else Wrong(l.maxAttempts - sess.phase.attempts))
  {
    var s1 := Step(l, s, Compare(sid, correct));
    var s2 := Step(l, s1, Conclude(sid));
    RunOne(l, s1, Conclude(sid), []);
    RunOne(l, s, Compare(sid, correct), [Conclude(sid)]);
    assert [Conclude(sid)] + [] == [Conclude(sid)];
    assert [Compare(sid, correct)] + [Conclude(sid)] == [Compare(sid, correct), Conclude(sid)];
  }

  /** From the lock check to the end. */
  lemma ClaimingEnds(service: Service, l: Limits, s: State, sid: Sid, pin: string, readAt: int, claimAt: int)
    requires l == Limits(service.maxAttempts, service.lockout)
    requires At(s, sid, Checked) && s.sessions[sid].kind == Pin
    requires var user := s.sessions[sid].user;
      && Live(s.users, user) && s.users[user].pinHash.Some?
      && (s.users[user].lockedUntil == None || readAt >= s.users[user].lockedUntil.value)
    ensures var user := s.sessions[sid].user;
      Ends(l, s, Alone(service, s.users, sid, user, pin, readAt, claimAt)[2..], sid,
           service.TableAfter(s.users, user, pin, readAt, claimAt),
           service.AnswerOn(s.users, user, pin, readAt, claimAt))
  {
    var user := s.sessions[sid].user;
    var es := Alone(service, s.users, sid, user, pin, readAt, claimAt)[2..];
    var table := service.TableAfter(s.users, user, pin, readAt, claimAt);
    var answer := service.AnswerOn(s.users, user, pin, readAt, claimAt);
    var claim := Claiming(sid, claimAt);
    var s1 := Step(l, s, claim);
    if Claimable(s.users, user, claimAt) {
      var correct := service.matches(s.users[user].pinHash.value, pin);
      JudgedEnds(l, s1, sid, correct);
      assert correct ==> s1.users[user := Cleared(s1.users[user])] == table;
      EndsAfter(l, s, claim, [Compare(sid, correct), Conclude(sid)], sid, table, answer);
      assert es == [claim] + [Compare(sid, correct), Conclude(sid)];
    } else {
      assert Ends(l, s1, [], sid, table, answer);
      EndsAfter(l, s, claim, [], sid, table, answer);
      assert es == [claim] + [];
    }
  }

  /** A session that nothing comes between answers what VerifyPIN answers and leaves the
      table VerifyPIN leaves, whether it is refused, wrong or right. */
  lemma AloneIsVerifyPIN(service: Service, s: State, sid: Sid, user: Id, pin: string, readAt: int, claimAt: int)
    requires sid !in s.sessions
    ensures Ends(Limits(service.maxAttempts, service.lockout), s,
                 Alone(service, s.users, sid, user, pin, readAt, claimAt), sid,
                 service.TableAfter(s.users, user, pin, readAt, claimAt),
                 service.AnswerOn(s.users, user, pin, readAt, claimAt))
  {
    var l := Limits(service.maxAttempts, service.lockout);
    var es := Alone(service, s.users, sid, user, pin, readAt, claimAt);
    var table := service.TableAfter(s.users, user, pin, readAt, claimAt);
    var answer := service.AnswerOn(s.users, user, pin, readAt, claimAt);
    var s1 := Step(l, s, es[0]);
    var s2 := Step(l, s1, es[1]);
    if |es| == 2 {
      assert Ends(l, s2, es[2..], sid, table, answer);
    } else {
      ClaimingEnds(service, l, s2, sid, pin, readAt, claimAt);
    }
    EndsAfter(l, s1, es[1], es[2..], sid, table, answer);
    EndsAfter(l, s, es[0], [es[1]] + es[2..], sid, table, answer);
    assert es == [es[0]] + ([es[1]] + es[2..]);
  }
}
