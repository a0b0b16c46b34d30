/**
 Folding several providers' screenings into the strictest one
 (pkg/compliance/combine.go).
 */
module Verdicts {
  import opened Options

  /** Verdicts are strings in the program; `Other` is any string it does not name. */
  datatype Verdict = Approved | Unscreenable | Pending | Review | Rejected | Other(text: string)

  datatype RuleHit = RuleHit(name: string, kind: string, sanctioned: bool)

  datatype Screening = Screening(
    provider: string,
    address: string,
    txHash: string,
    verdict: Verdict,
    riskScore: Option<real>,
    sanctioned: bool,
    rules: seq<RuleHit>,
    parts: seq<Screening>)

  datatype Answer = Ok(screening: Screening) | Failed(error: string)

  function Rank(v: Verdict): nat {
    match v
    case Approved => 0
    case Unscreenable => 1
    case Pending => 2
    case Review => 3
    case Rejected => 4
    case Other(_) => 2
  }

  function Stricter(a: Verdict, b: Verdict): Verdict {
    if Rank(b) > Rank(a) then b else a
  }

  // --- What a merge returns ---

  /** The left fold of the verdicts, from approved. */
  function Strictest(vs: seq<Verdict>): Verdict {
    if vs == [] then Approved else Stricter(Strictest(vs[..|vs| - 1]), vs[|vs| - 1])
  }

  function VerdictsOf(parts: seq<Screening>): seq<Verdict> {
    seq(|parts|, i requires 0 <= i < |parts| => parts[i].verdict)
  }

  function RulesOf(parts: seq<Screening>): seq<RuleHit> {
    if parts == [] then [] else RulesOf(parts[..|parts| - 1]) + parts[|parts| - 1].rules
  }

  function NamesOf(parts: seq<Screening>): seq<string> {
    seq(|parts|, i requires 0 <= i < |parts| => parts[i].provider)
  }

  /** strings.Join. */
  function Join(names: seq<string>, separator: string): string {
    if names == [] then ""
    else if |names| == 1 then names[0]
    else Join(names[..|names| - 1], separator) + separator + names[|names| - 1]
  }

  predicate AnySanctioned(parts: seq<Screening>) { exists i | 0 <= i < |parts| :: parts[i].sanctioned }

  function Merged(parts: seq<Screening>, address: string, txHash: string): Screening {
    Screening(Join(NamesOf(parts), "+"), address, txHash, Strictest(VerdictsOf(parts)), None, AnySanctioned(parts),
              RulesOf(parts), parts)
  }

  /** A provider that does not name itself gets its configured name. */
  function WithName(s: Screening, name: string): Screening {
    if s.provider == "" then s.(provider := name) else s
  }

  /** The slot holds the provider's answer, under its name. */
  predicate Filed(slot: Option<Screening>, answer: Answer, name: string) {
    answer.Ok? && slot == Some(WithName(answer.screening, name))
  }

  /** The order in which the goroutines finish: each exactly once. */
  ghost predicate IsSchedule(schedule: seq<nat>, n: nat) {
    && |schedule| == n
    && (forall k | 0 <= k < n :: schedule[k] < n)
    && (forall i | 0 <= i < n :: i in schedule)
    && (forall k, l | 0 <= k < l < n :: schedule[k] != schedule[l])
  }

  ghost predicate AllOk(answers: seq<Answer>) { forall i | 0 <= i < |answers| :: answers[i].Ok? }

  /** The parallel half: every goroutine files its part or the first error. */
  method Gather(providers: seq<string>, answers: seq<Answer>, schedule: seq<nat>)
    returns (failure: Option<string>, parts: array<Option<Screening>>)
    requires |answers| == |providers| && IsSchedule(schedule, |providers|)
    ensures fresh(parts) && parts.Length == |providers|
    ensures failure.None? ==> forall i | 0 <= i < |providers| :: Filed(parts[i], answers[i], providers[i])
    ensures failure.Some? ==> exists k | 0 <= k < |schedule| ::
      answers[schedule[k]] == Failed(failure.value) && forall l | 0 <= l < k :: answers[schedule[l]].Ok?
  {
    var n := |providers|;
    parts := new Option<Screening>[n](_ => None);
    failure := None;
    ghost var first := 0;
    for k := 0 to n
      invariant failure.None? ==>
        forall l | 0 <= l < k :: Filed(parts[schedule[l]], answers[schedule[l]], providers[schedule[l]])
      invariant failure.Some? ==> 0 <= first < k && answers[schedule[first]] == Failed(failure.value)
      invariant failure.Some? ==> forall l | 0 <= l < first :: answers[schedule[l]].Ok?
    {
      var i := schedule[k];
      if answers[i].Failed? {
        if failure.None? {
          failure := Some(answers[i].error);
          first := k;
        }
      } else {
        var s := answers[i].screening;
        if s.provider == "" {
          s := s.(provider := providers[i]);
        }
        parts[i] := Some(s);
      }
    }
    if failure.None? {
      forall i | 0 <= i < n ensures Filed(parts[i], answers[i], providers[i]) {
        assert i in schedule;
        var k :| 0 <= k < n && schedule[k] == i;
      }
    }
  }

  lemma AppendPart(done: seq<Screening>, s: Screening)
    ensures Strictest(VerdictsOf(done + [s])) == Stricter(Strictest(VerdictsOf(done)), s.verdict)
    ensures AnySanctioned(done + [s]) == (AnySanctioned(done) || s.sanctioned)
    ensures RulesOf(done + [s]) == RulesOf(done) + s.rules
    ensures NamesOf(done + [s]) == NamesOf(done) + [s.provider]
  {
    var n := |done|;
    assert (done + [s])[..n] == done && (done + [s])[n] == s;
    assert VerdictsOf(done + [s])[..n] == VerdictsOf(done);
    if AnySanctioned(done) {
      var i :| 0 <= i < n && done[i].sanctioned;
      assert (done + [s])[i].sanctioned;
    }
  }

  /** Whatever the completion schedule: any failure fails the merge, with the error
      that came first; otherwise the result depends on the answers alone. Answers
      after the first failure may be cancellations and are never looked at. */
  method Merge(providers: seq<string>, address: string, txHash: string, answers: seq<Answer>, schedule: seq<nat>)
    returns (r: Answer)
    requires |answers| == |providers| && IsSchedule(schedule, |providers|)
    ensures r.Ok? <==> AllOk(answers)
    ensures r.Ok? ==> r.screening == Merged(r.screening.parts, address, txHash)
    ensures r.Ok? ==> |r.screening.parts| == |answers|
    ensures r.Ok? ==> forall i | 0 <= i < |answers| :: Filed(Some(r.screening.parts[i]), answers[i], providers[i])
    ensures r.Ok? ==> forall i | 0 <= i < |answers| ::
      var (part, s) := (r.screening.parts[i], answers[i].screening);
      part == s.(provider := if s.provider == "" then providers[i] else s.provider)
    ensures r.Failed? ==> exists k | 0 <= k < |schedule| ::
      r == answers[schedule[k]] && forall l | 0 <= l < k :: answers[schedule[l]].Ok?
  {
    var failure, parts := Gather(providers, answers, schedule);
    if failure.Some? {
      return Failed(failure.value);
    }
    var filed := parts[..];
    assert forall i | 0 <= i < |answers| :: Filed(filed[i], answers[i], providers[i]);
    var verdict, sanctioned := Approved, false;
    var names: seq<string>, rules: seq<RuleHit>, done: seq<Screening> := [], [], [];
    for i := 0 to |providers|
      invariant |done| == i && forall j | 0 <= j < i :: filed[j] == Some(done[j])
      invariant verdict == Strictest(VerdictsOf(done)) && sanctioned == AnySanctioned(done)
      invariant names == NamesOf(done) && rules == RulesOf(done)
    {
      assert Filed(filed[i], answers[i], providers[i]);
      var s := filed[i].value;
      AppendPart(done, s);
      names := names + [s.provider];
      verdict := Stricter(verdict, s.verdict);
      sanctioned := sanctioned || s.sanctioned;
      rules := rules + s.rules;
      done := done + [s];
    }
    r := Ok(Screening(Join(names, "+"), address, txHash, verdict, None, sanctioned, rules, done));
  }

  // --- What the strictest verdict is ---

  /** The first verdict of the highest rank; approved when nothing outranks it. */
  ghost predicate IsFirstHighest(vs: seq<Verdict>, v: Verdict) {
    && (forall j | 0 <= j < |vs| :: Rank(vs[j]) <= Rank(v))
    && (v == Approved || exists i | 0 <= i < |vs| :: vs[i] == v && forall j | 0 <= j < i :: Rank(vs[j]) < Rank(v))
  }

  lemma {:induction false} StrictestIsFirstHighest(vs: seq<Verdict>)
    ensures IsFirstHighest(vs, Strictest(vs))
  {
    if vs != [] {
      var n := |vs| - 1;
      var before := Strictest(vs[..n]);
      StrictestIsFirstHighest(vs[..n]);
      if Rank(vs[n]) > Rank(before) {
        assert forall j | 0 <= j < n :: vs[j] == vs[..n][j];
      } else if before != Approved {
        var i :| 0 <= i < n && vs[..n][i] == before && forall j | 0 <= j < i :: Rank(vs[..n][j]) < Rank(before);
        assert vs[i] == before && forall j | 0 <= j < i :: vs[..n][j] == vs[j];
      }
    }
  }

  lemma FirstHighestIsStrictest(vs: seq<Verdict>, v: Verdict)
    requires IsFirstHighest(vs, v)
    ensures Strictest(vs) == v
  {
    StrictestIsFirstHighest(vs);
  }

  /** The rank of the whole is the highest rank of the parts. */
  lemma {:induction false} StrictestRank(vs: seq<Verdict>, bound: nat)
    ensures Rank(Strictest(vs)) <= bound <==> forall i | 0 <= i < |vs| :: Rank(vs[i]) <= bound
  {
    StrictestIsFirstHighest(vs);
  }

  /** Nothing is approved on a partial approval. */
  lemma ApprovedExactly(vs: seq<Verdict>)
    ensures Strictest(vs) == Approved <==> forall v | v in vs :: v == Approved
  {
    StrictestRank(vs, 0);
    if Strictest(vs) == Approved {
      forall v | v in vs ensures v == Approved {
        var i :| 0 <= i < |vs| && vs[i] == v;
        assert Rank(vs[i]) <= 0;
      }
    } else {
      var i :| 0 <= i < |vs| && Rank(vs[i]) > 0;
      assert vs[i] in vs;
    }
  }

  /** The order of strictness by name: a rejection beats everything, then a review; short
      of those an unfinished or unnamed verdict beats an unscreenable, which beats
      approvals only. */
  lemma StrictestByName(vs: seq<Verdict>)
    ensures Strictest(vs) == Rejected <==> Rejected in vs
    ensures Strictest(vs) == Review <==> Review in vs && Rejected !in vs
    ensures Strictest(vs) == Unscreenable <==>
      Unscreenable in vs && forall v | v in vs :: v == Unscreenable || v == Approved
    ensures (Strictest(vs) == Pending || Strictest(vs).Other?) <==>
      Rejected !in vs && Review !in vs && exists v | v in vs :: v == Pending || v.Other?
  {
    StrictestIsMember(vs);
    ApprovedExactly(vs);
  }

  lemma SameMembers(vs: seq<Verdict>, ws: seq<Verdict>)
    requires multiset(vs) == multiset(ws)
    ensures forall v :: v in vs <==> v in ws
  {
    assert forall v :: v in vs <==> v in multiset(vs);
    assert forall v :: v in ws <==> v in multiset(ws);
  }

  /** The order in which providers are configured never changes the rank. */
  lemma RankInAnyOrder(vs: seq<Verdict>, ws: seq<Verdict>)
    requires multiset(vs) == multiset(ws)
    ensures Rank(Strictest(vs)) == Rank(Strictest(ws))
  {
    SameMembers(vs, ws);
    StrictestRank(vs, Rank(Strictest(ws)));
    StrictestRank(ws, Rank(Strictest(vs)));
    StrictestRank(vs, Rank(Strictest(vs)));
    StrictestRank(ws, Rank(Strictest(ws)));
    assert forall i | 0 <= i < |vs| :: vs[i] in ws;
    assert forall i | 0 <= i < |ws| :: ws[i] in vs;
  }

  /** Two different verdicts share the top: only an unnamed one beside another of
      its rank can. */
  predicate TopTied(vs: seq<Verdict>) {
    && (forall v | v in vs :: Rank(v) <= 2)
    && exists v, w | v in vs && w in vs :: v != w && Rank(v) == 2 && Rank(w) == 2
  }

  lemma MoveToFront(vs: seq<Verdict>, v: Verdict) returns (ws: seq<Verdict>)
    requires v in vs && Rank(v) > 0 && forall w | w in vs :: Rank(w) <= Rank(v)
    ensures multiset(ws) == multiset(vs) && Strictest(ws) == v
  {
    var k :| 0 <= k < |vs| && vs[k] == v;
    ws := [v] + vs[..k] + vs[k + 1..];
    assert vs == vs[..k] + [v] + vs[k + 1..];
    SameMembers(vs, ws);
    assert ws[0] == v;
    forall j | 0 <= j < |ws| ensures Rank(ws[j]) <= Rank(v) { assert ws[j] in ws; }
    FirstHighestIsStrictest(ws, v);
  }

  /** The verdict itself can depend on the order exactly when the top is tied. */
  lemma VerdictInAnyOrder(vs: seq<Verdict>)
    ensures (forall ws | multiset(ws) == multiset(vs) :: Strictest(ws) == Strictest(vs)) <==> !TopTied(vs)
  {
    if TopTied(vs) {
      var v, w :| v in vs && w in vs && v != w && Rank(v) == 2 && Rank(w) == 2;
      var vFirst := MoveToFront(vs, v);
      var wFirst := MoveToFront(vs, w);
      assert Strictest(vFirst) != Strictest(wFirst);
    } else {
      forall ws | multiset(ws) == multiset(vs) ensures Strictest(ws) == Strictest(vs) {
        UntiedKeepsVerdict(vs, ws);
      }
    }
  }

  lemma {:induction false} StrictestIsMember(vs: seq<Verdict>)
    ensures Strictest(vs) == Approved || Strictest(vs) in vs
    ensures forall v | v in vs :: Rank(v) <= Rank(Strictest(vs))
  {
    StrictestIsFirstHighest(vs);
  }

  lemma UntiedKeepsVerdict(vs: seq<Verdict>, ws: seq<Verdict>)
    requires multiset(ws) == multiset(vs) && !TopTied(vs)
    ensures Strictest(ws) == Strictest(vs)
  {
    RankInAnyOrder(vs, ws);
    SameMembers(vs, ws);
    StrictestIsMember(vs);
    StrictestIsMember(ws);
  }

  lemma {:induction false} Monotone(vs: seq<Verdict>, ws: seq<Verdict>)
    requires |vs| == |ws| && forall i | 0 <= i < |vs| :: Rank(vs[i]) <= Rank(ws[i])
    ensures Rank(Strictest(vs)) <= Rank(Strictest(ws))
  {
    StrictestRank(ws, Rank(Strictest(ws)));
    StrictestRank(vs, Rank(Strictest(ws)));
  }

  /** No rule is lost or moved: the rules of a list of parts are those of its halves. */
  lemma {:induction false} RulesOfBoth(a: seq<Screening>, b: seq<Screening>)
    ensures RulesOf(a + b) == RulesOf(a) + RulesOf(b)
    decreases |b|
  {
    if b == [] {
      assert a + b == a;
    } else {
      var n := |b| - 1;
      RulesOfBoth(a, b[..n]);
      assert (a + b)[..|a| + n] == a + b[..n] && (a + b)[|a| + n] == b[n];
    }
  }

  /** And each part's own rules stand where it does. */
  lemma RulesOfPart(parts: seq<Screening>, i: nat)
    requires i < |parts|
    ensures RulesOf(parts) == RulesOf(parts[..i]) + parts[i].rules + RulesOf(parts[i + 1..])
  {
    var (front, back) := (parts[..i + 1], parts[i + 1..]);
    assert front[..i] == parts[..i] && front[i] == parts[i];
    assert parts == front + back;
    RulesOfBoth(front, back);
  }

  /** Names are joined in order with one separator between two. */
  lemma {:induction false} JoinBoth(a: seq<string>, b: seq<string>, separator: string)
    requires a != [] && b != []
    ensures Join(a + b, separator) == Join(a, separator) + separator + Join(b, separator)
    decreases |b|
  {
    var n := |b| - 1;
    assert (a + b)[..|a| + n] == a + b[..n] && (a + b)[|a| + n] == b[n];
    if n == 0 {
      assert a + b[..0] == a;
    } else {
      JoinBoth(a, b[..n], separator);
    }
  }

  /** Returning a lone provider unwrapped loses nothing that decides: the merge of
      one has its verdict, its sanctions flag, its rules and its name. */
  lemma LoneProviderUnwrapped(s: Screening, address: string, txHash: string)
    ensures var m := Merged([s], address, txHash);
      m.verdict == s.verdict && m.sanctioned == s.sanctioned && m.rules == s.rules && m.provider == s.provider
  {
    assert VerdictsOf([s]) == [s.verdict] && NamesOf([s]) == [s.provider];
    assert [s.verdict][..0] == [];
    assert [s][..0] == [];
    assert Strictest([s.verdict]) == Stricter(Strictest([]), s.verdict);
    assert RulesOf([s]) == RulesOf([]) + s.rules;
    assert [s][0].sanctioned == s.sanctioned;
  }
}
