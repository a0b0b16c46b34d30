/**
 The last decision wins: what a person asked for is what the queues then hold, and
 what the chain shows once the writer has settled.
 */
module CounterpartyDecisions {
  import opened Options
  import opened Counterparty
  import Runs = CounterpartyRuns
  import Writer = OnchainWriter

  // --- One decision ---

  /** An approval is due in the allow queue and in no other. */
  lemma ApprovalIsAllowed(a: Address, actor: string, reason: string, now: int)
    ensures var b := ApproveRow(a, actor, reason, now);
      Due(b, Allow) && !Due(b, Disallow) && !Due(b, Freeze) && Writer.Target(b) == Onchain.Approved
  {
  }

  lemma RevocationIsDisallowed(a: Address, actor: string, reason: string, now: int)
    ensures var b := RevokeRow(a, actor, reason, now);
      && Writer.Target(b) == (if a.frozenAt.Some? then Frozen else Revoked)
      && (Due(b, Disallow) <==> a.frozenAt == None && a.onchain != Revoked)
  {
  }

  lemma FreezeIsFrozen(a: Address, actor: string, reason: string, now: int)
    ensures var b := FreezeRow(a, actor, reason, now);
      Writer.Target(b) == Frozen && !Due(b, Disallow) && (Due(b, Freeze) <==> a.onchain != Frozen)
  {
  }

  // --- Any run ---

  /** What stands of the decisions taken: a freeze outlives a later revocation, and only
      an approval lifts either. */
  datatype Standing = Clear | RevokeStands | FreezeStands

  function StandingOf(a: Address): Standing {
    if a.frozenAt.Some? then FreezeStands else if a.revokedAt.Some? then RevokeStands else Clear
  }

  function AfterDecision(before: Standing, e: Runs.Event, id: Id): Standing {
    match e
    case Approve(x, _, _, _) => if x == id then Clear else before
    case Revoke(x, _, _, _) => if x == id && before == Clear then RevokeStands else before
    case Freeze(x, _, _, _) => if x == id then FreezeStands else before
    case _ => before
  }

  /** What a run's decisions on one address come to. */
  function Decided(before: Standing, es: seq<Runs.Event>, id: Id): Standing
    decreases |es|
  {
    if es == [] then before else Decided(AfterDecision(before, es[0], id), es[1..], id)
  }

  lemma StepDecides(rows: Table, e: Runs.Event, id: Id)
    requires id in rows
    ensures id in Runs.Step(rows, e)
    ensures StandingOf(Runs.Step(rows, e)[id]) == AfterDecision(StandingOf(rows[id]), e, id)
  {
  }

  /** Screenings, rejections, expiry and observations never change what stands. */
  lemma {:induction false} RunDecides(rows: Table, es: seq<Runs.Event>, id: Id)
    requires id in rows
    ensures id in Runs.Run(rows, es)
    ensures StandingOf(Runs.Run(rows, es)[id]) == Decided(StandingOf(rows[id]), es, id)
    decreases |es|
  {
    if es != [] {
      StepDecides(rows, es[0], id);
      RunDecides(Runs.Step(rows, es[0]), es[1..], id);
    }
  }

  /** Once the writer has settled after any run, the chain shows the standing freeze, or
      else the standing revocation, or else the approval if one is still waiting; an
      address nothing is asked of shows what it showed. */
  lemma SettlesAsDecided(rows: Table, es: seq<Runs.Event>, ws: seq<Writer.Write>, id: Id)
    requires id in rows && Writer.RunEnabled(Runs.Run(rows, es), ws)
    requires Writer.Settled(Writer.Run(Runs.Run(rows, es), ws))
    ensures id in Runs.Run(rows, es) && id in Writer.Run(Runs.Run(rows, es), ws)
    ensures var a, shown := Runs.Run(rows, es)[id], Writer.Run(Runs.Run(rows, es), ws)[id].onchain;
      match Decided(StandingOf(rows[id]), es, id)
      case FreezeStands => shown == Frozen
      case RevokeStands => shown == Revoked
      case Clear =>
        shown == if a.status == Status.Approved && a.onchain == Onchain.Pending then Onchain.Approved else a.onchain
  {
    RunDecides(rows, es, id);
    Writer.RunShrinks(Runs.Run(rows, es), ws);
    Writer.SettledExactly(Writer.Run(Runs.Run(rows, es), ws)[id]);
  }

  lemma {:induction false} RunThen(rows: Table, es: seq<Runs.Event>, e: Runs.Event)
    ensures Runs.Run(rows, es + [e]) == Runs.Step(Runs.Run(rows, es), e)
    decreases |es|
  {
    if es == [] {
      assert es + [e] == [e];
    } else {
      RunThen(Runs.Step(rows, es[0]), es[1..], e);
      assert (es + [e])[1..] == es[1..] + [e];
    }
  }

  /** Whatever came before, an approval that comes last is what the chain then shows. */
  lemma LastApprovalShows(rows: Table, es: seq<Runs.Event>, e: Runs.Event, ws: seq<Writer.Write>)
    requires e.Approve? && e.id in rows && Writer.RunEnabled(Runs.Run(rows, es + [e]), ws)
    requires Writer.Settled(Writer.Run(Runs.Run(rows, es + [e]), ws))
    ensures e.id in Writer.Run(Runs.Run(rows, es + [e]), ws)
    ensures Writer.Run(Runs.Run(rows, es + [e]), ws)[e.id].onchain == Onchain.Approved
  {
    RunDecides(rows, es, e.id);
    RunThen(rows, es, e);
    ApprovalIsAllowed(Runs.Run(rows, es)[e.id], e.actor, e.reason, e.now);
    Writer.RunShrinks(Runs.Run(rows, es + [e]), ws);
    Writer.SettledExactly(Writer.Run(Runs.Run(rows, es + [e]), ws)[e.id]);
  }

  /** The run holds no approval of `id` and no screening that sets its status. */
  predicate LeavesRejection(es: seq<Runs.Event>, id: Id) {
    forall i | 0 <= i < |es| ::
      !(es[i].Approve? && es[i].id == id) && !(es[i].Screen? && es[i].id == id && es[i].status.Some?)
  }

  /** A rejected address is not allowed again until it is approved or screened anew. */
  lemma {:induction false} RejectionStands(rows: Table, es: seq<Runs.Event>, id: Id)
    requires id in rows && rows[id].status == Rejected && LeavesRejection(es, id)
    ensures id in Runs.Run(rows, es) && !Due(Runs.Run(rows, es)[id], Allow)
    decreases |es|
  {
    if es != [] {
      var rows' := Runs.Step(rows, es[0]);
      assert !(es[0].Approve? && es[0].id == id) && !(es[0].Screen? && es[0].id == id && es[0].status.Some?);
      assert rows'[id].status == Rejected;
      assert forall i | 0 <= i < |es[1..]| :: es[1..][i] == es[i + 1];
      RejectionStands(rows', es[1..], id);
    }
  }
}
