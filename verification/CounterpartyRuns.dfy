/**
 Whole runs over counterparty addresses: submissions, human decisions,
 screenings, expiry and on-chain observations, in any order.
 */
module CounterpartyRuns {
  import opened Options
  import opened Counterparty

  datatype Event =
    | Submit(id: Id, account: string, now: int)
    | Approve(id: Id, actor: string, reason: string, now: int)
    | Reject(id: Id, reason: string)
    | Revoke(id: Id, actor: string, reason: string, now: int)
    | Freeze(id: Id, actor: string, reason: string, now: int)
    | Screen(id: Id, status: Option<Status>, onchain: Option<Onchain>, expiresAt: Option<int>)
    | Expire(now: int)
    | Observe(id: Id, state: Onchain)

  function NewRow(account: string, now: int): Address {
    Address(account, Status.Pending, Absent, None, None, None, None, None, None, None, None, now)
  }

  /** A statement whose WHERE clause matches nothing changes nothing. */
  function RowAfter(a: Address, e: Event): Address {
    match e
    case Submit(_, _, _) => a
    case Approve(_, actor, reason, now) => ApproveRow(a, actor, reason, now)
    case Reject(_, reason) => RejectRow(a, reason)
    case Revoke(_, actor, reason, now) => RevokeRow(a, actor, reason, now)
    case Freeze(_, actor, reason, now) => FreezeRow(a, actor, reason, now)
    case Screen(_, status, onchain, expiresAt) => ScreenRow(a, status, onchain, expiresAt)
    case Expire(now) => ExpireRow(a, now)
    case Observe(_, state) => a.(onchain := state)
  }

  predicate Touches(e: Event, id: Id) { e.Expire? || e.id == id }

  ghost function Step(rows: Table, e: Event): Table {
    var touched := map id | id in rows :: if Touches(e, id) then RowAfter(rows[id], e) else rows[id];
    if e.Submit? && e.id !in rows && (forall id | id in rows :: rows[id].account != e.account)
    then touched[e.id := NewRow(e.account, e.now)]
    else touched
  }

  ghost function Run(rows: Table, es: seq<Event>): Table
    decreases |es|
  {
    if es == [] then rows else Run(Step(rows, es[0]), es[1..])
  }

  /** Stamps come in pairs, and a freeze intent has a revocation beside it. */
  predicate IntentInv(a: Address) {
    && (a.revokedBy.Some? <==> a.revokedAt.Some?)
    && (a.frozenBy.Some? <==> a.frozenAt.Some?)
    && (a.frozenAt.Some? ==> a.revokedAt.Some?)
  }

  /** Over every run, each freeze intent has a revocation beside it, and the freeze
      and revocation queues never share an address. */
  lemma {:induction false} IntentsKept(rows: Table, es: seq<Event>)
    requires forall id | id in rows :: IntentInv(rows[id])
    ensures forall id | id in Run(rows, es) :: IntentInv(Run(rows, es)[id])
    ensures forall id | id in Run(rows, es) ::
      !(Due(Run(rows, es)[id], Op.Freeze) && Due(Run(rows, es)[id], Disallow))
    decreases |es|
  {
    if es != [] {
      var rows' := Step(rows, es[0]);
      forall id | id in rows' ensures IntentInv(rows'[id]) {
        if id in rows { assert IntentInv(rows[id]); }
      }
      IntentsKept(rows', es[1..]);
    }
  }

  /** The run holds no approval and no fresh revocation of `id`. */
  predicate LeavesRevocation(es: seq<Event>, id: Id) {
    forall i | 0 <= i < |es| :: !((es[i].Approve? || es[i].Revoke?) && es[i].id == id)
  }

  /** A standing revocation keeps its actor and time through any number of
      freezes, rejections, screenings, expiries and observations. */
  lemma {:induction false} RevocationStands(rows: Table, es: seq<Event>, id: Id)
    requires id in rows && IntentInv(rows[id]) && rows[id].revokedAt.Some?
    requires LeavesRevocation(es, id)
    ensures id in Run(rows, es)
    ensures Run(rows, es)[id].revokedBy == rows[id].revokedBy
    ensures Run(rows, es)[id].revokedAt == rows[id].revokedAt
    decreases |es|
  {
    if es != [] {
      var rows' := Step(rows, es[0]);
      assert !((es[0].Approve? || es[0].Revoke?) && es[0].id == id);
      assert rows'[id].revokedBy == rows[id].revokedBy && rows'[id].revokedAt == rows[id].revokedAt;
      assert IntentInv(rows'[id]);
      assert forall i | 0 <= i < |es[1..]| :: es[1..][i] == es[i + 1];
      RevocationStands(rows', es[1..], id);
    }
  }

  /** Of several freezes with no revocation before them, the first one's actor and
      time stay on as the revocation's. */
  lemma FirstFreezeRevokes(rows: Table, freeze: Event, es: seq<Event>, id: Id)
    requires id in rows && IntentInv(rows[id]) && rows[id].revokedAt == None
    requires freeze.Freeze? && freeze.id == id && LeavesRevocation(es, id)
    ensures id in Run(rows, [freeze] + es)
    ensures var a := Run(rows, [freeze] + es)[id];
      a.revokedBy == Some(freeze.actor) && a.revokedAt == Some(freeze.now)
  {
    var rows' := Step(rows, freeze);
    assert ([freeze] + es)[1..] == es;
    RevocationStands(rows', es, id);
  }
}
