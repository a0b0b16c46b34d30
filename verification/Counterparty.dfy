/**
 Counterparty addresses: what people and screenings intend, what the chain was
 last seen to hold, and the queues between the two
 (pkg/repository/counterparty_repository.go).
 */
module Counterparty {
  import opened Options
  import opened Queues

  type Id = string

  datatype Status = Pending | Approved | Rejected | Review | Unscreenable | Expired

  /** onchain_state. */
  datatype Onchain = Absent | Pending | Approved | Revoked | Frozen

  datatype Address = Address(
    account: string,
    status: Status,
    onchain: Onchain,
    expiresAt: Option<int>,
    approvedBy: Option<string>,
    approvedAt: Option<int>,
    revokedBy: Option<string>,
    revokedAt: Option<int>,
    frozenBy: Option<string>,
    frozenAt: Option<int>,
    reason: Option<string>,
    createdAt: int)

  type Table = map<Id, Address>

  // --- What each statement writes ---

  function ApproveRow(a: Address, actor: string, reason: string, now: int): Address {
    a.(status := Status.Approved, onchain := Onchain.Pending,
       approvedBy := Some(actor), approvedAt := Some(now),
       revokedBy := None, revokedAt := None, frozenBy := None, frozenAt := None,
       reason := Some(reason))
  }

  function RejectRow(a: Address, reason: string): Address {
    a.(status := Rejected, reason := Some(reason))
  }

  function RevokeRow(a: Address, actor: string, reason: string, now: int): Address {
    a.(revokedBy := Some(actor), revokedAt := Some(now), reason := Some(reason))
  }

  function Coalesce<T>(x: Option<T>, y: T): Option<T> { if x.Some? then x else Some(y) }

  function FreezeRow(a: Address, actor: string, reason: string, now: int): Address {
    a.(frozenBy := Some(actor), frozenAt := Some(now),
       revokedBy := Coalesce(a.revokedBy, actor), revokedAt := Coalesce(a.revokedAt, now),
       reason := Some(reason))
  }

  function ScreenRow(a: Address, status: Option<Status>, onchain: Option<Onchain>, expiresAt: Option<int>): Address {
    var b := if status.Some? then a.(status := status.value, expiresAt := expiresAt) else a;
    if onchain.Some? then b.(onchain := onchain.value) else b
  }

  predicate Lapsed(a: Address, now: int) {
    a.status == Status.Approved && a.expiresAt.Some? && a.expiresAt.value < now
  }

  function ExpireRow(a: Address, now: int): Address { if Lapsed(a, now) then a.(status := Expired) else a }

  // --- The on-chain writer's queues ---

  datatype Op = Allow | Disallow | Freeze

  predicate Due(a: Address, op: Op) {
    match op
    case Allow => a.status == Status.Approved && a.onchain == Onchain.Pending
    case Disallow => a.revokedAt.Some? && a.frozenAt == None && a.onchain != Revoked
    case Freeze => a.frozenAt.Some? && a.onchain != Frozen
  }

  /** The state the writer records once the chain has confirmed `op`. */
  function Confirmed(op: Op): Onchain {
    match op
    case Allow => Onchain.Approved
    case Disallow => Revoked
    case Freeze => Frozen
  }

  /** The column each queue is ordered by. */
  function QueueKey(a: Address, op: Op): Option<int> {
    match op
    case Allow => Some(a.createdAt)
    case Disallow => a.revokedAt
    case Freeze => a.frozenAt
  }

  /** What a queue query may return. */
  ghost predicate IsWriterBatch(rows: Table, op: Op, limit: nat, ids: seq<Id>) {
    IsBatch(rows, (a: Address) => Due(a, op), (a: Address) => QueueKey(a, op), limit, ids)
  }

  datatype Result = Ok | NotFound

  class CounterpartyRepository {
    var rows: Table

    constructor (rows: Table)
      ensures this.rows == rows
    {
      this.rows := rows;
    }

    method ApproveAddress(id: Id, actor: string, reason: string, now: int) returns (r: Result)
      modifies this
      ensures r == if id in old(rows) then Ok else NotFound
      ensures rows == if r == Ok then old(rows)[id := ApproveRow(old(rows)[id], actor, reason, now)] else old(rows)
      ensures r == Ok ==> var a := rows[id];
        && a.status == Status.Approved && a.onchain == Onchain.Pending
        && a.approvedBy == Some(actor) && a.approvedAt == Some(now) && a.reason == Some(reason)
        && a.revokedBy == None && a.revokedAt == None && a.frozenBy == None && a.frozenAt == None
      ensures r == Ok ==> var (a, b) := (rows[id], old(rows)[id]);
        a.account == b.account && a.expiresAt == b.expiresAt && a.createdAt == b.createdAt
    {
      if id !in rows { return NotFound; }
      rows := rows[id := rows[id].(
        status := Status.Approved, onchain := Onchain.Pending,
        approvedBy := Some(actor), approvedAt := Some(now),
        revokedBy := None, revokedAt := None, frozenBy := None, frozenAt := None,
        reason := Some(reason))];
      r := Ok;
    }

    method RejectAddress(id: Id, reason: string) returns (r: Result)
      modifies this
      ensures r == if id in old(rows) then Ok else NotFound
      ensures rows == if r == Ok then old(rows)[id := RejectRow(old(rows)[id], reason)] else old(rows)
      ensures r == Ok ==> rows[id] == old(rows)[id].(status := Rejected, reason := Some(reason))
    {
      if id !in rows { return NotFound; }
      rows := rows[id := rows[id].(status := Rejected, reason := Some(reason))];
      r := Ok;
    }

    method RevokeAddress(id: Id, actor: string, reason: string, now: int) returns (r: Result)
      modifies this
      ensures r == if id in old(rows) then Ok else NotFound
      ensures rows == if r == Ok then old(rows)[id := RevokeRow(old(rows)[id], actor, reason, now)] else old(rows)
      ensures r == Ok ==>
        rows[id] == old(rows)[id].(revokedBy := Some(actor), revokedAt := Some(now), reason := Some(reason))
    {
      if id !in rows { return NotFound; }
      rows := rows[id := rows[id].(revokedBy := Some(actor), revokedAt := Some(now), reason := Some(reason))];
      r := Ok;
    }

    method FreezeAddress(id: Id, actor: string, reason: string, now: int) returns (r: Result)
      modifies this
      ensures r == if id in old(rows) then Ok else NotFound
      ensures rows == if r == Ok then old(rows)[id := FreezeRow(old(rows)[id], actor, reason, now)] else old(rows)
      ensures r == Ok ==> var (a, b) := (rows[id], old(rows)[id]);
        && a.frozenBy == Some(actor) && a.frozenAt == Some(now) && a.reason == Some(reason)
        && a.revokedBy == (if b.revokedBy.Some? then b.revokedBy else Some(actor))
        && a.revokedAt == (if b.revokedAt.Some? then b.revokedAt else Some(now))
        && a == b.(frozenBy := a.frozenBy, frozenAt := a.frozenAt, revokedBy := a.revokedBy,
                   revokedAt := a.revokedAt, reason := a.reason)
    {
      if id !in rows { return NotFound; }
      var a := rows[id];
      rows := rows[id := a.(
        frozenBy := Some(actor), frozenAt := Some(now),
        revokedBy := if a.revokedBy.Some? then a.revokedBy else Some(actor),
        revokedAt := if a.revokedAt.Some? then a.revokedAt else Some(now),
        reason := Some(reason))];
      r := Ok;
    }

    method SetOnchainState(id: Id, state: Onchain) returns (r: Result)
      modifies this
      ensures r == if id in old(rows) then Ok else NotFound
      ensures rows == if r == Ok then old(rows)[id := old(rows)[id].(onchain := state)] else old(rows)
    {
      if id !in rows { return NotFound; }
      rows := rows[id := rows[id].(onchain := state)];
      r := Ok;
    }

    /** The address half of the screening transaction; a missing address rolls it back. */
    method RecordScreening(id: Id, status: Option<Status>, onchain: Option<Onchain>, expiresAt: Option<int>)
      returns (r: Result)
      modifies this
      ensures r == if id in old(rows) then Ok else NotFound
      ensures rows == if r == NotFound then old(rows)
        else old(rows)[id := ScreenRow(old(rows)[id], status, onchain, expiresAt)]
      ensures r == Ok ==> var (a, b) := (rows[id], old(rows)[id]);
        && a.status == (if status.Some? then status.value else b.status)
        && a.expiresAt == (if status.Some? then expiresAt else b.expiresAt)
        && a.onchain == (if onchain.Some? then onchain.value else b.onchain)
        && a == b.(status := a.status, expiresAt := a.expiresAt, onchain := a.onchain)
    {
      if id !in rows { return NotFound; }
      var a := rows[id];
      if status.Some? {
        a := a.(status := status.value, expiresAt := expiresAt);
      }
      if onchain.Some? {
        a := a.(onchain := onchain.value);
      }
      rows := rows[id := a];
      r := Ok;
    }

    method MarkExpiredAddresses(now: int) returns (touched: nat)
      modifies this
      ensures rows.Keys == old(rows).Keys
      ensures forall id | id in rows :: rows[id] == ExpireRow(old(rows)[id], now)
      ensures forall id | id in rows :: var a := old(rows)[id];
        rows[id] == if a.status == Status.Approved && a.expiresAt.Some? && a.expiresAt.value < now
                    then a.(status := Expired) else a
      ensures touched == |set id | id in old(rows) && Lapsed(old(rows)[id], now)|
    {
      touched := |set id | id in rows && Lapsed(rows[id], now)|;
      rows := map id | id in rows :: ExpireRow(rows[id], now);
    }

    /** ListAddressesNeedingOnchainAllow, -Revoke and -Freeze. */
    method ListNeeding(op: Op, limit: nat) returns (ids: seq<Id>)
      ensures IsWriterBatch(rows, op, limit, ids)
      ensures forall i, j | 0 <= i < j < |ids| :: var (a, b) := (rows[ids[i]], rows[ids[j]]);
        match op
        case Allow => a.createdAt <= b.createdAt
        case Disallow => NoLater(a.revokedAt, b.revokedAt)
        case Freeze => NoLater(a.frozenAt, b.frozenAt)
    {
      ids := Select(rows, (a: Address) => Due(a, op), (a: Address) => QueueKey(a, op), limit);
    }
  }
}
