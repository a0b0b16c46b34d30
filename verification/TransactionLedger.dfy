/**
 The transaction ledger: status changes checked by the service, partial writes
 by the repository (pkg/transaction/transaction_service.go, pkg/transaction/dto.go,
 pkg/repository/transaction_repository.go).
 */
module TransactionLedger {
  import opened Options

  datatype Status = Pending | Submitted | Success | Failed | Cancelled | Unknown(text: string)

  /** The columns nothing here writes after creation. */
  datatype Terms = Terms(
    userId: Option<string>, accountId: Option<string>, loanId: Option<string>,
    txType: string, amount: int, asset: string,
    contractId: Option<string>, contractFunction: Option<string>)

  datatype Row = Row(
    terms: Terms,
    stellarTxHash: Option<string>,
    stellarLedger: Option<int>,
    externalId: Option<string>,
    externalProvider: Option<string>,
    externalStatus: Option<string>,
    description: Option<string>,
    metadata: Option<string>,
    status: Status)

  type Id = string
  type Table = map<Id, Row>

  datatype Column =
    | StellarTxHash | StellarLedger | ExternalId | ExternalProvider | ExternalStatus | StatusColumn
    | Description | Metadata | OtherColumn(name: string)

  datatype Value = Text(text: Option<string>) | Number(number: Option<int>) | StatusValue(status: Status)

  datatype CreateRequest = CreateRequest(
    terms: Terms, stellarTxHash: Option<string>, stellarLedger: Option<int>, externalId: Option<string>,
    externalProvider: Option<string>, description: Option<string>, metadata: Option<string>)

  datatype UpdateRequest = UpdateRequest(
    stellarTxHash: Option<string>, stellarLedger: Option<int>, externalId: Option<string>,
    externalProvider: Option<string>, externalStatus: Option<string>, status: Option<Status>,
    description: Option<string>, metadata: Option<string>)

  datatype Error =
    | NotFound | CannotModify | InvalidStatus | InvalidTransition | FailedToUpdate
    | InvalidTxType | InvalidAmount | InvalidInput | HashExists | FailedToCreate

  // --- Transitions ---

  const TRANSITIONS: map<Status, seq<Status>> := map[
    Pending := [Submitted, Cancelled],
    Submitted := [Success, Failed],
    Success := [],
    Failed := [Pending],
    Cancelled := []]

  predicate IsValidStatus(s: Status) { !s.Unknown? }

  predicate IsValidTransition(from: Status, to: Status) {
    from == to || (from in TRANSITIONS && to in TRANSITIONS[from])
  }

  // --- Partial and full writes ---

  function TextIn(fields: map<Column, Value>, c: Column, current: Option<string>): Option<string> {
    if c in fields && fields[c].Text? then fields[c].text else current
  }

  function NumberIn(fields: map<Column, Value>, c: Column, current: Option<int>): Option<int> {
    if c in fields && fields[c].Number? then fields[c].number else current
  }

  function StatusIn(fields: map<Column, Value>, c: Column, current: Status): Status {
    if c in fields && fields[c].StatusValue? then fields[c].status else current
  }

  /** What SQL leaves in a row after SET on these columns. */
  function Assigned(row: Row, fields: map<Column, Value>): Row {
    Row(row.terms,
        TextIn(fields, StellarTxHash, row.stellarTxHash),
        NumberIn(fields, StellarLedger, row.stellarLedger),
        TextIn(fields, ExternalId, row.externalId),
        TextIn(fields, ExternalProvider, row.externalProvider),
        TextIn(fields, ExternalStatus, row.externalStatus),
        TextIn(fields, Description, row.description),
        TextIn(fields, Metadata, row.metadata),
        StatusIn(fields, StatusColumn, row.status))
  }

  /** transactionUpdateMap: every column a full rewrite sets. */
  function UpdateMap(row: Row): map<Column, Value> {
    map[StellarTxHash := Text(row.stellarTxHash), StellarLedger := Number(row.stellarLedger),
        ExternalId := Text(row.externalId), ExternalProvider := Text(row.externalProvider),
        ExternalStatus := Text(row.externalStatus), StatusColumn := StatusValue(row.status),
        Description := Text(row.description), Metadata := Text(row.metadata)]
  }

  const BLANK := Row(Terms(None, None, None, "", 0, "", None, None),
                     None, None, None, None, None, None, None, Unknown(""))

  /** The allow-list, taken from the same map. */
  predicate IsUpdatable(c: Column) { c in UpdateMap(BLANK) }

  /** A value that is asked for lies over the one that was. */
  function Over<T>(asked: Option<T>, was: Option<T>): Option<T> { if asked.Some? then asked else was }

  /** The record with the request laid over it, field by field. */
  function Overlaid(row: Row, req: UpdateRequest): Row {
    Row(row.terms,
        Over(req.stellarTxHash, row.stellarTxHash),
        Over(req.stellarLedger, row.stellarLedger),
        Over(req.externalId, row.externalId),
        Over(req.externalProvider, row.externalProvider),
        Over(req.externalStatus, row.externalStatus),
        Over(req.description, row.description),
        Over(req.metadata, row.metadata),
        if req.status.Some? then req.status.value else row.status)
  }

  /** What a request asks to put in a column. */
  function Asked(req: UpdateRequest, c: Column): Option<Value> {
    match c
    case StellarTxHash => if req.stellarTxHash.Some? then Some(Text(req.stellarTxHash)) else None
    case StellarLedger => if req.stellarLedger.Some? then Some(Number(req.stellarLedger)) else None
    case ExternalId => if req.externalId.Some? then Some(Text(req.externalId)) else None
    case ExternalProvider => if req.externalProvider.Some? then Some(Text(req.externalProvider)) else None
    case ExternalStatus => if req.externalStatus.Some? then Some(Text(req.externalStatus)) else None
    case StatusColumn => if req.status.Some? then Some(StatusValue(req.status.value)) else None
    case Description => if req.description.Some? then Some(Text(req.description)) else None
    case Metadata => if req.metadata.Some? then Some(Text(req.metadata)) else None
    case OtherColumn(_) => None
  }

  ghost predicate IsChanged(req: UpdateRequest, fields: map<Column, Value>) {
    forall c :: if c in fields then Asked(req, c) == Some(fields[c]) else Asked(req, c) == None
  }

  /** One column looked at. */
  function Put(req: UpdateRequest, fields: map<Column, Value>, c: Column): map<Column, Value> {
    if Asked(req, c).Some? then fields[c := Asked(req, c).value] else fields
  }

  function FirstFour(req: UpdateRequest): map<Column, Value> {
    Put(req, Put(req, Put(req, Put(req, map[], StellarTxHash), StellarLedger), ExternalId), ExternalProvider)
  }

  function AllFields(req: UpdateRequest): map<Column, Value> {
    Put(req, Put(req, Put(req, Put(req, FirstFour(req), ExternalStatus), StatusColumn), Description), Metadata)
  }

  lemma AllFieldsAsked(req: UpdateRequest)
    ensures IsChanged(req, AllFields(req))
  {
  }

  method ChangedFields(req: UpdateRequest) returns (f: map<Column, Value>)
    ensures IsChanged(req, f)
  {
    f := map[];
    if req.stellarTxHash.Some? { f := f[StellarTxHash := Text(req.stellarTxHash)]; }
    ghost var g := Put(req, map[], StellarTxHash);
    if req.stellarLedger.Some? { f := f[StellarLedger := Number(req.stellarLedger)]; }
    g := Put(req, g, StellarLedger);
    if req.externalId.Some? { f := f[ExternalId := Text(req.externalId)]; }
    g := Put(req, g, ExternalId);
    if req.externalProvider.Some? { f := f[ExternalProvider := Text(req.externalProvider)]; }
    g := Put(req, g, ExternalProvider);
    if req.externalStatus.Some? { f := f[ExternalStatus := Text(req.externalStatus)]; }
    g := Put(req, g, ExternalStatus);
    if req.status.Some? { f := f[StatusColumn := StatusValue(req.status.value)]; }
    g := Put(req, g, StatusColumn);
    if req.description.Some? { f := f[Description := Text(req.description)]; }
    g := Put(req, g, Description);
    if req.metadata.Some? { f := f[Metadata := Text(req.metadata)]; }
    g := Put(req, g, Metadata);
    AllFieldsAsked(req);
  }

  /** The allow-list never rejects what a request sets, and the partial write leaves
      the row a full rewrite of the overlaid record would. */
  lemma PartialWriteIsFull(row: Row, req: UpdateRequest, fields: map<Column, Value>)
    requires IsChanged(req, fields)
    ensures forall c | c in fields :: IsUpdatable(c)
    ensures Assigned(row, fields) == Overlaid(row, req)
    ensures Assigned(row, UpdateMap(Overlaid(row, req))) == Overlaid(row, req)
  {
    assert forall c | c in fields :: !c.OtherColumn?;
  }

  // --- The table ---

  /** Another row holds this hash: the unique index refuses the write. */
  predicate HashTaken(rows: Table, id: Id, hash: Option<string>) {
    hash.Some? && exists other | other in rows :: other != id && rows[other].stellarTxHash == hash
  }

  /** What the unique index keeps. */
  ghost predicate HashesUnique(rows: Table) {
    forall a, b | a in rows && b in rows && a != b && rows[a].stellarTxHash.Some? ::
      rows[a].stellarTxHash != rows[b].stellarTxHash
  }

  function Written(rows: Table, id: Id, row: Row): (Table, Option<Error>)
    requires id in rows
  {
    if HashTaken(rows, id, row.stellarTxHash) then (rows, Some(FailedToUpdate)) else (rows[id := row], None)
  }

  /** What the service makes of a status change, from the row it has read. */
  function Refusal(row: Row, req: UpdateRequest): Option<Error> {
    if row.status == Success || row.status == Cancelled then Some(CannotModify)
    else if req.status.Some? && req.status.value != row.status && !IsValidStatus(req.status.value)
    then Some(InvalidStatus)
    else if req.status.Some? && !IsValidTransition(row.status, req.status.value) then Some(InvalidTransition)
    else None
  }

  function AfterUpdate(rows: Table, id: Id, req: UpdateRequest): (Table, Option<Error>) {
    if id !in rows then (rows, Some(NotFound))
    else if Refusal(rows[id], req).Some? then (rows, Refusal(rows[id], req))
    else Written(rows, id, Overlaid(rows[id], req))
  }

  function Created(req: CreateRequest): Row {
    Row(req.terms, req.stellarTxHash, req.stellarLedger, req.externalId, req.externalProvider, None,
        req.description, req.metadata, Pending)
  }

  function CreateRefusal(rows: Table, id: Id, req: CreateRequest): Option<Error> {
    if req.terms.txType == "" then Some(InvalidTxType)
    else if req.terms.amount <= 0 then Some(InvalidAmount)
    else if req.terms.asset == "" then Some(InvalidInput)
    else if req.stellarTxHash.Some? && HashTaken(rows, id, req.stellarTxHash) then
      Some(if req.stellarTxHash.value != "" then HashExists else FailedToCreate)
    else None
  }

  /** `id` is fresh: rows are keyed by a UUID made at creation. */
  function AfterCreate(rows: Table, id: Id, req: CreateRequest): (Table, Option<Error>)
    requires id !in rows
  {
    if CreateRefusal(rows, id, req).Some? then (rows, CreateRefusal(rows, id, req))
    else (rows[id := Created(req)], None)
  }

  class TransactionRepository {
    var rows: Table

    constructor ()
      ensures rows == map[]
    {
      rows := map[];
    }

    /** The UPDATE: one statement, refused whole. */
    method UpdateColumns(id: Id, fields: map<Column, Value>) returns (e: Option<Error>)
      modifies this
      ensures (rows, e) == if id in old(rows) then Written(old(rows), id, Assigned(old(rows)[id], fields))
                           else (old(rows), Some(NotFound))
    {
      if id !in rows {
        return Some(NotFound);
      }
      var row := Assigned(rows[id], fields);
      if HashTaken(rows, id, row.stellarTxHash) {
        return Some(FailedToUpdate);
      }
      rows := rows[id := row];
      e := None;
    }

    /** The full rewrite. */
    method Update(id: Id, row: Row) returns (e: Option<Error>)
      modifies this
      ensures (rows, e) == if id in old(rows) then Written(old(rows), id, row.(terms := old(rows)[id].terms))
                           else (old(rows), Some(NotFound))
    {
      e := UpdateColumns(id, UpdateMap(row));
    }

    /** The partial write: nothing is written when any column is off the list. */
    method UpdateFields(id: Id, fields: map<Column, Value>) returns (e: Option<Error>)
      modifies this
      ensures fields == map[] ==> rows == old(rows) && e == None
      ensures (exists c | c in fields :: !IsUpdatable(c)) ==> rows == old(rows) && e == Some(FailedToUpdate)
      ensures fields != map[] && (forall c | c in fields :: IsUpdatable(c)) ==>
        (rows, e) == if id in old(rows) then Written(old(rows), id, Assigned(old(rows)[id], fields))
                     else (old(rows), Some(NotFound))
    {
      if |fields| == 0 {
        return None;
      }
      var out: map<Column, Value> := map[];
      var left := fields.Keys;
      while left != {}
        invariant left <= fields.Keys && rows == old(rows)
        invariant forall c | c in fields && c !in left :: IsUpdatable(c)
        invariant out == map c | c in fields && c !in left :: fields[c]
        decreases left
      {
        var k :| k in left;
        if !IsUpdatable(k) {
          return Some(FailedToUpdate);
        }
        out := out[k := fields[k]];
        left := left - {k};
      }
      assert out == fields;
      e := UpdateColumns(id, out);
    }

    method Create(id: Id, tx: Row) returns (e: Option<Error>)
      requires id !in rows
      modifies this
      ensures (rows, e) == if HashTaken(old(rows), id, tx.stellarTxHash) then (old(rows), Some(FailedToCreate))
                           else (old(rows)[id := tx], None)
    {
      if HashTaken(rows, id, tx.stellarTxHash) {
        return Some(FailedToCreate);
      }
      rows := rows[id := tx];
      e := None;
    }
  }

  class Service {
    const repo: TransactionRepository

    constructor (repo: TransactionRepository)
      ensures this.repo == repo
    {
      this.repo := repo;
    }

    method Create(id: Id, req: CreateRequest) returns (e: Option<Error>)
      requires id !in repo.rows
      modifies repo
      ensures (repo.rows, e) == AfterCreate(old(repo.rows), id, req)
      ensures e.Some? ==> repo.rows == old(repo.rows)
      ensures e.None? <==>
        && req.terms.txType != "" && req.terms.amount > 0 && req.terms.asset != ""
        && (req.stellarTxHash.Some? ==> forall o | o in old(repo.rows) ::
              old(repo.rows)[o].stellarTxHash != req.stellarTxHash)
      ensures e.None? ==> id in repo.rows && repo.rows == old(repo.rows)[id := repo.rows[id]]
      ensures e.None? ==> var row := repo.rows[id];
        && row.status == Pending && row.externalStatus == None && row.terms == req.terms
        && row.stellarTxHash == req.stellarTxHash && row.stellarLedger == req.stellarLedger
        && row.externalId == req.externalId && row.externalProvider == req.externalProvider
        && row.description == req.description && row.metadata == req.metadata
    {
      if req.terms.txType == "" {
        return Some(InvalidTxType);
      }
      if req.terms.amount <= 0 {
        return Some(InvalidAmount);
      }
      if req.terms.asset == "" {
        return Some(InvalidInput);
      }
      if req.stellarTxHash.Some? && req.stellarTxHash.value != "" {
        var rows := repo.rows;
        if exists other | other in rows :: rows[other].stellarTxHash == req.stellarTxHash {
          return Some(HashExists);
        }
      }
      e := repo.Create(id, Created(req));
    }

    method Update(id: Id, req: UpdateRequest) returns (e: Option<Error>)
      requires HashesUnique(repo.rows)
      modifies repo
      ensures (repo.rows, e) == AfterUpdate(old(repo.rows), id, req)
      ensures e.Some? ==> repo.rows == old(repo.rows)
      ensures e == Some(NotFound) <==> id !in old(repo.rows)
      ensures e == Some(CannotModify) <==> id in old(repo.rows) && old(repo.rows)[id].status in {Success, Cancelled}
      ensures e.None? ==> id in old(repo.rows) && id in repo.rows
      ensures e.None? ==> repo.rows == old(repo.rows)[id := repo.rows[id]]
      ensures e.None? ==> var (was, row) := (old(repo.rows)[id], repo.rows[id]);
        && row.terms == was.terms
        && row.status == (if req.status.Some? then req.status.value else was.status)
        && row.stellarTxHash == Over(req.stellarTxHash, was.stellarTxHash)
        && row.stellarLedger == Over(req.stellarLedger, was.stellarLedger)
        && row.externalId == Over(req.externalId, was.externalId)
        && row.externalProvider == Over(req.externalProvider, was.externalProvider)
        && row.externalStatus == Over(req.externalStatus, was.externalStatus)
        && row.description == Over(req.description, was.description)
        && row.metadata == Over(req.metadata, was.metadata)
    {
      if id !in repo.rows {
        return Some(NotFound);
      }
      var tx := repo.rows[id];
      if tx.status == Success || tx.status == Cancelled {
        return Some(CannotModify);
      }
      if req.status.Some? && req.status.value != tx.status {
        if !IsValidStatus(req.status.value) {
          return Some(InvalidStatus);
        }
        if !IsValidTransition(tx.status, req.status.value) {
          return Some(InvalidTransition);
        }
      }
      var fields := ChangedFields(req);
      PartialWriteIsFull(tx, req, fields);
      if |fields| > 0 {
        e := repo.UpdateFields(id, fields);
      } else {
        e := None;
        assert Assigned(tx, fields) == tx && repo.rows[id := tx] == repo.rows;
      }
    }
  }
}
