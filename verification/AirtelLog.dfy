/**
 The Airtel observation log: callbacks, enquiries and summary sweeps upserting
 one row per transaction (pkg/repository/airtel_repository.go).
 */
module AirtelLog {
  import opened Options
  import opened Queues
  import Applied

  /** The id we generate and send; the table's unique key. */
  type PartnerId = string

  datatype Source = Callback | Enquiry | Summary
  datatype Via = ByEnquiry | BySummary

  datatype Row = Row(
    source: Source,
    status: string,
    receipt: Option<string>,          // airtel_money_id
    confirmed: bool,
    via: Option<Via>,
    hashVerified: bool,
    hashVariant: Option<string>,
    reference: string,
    loan: Option<string>,
    amountMinor: int,
    applied: Option<int>,             // applied_stroops
    transTime: int,
    payload: string,
    nextPollAt: Option<int>,
    pollAttempts: int)

  type Log = map<PartnerId, Row>

  /** A receipt or loan id that says something: neither NULL nor empty. */
  predicate Known(s: Option<string>) { s.Some? && s.value != "" }

  /** Another row already holds this receipt: the partial unique index refuses it. */
  predicate Clash(log: Log, p: PartnerId, receipt: Option<string>) {
    receipt.Some? && exists q | q in log :: q != p && log[q].receipt == receipt
  }

  /** The insert hits a unique index, on the key or on the receipt. */
  predicate InsertRefused(log: Log, p: PartnerId, tx: Row) {
    p in log || Clash(log, p, tx.receipt)
  }

  function Filled(current: Option<string>, given: Option<string>): Option<string> {
    if Known(given) then given else current
  }

  function FromCallback(row: Row, tx: Row): Row {
    row.(status := tx.status, payload := tx.payload, transTime := tx.transTime,
         hashVerified := tx.hashVerified, hashVariant := tx.hashVariant,
         receipt := Filled(row.receipt, tx.receipt))
  }

  function FromSummary(row: Row, tx: Row): Row {
    row.(status := tx.status, confirmed := true, via := Some(BySummary), nextPollAt := None,
         receipt := Filled(row.receipt, tx.receipt), loan := Filled(row.loan, tx.loan))
  }

  function FromConfirm(row: Row, via: Via, status: string, receipt: string, loan: string): Row {
    row.(confirmed := true, via := Some(via), status := status, nextPollAt := None,
         receipt := Filled(row.receipt, Some(receipt)), loan := Filled(row.loan, Some(loan)))
  }

  datatype Result = Ok | FailedToRecord | NotFound

  /** An UPDATE of one row, refused whole when it would repeat a receipt. */
  function Updated(log: Log, p: PartnerId, row: Row): (Log, Result)
    requires p in log
  {
    if row.receipt != log[p].receipt && Clash(log, p, row.receipt) then (log, FailedToRecord)
    else (log[p := row], Ok)
  }

  function AfterCallback(log: Log, p: PartnerId, tx: Row): (Log, Result) {
    if !InsertRefused(log, p, tx) then (log[p := tx], Ok)
    else if p in log && !log[p].confirmed then Updated(log, p, FromCallback(log[p], tx))
    else (log, Ok)
  }

  function AfterSummary(log: Log, p: PartnerId, tx: Row): (Log, Result) {
    if !InsertRefused(log, p, tx) then (log[p := tx], Ok)
    else if p in log then Updated(log, p, FromSummary(log[p], tx))
    else (log, Ok)
  }

  function AfterConfirm(log: Log, p: PartnerId, via: Via, status: string, receipt: string, loan: string)
    : (Log, Result)
  {
    if p in log then Updated(log, p, FromConfirm(log[p], via, status, receipt, loan)) else (log, NotFound)
  }

  /** The settlement sweep's queue. */
  predicate Unapplied(row: Row) { row.confirmed && row.loan.Some? && row.applied == None }

  /** What the log says has been applied. */
  function BookOf(log: Log): Applied.Book { map p | p in log :: Applied.Entry(log[p].loan, log[p].applied) }

  class AirtelTransactionRepository {
    var rows: Log

    constructor ()
      ensures rows == map[]
    {
      rows := map[];
    }

    method RecordCallback(p: PartnerId, tx: Row) returns (r: Result)
      modifies this
      ensures (rows, r) == AfterCallback(old(rows), p, tx)
      ensures p !in old(rows) ==> r == Ok
      ensures p !in old(rows) ==> rows == if Clash(old(rows), p, tx.receipt) then old(rows) else old(rows)[p := tx]
      ensures p in old(rows) && old(rows)[p].confirmed ==> r == Ok && rows == old(rows)
      ensures p in old(rows) && !old(rows)[p].confirmed ==>
        if r == Ok
        then p in rows && rows == old(rows)[p := rows[p]] && rows[p] == old(rows)[p].(
          status := tx.status, payload := tx.payload, transTime := tx.transTime,
          hashVerified := tx.hashVerified, hashVariant := tx.hashVariant,
          receipt := if tx.receipt.Some? && tx.receipt.value != "" then tx.receipt else old(rows)[p].receipt)
        else rows == old(rows)
    {
      if !InsertRefused(rows, p, tx) {
        rows := rows[p := tx];
        return Ok;
      }
      r := UpdateFromCallback(p, tx);
    }

    method UpdateFromCallback(p: PartnerId, tx: Row) returns (r: Result)
      modifies this
      ensures (rows, r) == if p in old(rows) && !old(rows)[p].confirmed
                           then Updated(old(rows), p, FromCallback(old(rows)[p], tx)) else (old(rows), Ok)
    {
      if p !in rows || rows[p].confirmed {
        return Ok;
      }
      var row := rows[p].(status := tx.status, payload := tx.payload, transTime := tx.transTime,
                          hashVerified := tx.hashVerified, hashVariant := tx.hashVariant);
      if tx.receipt.Some? && tx.receipt.value != "" {
        row := row.(receipt := tx.receipt);
      }
      r := Write(p, row);
    }

    /** The UPDATE itself, with the receipt index in its way. */
    method Write(p: PartnerId, row: Row) returns (r: Result)
      requires p in rows
      modifies this
      ensures (rows, r) == Updated(old(rows), p, row)
    {
      if row.receipt != rows[p].receipt && Clash(rows, p, row.receipt) {
        return FailedToRecord;
      }
      rows := rows[p := row];
      r := Ok;
    }

    method Confirm(p: PartnerId, via: Via, status: string, receipt: string, loan: string) returns (r: Result)
      modifies this
      ensures (rows, r) == AfterConfirm(old(rows), p, via, status, receipt, loan)
      ensures r == NotFound <==> p !in old(rows)
      ensures r == FailedToRecord <==>
        p in old(rows) && receipt != "" && old(rows)[p].receipt != Some(receipt)
        && exists q | q in old(rows) :: q != p && old(rows)[q].receipt == Some(receipt)
      ensures r != Ok ==> rows == old(rows)
      ensures r == Ok ==> p in old(rows) && p in rows && rows == old(rows)[p := rows[p]]
      ensures r == Ok ==> rows[p] == old(rows)[p].(
        confirmed := true, via := Some(via), status := status, nextPollAt := None,
        receipt := if receipt != "" then Some(receipt) else old(rows)[p].receipt,
        loan := if loan != "" then Some(loan) else old(rows)[p].loan)
      ensures r == Ok && loan != "" && old(rows)[p].applied == None ==> Unapplied(rows[p])
    {
      if p !in rows {
        return NotFound;
      }
      var row := rows[p].(confirmed := true, via := Some(via), status := status, nextPollAt := None);
      if receipt != "" {
        row := row.(receipt := Some(receipt));
      }
      if loan != "" {
        row := row.(loan := Some(loan));
      }
      r := Write(p, row);
    }

    method UpsertFromSummary(p: PartnerId, tx: Row) returns (r: Result)
      modifies this
      ensures (rows, r) == AfterSummary(old(rows), p, tx)
      ensures p !in old(rows) ==> r == Ok
      ensures p !in old(rows) ==> rows == if Clash(old(rows), p, tx.receipt) then old(rows) else old(rows)[p := tx]
      ensures p in old(rows) ==>
        if r == Ok
        then p in rows && rows == old(rows)[p := rows[p]] && rows[p] == old(rows)[p].(
          status := tx.status, confirmed := true, via := Some(BySummary), nextPollAt := None,
          receipt := if tx.receipt.Some? && tx.receipt.value != "" then tx.receipt else old(rows)[p].receipt,
          loan := if tx.loan.Some? && tx.loan.value != "" then tx.loan else old(rows)[p].loan)
        else rows == old(rows)
    {
      if !InsertRefused(rows, p, tx) {
        rows := rows[p := tx];
        return Ok;
      }
      if p !in rows {
        return Ok;
      }
      var row := rows[p].(status := tx.status, confirmed := true, via := Some(BySummary), nextPollAt := None);
      if tx.receipt.Some? && tx.receipt.value != "" {
        row := row.(receipt := tx.receipt);
      }
      if tx.loan.Some? && tx.loan.value != "" {
        row := row.(loan := tx.loan);
      }
      r := Write(p, row);
    }

    method UpdatePoll(p: PartnerId, at: int)
      modifies this
      ensures rows == if p in old(rows)
        then old(rows)[p := old(rows)[p].(nextPollAt := Some(at), pollAttempts := old(rows)[p].pollAttempts + 1)]
        else old(rows)
    {
      if p in rows {
        rows := rows[p := rows[p].(nextPollAt := Some(at), pollAttempts := rows[p].pollAttempts + 1)];
      }
    }

    method StopPoll(p: PartnerId)
      modifies this
      ensures rows == if p in old(rows) then old(rows)[p := old(rows)[p].(nextPollAt := None)] else old(rows)
    {
      if p in rows {
        rows := rows[p := rows[p].(nextPollAt := None)];
      }
    }

    /** Confirmed rows are never due for another enquiry, whatever their poll time. */
    method DuePoll(now: int, limit: nat) returns (due: seq<PartnerId>)
      ensures forall p | p in due :: p in rows && !rows[p].confirmed
      ensures IsBatch(rows, (row: Row) => !row.confirmed && row.nextPollAt.Some? && row.nextPollAt.value <= now,
                      (row: Row) => row.nextPollAt, limit, due)
    {
      due := Select(rows, (row: Row) => !row.confirmed && row.nextPollAt.Some? && row.nextPollAt.value <= now,
                    (row: Row) => row.nextPollAt, limit);
    }

    method ListUnappliedConfirmed(limit: nat) returns (due: seq<PartnerId>)
      ensures IsBatch(rows, Unapplied, (row: Row) => Some(row.transTime), limit, due)
      ensures forall p | p in due :: rows[p].confirmed && rows[p].loan.Some? && rows[p].applied == None
      ensures forall p | p in rows && rows[p].confirmed && rows[p].loan.Some? && rows[p].applied == None && p !in due ::
        |due| == limit
    {
      due := Select(rows, Unapplied, (row: Row) => Some(row.transTime), limit);
    }

    /** Unconditional: the guard is the queue the caller took the row from. */
    method SetAppliedStroops(p: PartnerId, stroops: int) returns (r: Result)
      modifies this
      ensures r == if p in old(rows) then Ok else NotFound
      ensures rows == if r == Ok then old(rows)[p := old(rows)[p].(applied := Some(stroops))] else old(rows)
    {
      if p !in rows {
        return NotFound;
      }
      rows := rows[p := rows[p].(applied := Some(stroops))];
      r := Ok;
    }

    method SumAppliedStroopsByLoan(loan: string) returns (total: int)
      ensures total == Applied.ByLoan(BookOf(rows), loan)
    {
      total := Applied.SumByLoan(BookOf(rows), loan);
    }
  }
}
