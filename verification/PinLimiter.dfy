/**
 The attempt counter behind PIN entry and account recovery: the two statements
 that move it (pkg/repository/user_repository.go) and the two services that
 share it (pkg/pin/service.go).
 */
module PinLimiter {
  import opened Options

  type Id = string

  datatype User = User(pinHash: Option<string>, attempts: int, lockedUntil: Option<int>, deleted: bool)

  type Table = map<Id, User>

  predicate Live(rows: Table, id: Id) { id in rows && !rows[id].deleted }

  /** The guard of the claiming statement. */
  predicate Claimable(rows: Table, id: Id, now: int) {
    Live(rows, id) && (rows[id].lockedUntil == None || rows[id].lockedUntil.value <= now)
  }

  function Claimed(u: User, maxAttempts: int, lockout: int, now: int): User {
    u.(attempts := u.attempts + 1,
       lockedUntil := if u.attempts + 1 >= maxAttempts then Some(now + lockout) else None)
  }

  function Least(a: int, b: int): int { if a <= b then a else b }

  function Cleared(u: User): User { u.(attempts := 0, lockedUntil := None) }

  /** A lock time is present exactly when the counter is full. */
  predicate LockMatchesCount(u: User, maxAttempts: int) {
    u.lockedUntil.Some? <==> u.attempts >= maxAttempts
  }

  datatype Claim =
    | Admitted(attempts: int, lockedUntil: Option<int>)
    | Refused(attempts: int, lockedUntil: Option<int>)
    | Missing

  class UserRepository {
    var rows: Table

    constructor (rows: Table)
      ensures this.rows == rows
    {
      this.rows := rows;
    }

    /** One statement counts the attempt; when it matches no row the user is read
        back to tell a lock from a missing user. */
    method ClaimPINAttempt(id: Id, maxAttempts: int, lockout: int, now: int) returns (r: Claim)
      modifies this
      ensures r.Admitted? <==> Claimable(old(rows), id, now)
      ensures r.Admitted? ==>
        && rows == old(rows)[id := Claimed(old(rows)[id], maxAttempts, lockout, now)]
        && r == Admitted(rows[id].attempts, rows[id].lockedUntil)
        && r.attempts == old(rows)[id].attempts + 1
        && r.lockedUntil == (if r.attempts >= maxAttempts then Some(now + lockout) else None)
        && rows[id].pinHash == old(rows)[id].pinHash && !rows[id].deleted
      ensures !r.Admitted? ==> rows == old(rows)
      ensures r.Missing? <==> !Live(old(rows), id)
      ensures r.Refused? ==>
        Live(rows, id) && r == Refused(rows[id].attempts, rows[id].lockedUntil) && r.lockedUntil.Some?
    {
      if Claimable(rows, id, now) {
        var u := rows[id];
        var lock := if u.attempts + 1 >= maxAttempts then Some(now + lockout) else None;
        rows := rows[id := u.(attempts := u.attempts + 1, lockedUntil := lock)];
        return Admitted(rows[id].attempts, rows[id].lockedUntil);
      }
      if !Live(rows, id) {
        return Missing;
      }
      r := Refused(rows[id].attempts, rows[id].lockedUntil);
    }

    method ResetPINAttempts(id: Id) returns (ok: bool)
      modifies this
      ensures ok == Live(old(rows), id)
      ensures rows == if ok then old(rows)[id := old(rows)[id].(attempts := 0, lockedUntil := None)] else old(rows)
    {
      ok := Live(rows, id);
      if ok {
        rows := rows[id := rows[id].(attempts := 0, lockedUntil := None)];
      }
    }
  }

  const MAX_PIN_ATTEMPTS := 3

  datatype Outcome =
    | Verified
    | ResetFailed               // the guess was right but the counter was not cleared
    | Wrong(remaining: int)     // what the user is told is left
    | Denied                    // a wrong recovery answer: no count is reported
    | LockedUntil(until: int)
    | NotSet
    | NotFound
    | NotRecorded

  datatype QuestionAnswer = QuestionAnswer(question: int, answer: string)
  datatype StoredAnswer = StoredAnswer(question: int, hash: string)

  /** The hash kept for a question; of repeated rows the last one counts. */
  function StoredHash(stored: seq<StoredAnswer>, question: int): Option<string> {
    if stored == [] then None
    else
      var last := stored[|stored| - 1];
      if last.question == question then Some(last.hash) else StoredHash(stored[..|stored| - 1], question)
  }

  /** The row that counts for a question: the last one that names it. */
  ghost predicate KeptFor(stored: seq<StoredAnswer>, question: int, hash: string) {
    exists j | 0 <= j < |stored| :: stored[j] == StoredAnswer(question, hash)
      && forall k | j < k < |stored| :: stored[k].question != question
  }

  lemma KeptForNext(stored: seq<StoredAnswer>, question: int, hash: string)
    requires stored != [] && stored[|stored| - 1].question != question
    ensures KeptFor(stored, question, hash) <==> KeptFor(stored[..|stored| - 1], question, hash)
  {
    var n := |stored| - 1;
    var rest := stored[..n];
    if KeptFor(rest, question, hash) {
      var j :| 0 <= j < n && rest[j] == StoredAnswer(question, hash)
        && forall k | j < k < n :: rest[k].question != question;
      assert stored[j] == rest[j] && forall k | j < k < n :: stored[k] == rest[k];
    }
    if KeptFor(stored, question, hash) {
      var j :| 0 <= j <= n && stored[j] == StoredAnswer(question, hash)
        && forall k | j < k <= n :: stored[k].question != question;
      assert rest[j] == stored[j] && forall k | j < k < n :: rest[k] == stored[k];
    }
  }

  lemma {:induction false} StoredHashExactly(stored: seq<StoredAnswer>, question: int, hash: string)
    ensures StoredHash(stored, question) == Some(hash) <==> KeptFor(stored, question, hash)
    decreases |stored|
  {
    if stored != [] {
      var last := stored[|stored| - 1];
      if last.question == question {
        assert last == StoredAnswer(question, last.hash);
      } else {
        KeptForNext(stored, question, hash);
        StoredHashExactly(stored[..|stored| - 1], question, hash);
      }
    }
  }

  /** The answer matches the row kept for its own question. */
  ghost predicate Matches(stored: seq<StoredAnswer>, a: QuestionAnswer, matches: (string, string) -> bool) {
    exists h :: KeptFor(stored, a.question, h) && matches(h, a.answer)
  }

  ghost predicate AllMatch(stored: seq<StoredAnswer>, answers: seq<QuestionAnswer>, matches: (string, string) -> bool) {
    forall i | 0 <= i < |answers| :: Matches(stored, answers[i], matches)
  }

  lemma AnswerMatches(stored: seq<StoredAnswer>, a: QuestionAnswer, matches: (string, string) -> bool)
    ensures var h := StoredHash(stored, a.question);
      h.Some? && matches(h.value, a.answer) <==> Matches(stored, a, matches)
  {
    var h := StoredHash(stored, a.question);
    if h.Some? { StoredHashExactly(stored, a.question, h.value); }
    forall x ensures KeptFor(stored, a.question, x) <==> h == Some(x) { StoredHashExactly(stored, a.question, x); }
  }

  /** The sequential service. `matches` stands for bcrypt's comparison. */
  class Service {
    const repo: UserRepository
    const maxAttempts: int
    const lockout: int
    const matches: (string, string) -> bool

    constructor (repo: UserRepository, lockout: int, matches: (string, string) -> bool)
      ensures this.repo == repo && maxAttempts == MAX_PIN_ATTEMPTS && this.matches == matches
    {
      this.repo := repo;
      this.maxAttempts := MAX_PIN_ATTEMPTS;
      this.lockout := lockout;
      this.matches := matches;
    }

    /** Whether the call gets as far as comparing, and what the comparison says. */
    function VerdictOn(rows: Table, id: Id, pin: string, readAt: int, claimAt: int): Option<bool> {
      if Live(rows, id) && rows[id].pinHash.Some?
         && (rows[id].lockedUntil == None || readAt >= rows[id].lockedUntil.value)
         && Claimable(rows, id, claimAt)
      then Some(matches(rows[id].pinHash.value, pin)) else None
    }

    /** What the call answers. */
    function AnswerOn(rows: Table, id: Id, pin: string, readAt: int, claimAt: int): Outcome {
      if !Live(rows, id) then NotFound
      else if rows[id].pinHash.None? then NotSet
      else if rows[id].lockedUntil.Some? && Least(readAt, claimAt) < rows[id].lockedUntil.value
      then LockedUntil(rows[id].lockedUntil.value)
      else if matches(rows[id].pinHash.value, pin) then Verified
      else
        var u := Claimed(rows[id], maxAttempts, lockout, claimAt);
        if u.lockedUntil.Some? then LockedUntil(u.lockedUntil.value) else Wrong(maxAttempts - u.attempts)
    }

    /** The table it leaves. */
    function TableAfter(rows: Table, id: Id, pin: string, readAt: int, claimAt: int): Table {
      match VerdictOn(rows, id, pin, readAt, claimAt)
      case None => rows
      case Some(true) => rows[id := Cleared(rows[id])]
      case Some(false) => rows[id := Claimed(rows[id], maxAttempts, lockout, claimAt)]
    }

    /** `readAt` and `claimAt` are the clock at the lock check and at the claim. */
    method VerifyPIN(id: Id, pin: string, readAt: int, claimAt: int) returns (r: Outcome)
      modifies repo
      ensures r == NotFound <==> !Live(old(repo.rows), id)
      ensures r == NotSet <==> Live(old(repo.rows), id) && old(repo.rows)[id].pinHash.None?
      ensures r in {NotFound, NotSet} ==> repo.rows == old(repo.rows)
      ensures r == Verified || r.Wrong? || r.LockedUntil? ==>
        id in repo.rows && id in old(repo.rows) && repo.rows == old(repo.rows)[id := repo.rows[id]]
      ensures r == Verified ==>
        var u := old(repo.rows)[id];
        u.pinHash.Some? && matches(u.pinHash.value, pin) && repo.rows[id] == u.(attempts := 0, lockedUntil := None)
      ensures r.Wrong? ==>
        var u := old(repo.rows)[id];
        && u.pinHash.Some? && !matches(u.pinHash.value, pin) && u.attempts + 1 < maxAttempts
        && repo.rows[id] == u.(attempts := u.attempts + 1, lockedUntil := None)
        && r.remaining == maxAttempts - repo.rows[id].attempts
      ensures r.LockedUntil? ==>
        var u := old(repo.rows)[id];
        && repo.rows[id].lockedUntil == Some(r.until)
        && ((repo.rows[id] == u && Least(readAt, claimAt) < r.until)
            || (u.pinHash.Some? && !matches(u.pinHash.value, pin) && u.attempts + 1 >= maxAttempts
                && repo.rows[id] == u.(attempts := u.attempts + 1, lockedUntil := Some(claimAt + lockout))))
      ensures repo.rows == TableAfter(old(repo.rows), id, pin, readAt, claimAt)
      ensures r == AnswerOn(old(repo.rows), id, pin, readAt, claimAt)
      ensures r == Verified <==> VerdictOn(old(repo.rows), id, pin, readAt, claimAt) == Some(true)
      ensures repo.rows != old(repo.rows) ==> VerdictOn(old(repo.rows), id, pin, readAt, claimAt).Some?
      ensures r.Wrong? ==> id in old(repo.rows)
      ensures r.Wrong? && old(repo.rows)[id].attempts >= 0 ==> 1 <= r.remaining <= maxAttempts - 1
    {
      if !Live(repo.rows, id) {
        return NotFound;
      }
      var user := repo.rows[id];
      if user.pinHash.None? {
        return NotSet;
      }
      if user.lockedUntil.Some? && readAt < user.lockedUntil.value {
        return LockedUntil(user.lockedUntil.value);
      }
      var claim := repo.ClaimPINAttempt(id, maxAttempts, lockout, claimAt);
      if claim.Refused? && claim.lockedUntil.Some? {
        return LockedUntil(claim.lockedUntil.value);
      }
      if !claim.Admitted? {
        return NotRecorded;
      }
      if !matches(user.pinHash.value, pin) {
        if claim.lockedUntil.Some? {
          return LockedUntil(claim.lockedUntil.value);
        }
        return Wrong(maxAttempts - claim.attempts);
      }
      var ok := repo.ResetPINAttempts(id);
      assert repo.rows == old(repo.rows)[id := Cleared(old(repo.rows)[id])];
      r := if ok then Verified else ResetFailed;
    }

    method VerifySecurityAnswers(id: Id, stored: seq<StoredAnswer>, answers: seq<QuestionAnswer>, now: int)
      returns (r: Outcome)
      modifies repo
      ensures Claimable(old(repo.rows), id, now) ==>
        && (r == Verified <==> AllMatch(stored, answers, matches))
        && (r != Verified ==> r == Denied)
        && repo.rows == old(repo.rows)[id :=
             if r == Verified then old(repo.rows)[id].(attempts := 0, lockedUntil := None)
             else Claimed(old(repo.rows)[id], maxAttempts, lockout, now)]
      ensures !Claimable(old(repo.rows), id, now) ==>
        && repo.rows == old(repo.rows)
        && r == if Live(repo.rows, id) then LockedUntil(repo.rows[id].lockedUntil.value) else NotRecorded
    {
      var claim := repo.ClaimPINAttempt(id, maxAttempts, lockout, now);
      if claim.Refused? && claim.lockedUntil.Some? {
        return LockedUntil(claim.lockedUntil.value);
      }
      if !claim.Admitted? {
        return NotRecorded;
      }
      ghost var claimed := repo.rows;
      var hashByQID: map<int, string> := map[];
      for i := 0 to |stored|
        invariant forall q :: q in hashByQID <==> StoredHash(stored[..i], q).Some?
        invariant forall q | q in hashByQID :: StoredHash(stored[..i], q) == Some(hashByQID[q])
      {
        assert stored[..i + 1][..i] == stored[..i];
        hashByQID := hashByQID[stored[i].question := stored[i].hash];
      }
      assert stored[..|stored|] == stored;
      for i := 0 to |answers|
        invariant AllMatch(stored, answers[..i], matches) && repo.rows == claimed
      {
        AnswerMatches(stored, answers[i], matches);
        if answers[i].question !in hashByQID || !matches(hashByQID[answers[i].question], answers[i].answer) {
          return Denied;
        }
      }
      assert answers[..|answers|] == answers;
      var ok := repo.ResetPINAttempts(id);
      assert repo.rows == old(repo.rows)[id := Cleared(old(repo.rows)[id])];
      r := if ok then Verified else ResetFailed;
    }
  }
}
