/**
 Login lockout (backend/src/auth/lockout.ts) as the login route uses it
 (backend/src/http/routes/auth.ts:52-99). Times are milliseconds; the stored
 `locked_until` is a whole second.
 */
module Lockout {
  import opened Wrappers
  import opened Bits

  const BACKOFF_THRESHOLD: nat := 3
  const HARD_LOCK_THRESHOLD: nat := 5
  const HARD_LOCK_MS: nat := 15 * 60 * 1000

  /** A lock of 15 minutes less the truncation to a whole second. */
  const SHORTEST_LOCK_MS: nat := HARD_LOCK_MS - 999

  /** The operator row; `lockedUntil` in seconds. */
  datatype LockRow = LockRow(failedAttempts: nat, lockedUntil: Option<nat>)

  datatype LockStatus = LockStatus(locked: bool, retryAfterMs: Option<nat>)

  const LONGEST_BACKOFF_MS: nat := 30_000

  /** The delay reported after a failure: doubling from one second, capped. */
  function Backoff(failedAttempts: nat): (ms: nat)
    requires failedAttempts >= BACKOFF_THRESHOLD
    ensures ms <= LONGEST_BACKOFF_MS
  {
    var delay := Pow2(failedAttempts - BACKOFF_THRESHOLD) * 1000;
    if delay <= LONGEST_BACKOFF_MS then delay else LONGEST_BACKOFF_MS
  }

  function Status(row: Option<LockRow>, now: nat): LockStatus {
    match row
    case None => LockStatus(false, None)
    case Some(r) =>
      if r.lockedUntil.Some? && r.lockedUntil.value * 1000 > now
          then LockStatus(true, Some(r.lockedUntil.value * 1000 - now))
      else if r.failedAttempts >= BACKOFF_THRESHOLD then
        LockStatus(false, Some(Backoff(r.failedAttempts)))
      else LockStatus(false, None)
  }

  /** The ISO text of a time, cut to whole seconds. */
  function Seconds(ms: nat): nat {
    ms / 1000
  }

  function Failed(row: LockRow, now: nat): LockRow {
    var attempts := row.failedAttempts + 1;
    LockRow(attempts, if attempts >= HARD_LOCK_THRESHOLD then Some(Seconds(now + HARD_LOCK_MS)) else None)
  }

  class LockoutService {
    var row: Option<LockRow>

    constructor (row: Option<LockRow>)
      ensures this.row == row
    {
      this.row := row;
    }

    method RecordFailure(now: nat) returns (status: LockStatus)
      modifies this
      ensures row == match old(row) case None => None case Some(r) => Some(Failed(r, now))
      ensures status == Status(row, now)
    {
      if row.Some? {
        var attempts := row.value.failedAttempts + 1;
        var lockedUntil: Option<nat> := None;
        if attempts >= HARD_LOCK_THRESHOLD {
          lockedUntil := Some(Seconds(now + HARD_LOCK_MS));
        }
        row := Some(LockRow(attempts, lockedUntil));
      }
      status := Status(row, now);
    }

    method Reset()
      modifies this
      ensures row == match old(row) case None => None case Some(_) => Some(LockRow(0, None))
    {
      if row.Some? {
        row := Some(LockRow(0, None));
      }
    }

    /** The login route: refused while locked, else the verdict decides. */
    method Login(a: Attempt) returns (outcome: Outcome)
      modifies this
      ensures (row, outcome) == LoginStep(old(row), a)
    {
      if Status(row, a.now).locked {
        return Refused;
      }
      match a.verdict
      case BadCredentials =>
        var _ := RecordFailure(a.now);
        outcome := Rejected;
      case BadToken =>
        var _ := RecordFailure(a.now);
        outcome := Rejected;
      case MissingToken => outcome := TokenAsked;
      case Good =>
        Reset();
        outcome := LoggedIn;
    }
  }

  // ---------------------------------------------------------------- attempts

  datatype Verdict = BadCredentials | MissingToken | BadToken | Good

  datatype Attempt = Attempt(now: nat, verdict: Verdict)

  datatype Outcome = Refused | Rejected | TokenAsked | LoggedIn

  function LoginStep(row: Option<LockRow>, a: Attempt): (Option<LockRow>, Outcome) {
    if Status(row, a.now).locked then (row, Refused)
    else
      match a.verdict
      case MissingToken => (row, TokenAsked)
      case Good => (match row case None => None case Some(_) => Some(LockRow(0, None)), LoggedIn)
      case _ => (match row case None => None case Some(r) => Some(Failed(r, a.now)), Rejected)
  }

  /**
   What an attempt does to an operator. While locked it is refused and counts for
   nothing. Otherwise the right credentials with a good token get in and clear the
   count, a missing token is asked for, and all else is counted; the fifth and
   every further failure locks.
   */
  lemma LoginExact(row: LockRow, a: Attempt)
    ensures var locked := Status(Some(row), a.now).locked;
            var (after, outcome) := LoginStep(Some(row), a);
            && (locked <==> row.lockedUntil.Some? && a.now < row.lockedUntil.value * 1000)
            && (outcome == Refused <==> locked)
            && (outcome == LoggedIn <==> !locked && a.verdict == Good)
            && (outcome == TokenAsked <==> !locked && a.verdict == MissingToken)
            && (outcome == LoggedIn ==> after == Some(LockRow(0, None)) && !Status(after, a.now).locked)
            && (outcome == Refused || outcome == TokenAsked ==> after == Some(row))
            && (outcome == Rejected ==>
                  && after.Some? && after.value.failedAttempts == row.failedAttempts + 1
                  && (Status(after, a.now).locked <==> row.failedAttempts + 1 >= 5)
                  && (Status(after, a.now).locked ==>
                        899_001 <= Status(after, a.now).retryAfterMs.value <= 900_000))
  {
    hide Backoff;
  }

  /** Before there is an operator nothing is counted, and nobody is locked out. */
  lemma NobodyIsLocked(a: Attempt)
    ensures LoginStep(None, a).0 == None && LoginStep(None, a).1 != Refused
  {
  }

  /** A run of attempts: the row it leaves, and the times of the failures it recorded. */
  datatype Log = Log(row: LockRow, failures: seq<nat>)

  function Run(row: LockRow, attempts: seq<Attempt>): Log {
    if attempts == [] then Log(row, [])
    else Logged(Run(row, attempts[..|attempts| - 1]), attempts[|attempts| - 1])
  }

  function Logged(before: Log, a: Attempt): Log {
    var (after, outcome) := LoginStep(Some(before.row), a);
    if after.None? then before
    else Log(after.value, if outcome == Rejected then before.failures + [a.now] else before.failures)
  }

  predicate Monotone(attempts: seq<Attempt>) {
    forall i, j :: 0 <= i < j < |attempts| ==> attempts[i].now <= attempts[j].now
  }

  /** No attempt of the run gets in, so nothing resets the count. */
  predicate NoReset(row: LockRow, attempts: seq<Attempt>) {
    forall k :: 0 <= k < |attempts| ==> LoginStep(Some(Run(row, attempts[..k]).row), attempts[k]).1 != LoggedIn
  }

  // ---------------------------------------------------------------- what the status reports

  /** A locked-out operator who waits exactly the reported time is let in, and not a millisecond earlier. */
  lemma RetryAfterEndsLock(row: LockRow, now: nat, later: nat)
    requires Status(Some(row), now).locked && now <= later
    ensures Status(Some(row), now).retryAfterMs.Some?
    ensures Status(Some(row), later).locked <==> later < now + Status(Some(row), now).retryAfterMs.value
  {
    hide Backoff;
  }

  /** A delay is reported while locked, and from the third failure on; without a lock it is the back-off. */
  lemma DelayReported(row: LockRow, now: nat)
    ensures var status := Status(Some(row), now);
            && (status.retryAfterMs.Some? <==> status.locked || row.failedAttempts >= 3)
            && (!status.locked && row.failedAttempts >= 3 ==>
                  status.retryAfterMs == Some(Backoff(row.failedAttempts)))
    ensures Status(None, now) == LockStatus(false, None)
  {
    hide Backoff;
  }

  /** The reported back-off starts at a second and doubles with each failure up to the cap. */
  lemma BackoffDoubles(failedAttempts: nat)
    requires failedAttempts >= BACKOFF_THRESHOLD
    ensures Backoff(3) == 1000
    ensures Backoff(failedAttempts + 1) ==
            if 2 * Backoff(failedAttempts) <= 30_000 then 2 * Backoff(failedAttempts) else 30_000
  {
    assert Pow2(failedAttempts + 1 - BACKOFF_THRESHOLD) == 2 * Pow2(failedAttempts - BACKOFF_THRESHOLD);
  }

  /** The delay is enforced exactly when it is a lock: within it, an attempt is refused iff the status was locked. */
  lemma DelayEnforcedExactly(row: LockRow, now: nat, attempt: Attempt)
    requires Status(Some(row), now).retryAfterMs.Some?
    requires now <= attempt.now < now + Status(Some(row), now).retryAfterMs.value
    ensures LoginStep(Some(row), attempt).1 == Refused <==> Status(Some(row), now).locked
  {
    hide Backoff;
  }

  // ---------------------------------------------------------------- the bound

  /** Failure `i` and failure `i + 1` of the log, when at least five were counted by failure `i`. */
  predicate Spaced(failures: seq<nat>, before: nat) {
    forall i :: 0 <= i < |failures| - 1 && before + i + 1 >= HARD_LOCK_THRESHOLD ==>
      failures[i + 1] >= failures[i] + SHORTEST_LOCK_MS
  }

  predicate Counted(row: LockRow, log: Log) {
    && log.row.failedAttempts == row.failedAttempts + |log.failures|
    && (|log.failures| > 0 && log.row.failedAttempts >= HARD_LOCK_THRESHOLD ==>
          log.row.lockedUntil == Some(Seconds(log.failures[|log.failures| - 1] + HARD_LOCK_MS)))
    && Spaced(log.failures, row.failedAttempts)
  }

  /** Once five failures are counted, each further one is at least 899001 ms after the last. */
  lemma {:induction false} FailuresAreSpaced(row: LockRow, attempts: seq<Attempt>)
    requires NoReset(row, attempts)
    ensures Counted(row, Run(row, attempts))
    decreases |attempts|
  {
    hide Counted, Logged;
    if attempts == [] {
      StartCounted(row);
    } else {
      var init, a := attempts[..|attempts| - 1], attempts[|attempts| - 1];
      assert forall k :: 0 <= k < |init| ==> init[..k] == attempts[..k];
      FailuresAreSpaced(row, init);
      assert attempts[..|attempts| - 1] == init;
      AttemptSpaced(row, Run(row, init), a);
    }
  }

  lemma StartCounted(row: LockRow)
    ensures Counted(row, Log(row, []))
  {
  }

  lemma AttemptSpaced(row: LockRow, before: Log, a: Attempt)
    requires Counted(row, before) && LoginStep(Some(before.row), a).1 != LoggedIn
    ensures Counted(row, Logged(before, a))
  {
    hide Backoff;
    var n := |before.failures|;
    if LoginStep(Some(before.row), a).1 == Rejected {
      if n > 0 && before.row.failedAttempts >= HARD_LOCK_THRESHOLD {
        var last := before.failures[n - 1];
        assert Seconds(last + HARD_LOCK_MS) * 1000 <= a.now;
        assert last + SHORTEST_LOCK_MS <= a.now;
      }
      assert Logged(before, a).failures == before.failures + [a.now];
    }
  }

  lemma {:induction false} GapsAdd(failures: seq<nat>, before: nat, i: nat, j: nat)
    requires Spaced(failures, before) && i <= j < |failures| && before + i + 1 >= HARD_LOCK_THRESHOLD
    ensures failures[j] >= failures[i] + (j - i) * SHORTEST_LOCK_MS
    decreases j
  {
    if i < j {
      GapsAdd(failures, before, i, j - 1);
    }
  }

  /** The failures happen in order of time. */
  lemma {:induction false} FailuresInOrder(row: LockRow, attempts: seq<Attempt>)
    requires Monotone(attempts)
    ensures var f := Run(row, attempts).failures;
            && (forall i, j :: 0 <= i <= j < |f| ==> f[i] <= f[j])
            && (f != [] ==> attempts != [] && f[|f| - 1] <= attempts[|attempts| - 1].now)
    decreases |attempts|
  {
    hide Status, Failed;
    if attempts != [] {
      FailuresInOrder(row, attempts[..|attempts| - 1]);
    }
  }

  /** That many shortest locks fit into a window. */
  lemma FitsInto(k: nat, window: nat)
    requires k * SHORTEST_LOCK_MS <= window
    ensures k <= window / SHORTEST_LOCK_MS
  {
  }

  /**
   The guessing bound: however an attacker times the attempts, a window of T ms
   holds at most 5 + T / 899001 recorded failures.
   */
  lemma WindowBound(row: LockRow, attempts: seq<Attempt>, i: nat, j: nat, window: nat)
    requires Monotone(attempts) && NoReset(row, attempts)
    requires i <= j < |Run(row, attempts).failures|
    requires Run(row, attempts).failures[j] - Run(row, attempts).failures[i] <= window
    ensures j - i + 1 <= 5 + window / 899_001
  {
    hide Run;
    FailuresAreSpaced(row, attempts);
    FailuresInOrder(row, attempts);
    var f := Run(row, attempts).failures;
    var first := if i + row.failedAttempts >= HARD_LOCK_THRESHOLD - 1 then i
        else HARD_LOCK_THRESHOLD - 1 - row.failedAttempts;
    if first <= j {
      GapsAdd(f, row.failedAttempts, first, j);
      FitsInto(j - first, window);
    }
  }

  function Repeat<T>(x: T, n: nat): seq<T> {
    if n == 0 then [] else Repeat(x, n - 1) + [x]
  }

  lemma RunNext(row: LockRow, attempts: seq<Attempt>, a: Attempt)
    ensures Run(row, attempts + [a]) == Logged(Run(row, attempts), a)
  {
    hide Logged;
    assert (attempts + [a])[..|attempts|] == attempts;
  }

  /** A bad attempt on an unlocked row is recorded. */
  lemma BadAttempt(before: Log, now: nat)
    requires before.row.lockedUntil == None
    ensures Logged(before, Attempt(now, BadCredentials)) == Log(Failed(before.row, now), before.failures + [now])
  {
    hide Backoff, Failed;
  }

  /**
   The bound is met from the start: the first five failures may all fall in one
   instant. The back-off delay that `status` reports is not enforced by the route.
   */
  lemma {:induction false} FirstFiveUnhindered(now: nat, n: nat)
    requires n <= HARD_LOCK_THRESHOLD
    ensures var log := Run(LockRow(0, None), Repeat(Attempt(now, BadCredentials), n));
            && log.failures == Repeat(now, n)
            && log.row.failedAttempts == n && (n < HARD_LOCK_THRESHOLD ==> log.row.lockedUntil == None)
  {
    if n > 0 {
      hide Run, Logged, Seconds;
      var a := Attempt(now, BadCredentials);
      FirstFiveUnhindered(now, n - 1);
      RunNext(LockRow(0, None), Repeat(a, n - 1), a);
      BadAttempt(Run(LockRow(0, None), Repeat(a, n - 1)), now);
    }
  }
}
