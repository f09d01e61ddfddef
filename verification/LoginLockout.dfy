/**
 core/crypto/auth.js, the login lockout: `_checkLockout`, `_recordFailedLogin` and `_clearFailedLogins`
 around a login whose password check has a given outcome, one login at a time.
 */
module LoginLockout {
  import opened Results

  const MAX_LOGIN_ATTEMPTS: int := 5
  const LOCKOUT_DURATION: int := 15 * 60 * 1000

  /** A lockedUntil of 0 is falsy, which is also how the source represents "not locked". */
  datatype Attempts = Attempts(count: nat, lockedUntil: int)

  type Table = map<string, Attempts>

  datatype Outcome = Blocked | Failed | Succeeded

  /** One login: the clock at the lockout check and when its outcome is recorded. */
  datatype Login = Login(ip: string, correct: bool, checkedAt: nat, recordedAt: nat)

  predicate Locked(table: Table, ip: string, now: nat) {
    ip in table && table[ip].lockedUntil != 0 && now < table[ip].lockedUntil
  }

  function AfterCheck(table: Table, ip: string, now: nat): Table {
    if ip in table && table[ip].lockedUntil != 0 && !(now < table[ip].lockedUntil) then table - {ip} else table
  }

  function AfterFailure(table: Table, ip: string, now: nat, max: int, duration: int): Table {
    var attempts := if ip in table then table[ip] else Attempts(0, 0);
    var count := attempts.count + 1;
    table[ip := Attempts(count, if count >= max then now + duration else attempts.lockedUntil)]
  }

  function OutcomeOf(table: Table, e: Login): Outcome {
    if Locked(table, e.ip, e.checkedAt) then Blocked else if e.correct then Succeeded else Failed
  }

  function AfterLogin(table: Table, e: Login, max: int, duration: int): Table {
    var checked := AfterCheck(table, e.ip, e.checkedAt);
    match OutcomeOf(table, e)
    case Blocked => checked
    case Failed => AfterFailure(checked, e.ip, e.recordedAt, max, duration)
    case Succeeded => checked - {e.ip}
  }

  class AuthManager {
    const maxLoginAttempts: int
    const lockoutDuration: int
    var loginAttempts: Table

    /** An option that is given is kept as it is, 0 included; the defaults are for absent ones. */
    constructor (maxLoginAttempts: Option<int>, lockoutDuration: Option<int>)
      ensures this.maxLoginAttempts == if maxLoginAttempts.Some? then maxLoginAttempts.value else 5
      ensures this.lockoutDuration == if lockoutDuration.Some? then lockoutDuration.value else 15 * 60 * 1000
      ensures loginAttempts == map[]
    {
      this.maxLoginAttempts := if maxLoginAttempts.Some? then maxLoginAttempts.value else MAX_LOGIN_ATTEMPTS;
      this.lockoutDuration := if lockoutDuration.Some? then lockoutDuration.value else LOCKOUT_DURATION;
      loginAttempts := map[];
    }

    method CheckLockout(ip: string, now: nat) returns (locked: bool, remaining: int)
      modifies `loginAttempts
      ensures locked == Locked(old(loginAttempts), ip, now)
      ensures locked ==> remaining == old(loginAttempts)[ip].lockedUntil - now > 0
      ensures loginAttempts == AfterCheck(old(loginAttempts), ip, now)
    {
      if ip !in loginAttempts {
        return false, 0;
      }
      var attempts := loginAttempts[ip];
      if attempts.lockedUntil != 0 && now < attempts.lockedUntil {
        return true, attempts.lockedUntil - now;
      }
      if attempts.lockedUntil != 0 {
        loginAttempts := loginAttempts - {ip};
      }
      return false, 0;
    }

    method RecordFailedLogin(ip: string, now: nat)
      modifies `loginAttempts
      ensures loginAttempts == AfterFailure(old(loginAttempts), ip, now, maxLoginAttempts, lockoutDuration)
    {
      var attempts := if ip in loginAttempts then loginAttempts[ip] else Attempts(0, 0);
      attempts := attempts.(count := attempts.count + 1);
      if attempts.count >= maxLoginAttempts {
        attempts := attempts.(lockedUntil := now + lockoutDuration);
      }
      loginAttempts := loginAttempts[ip := attempts];
    }

    method ClearFailedLogins(ip: string)
      modifies `loginAttempts
      ensures loginAttempts == old(loginAttempts) - {ip}
    {
      loginAttempts := loginAttempts - {ip};
    }

    method TryLogin(e: Login) returns (outcome: Outcome)
      modifies `loginAttempts
      ensures outcome == OutcomeOf(old(loginAttempts), e)
      ensures loginAttempts == AfterLogin(old(loginAttempts), e, maxLoginAttempts, lockoutDuration)
    {
      var locked, _ := CheckLockout(e.ip, e.checkedAt);
      if locked {
        return Blocked;
      }
      if !e.correct {
        RecordFailedLogin(e.ip, e.recordedAt);
        return Failed;
      }
      ClearFailedLogins(e.ip);
      return Succeeded;
    }
  }

  // ---------------------------------------------------------------------------
  // Runs
  // ---------------------------------------------------------------------------

  predicate Monotone(run: seq<Login>) {
    && (forall e <- run :: e.checkedAt <= e.recordedAt)
    && (forall i, j :: 0 <= i < j < |run| ==> run[i].recordedAt <= run[j].checkedAt)
  }

  /** The table before login n of a run. */
  function Before(run: seq<Login>, n: nat, max: int, duration: int): Table
    requires n <= |run|
  {
    if n == 0 then map[] else AfterLogin(Before(run, n - 1, max, duration), run[n - 1], max, duration)
  }

  function OutcomeAt(run: seq<Login>, n: nat, max: int, duration: int): Outcome
    requires n < |run|
  {
    OutcomeOf(Before(run, n, max, duration), run[n])
  }

  predicate FailsAt(run: seq<Login>, ip: string, n: nat, max: int, duration: int)
    requires n < |run|
  {
    run[n].ip == ip && OutcomeAt(run, n, max, duration) == Failed
  }

  predicate SucceedsAt(run: seq<Login>, ip: string, n: nat, max: int, duration: int)
    requires n < |run|
  {
    run[n].ip == ip && OutcomeAt(run, n, max, duration) == Succeeded
  }

  /** How many logins i, ..., n-1 of an address failed. */
  function Failures(run: seq<Login>, ip: string, i: nat, n: nat, max: int, duration: int): nat
    requires i <= n <= |run|
    decreases n
  {
    if i == n then 0
    else Failures(run, ip, i, n - 1, max, duration) + if FailsAt(run, ip, n - 1, max, duration) then 1 else 0
  }

  /** The count at which a failure locks: the first failure does, whatever smaller limit is set. */
  function Limit(max: int): int {
    if max < 1 then 1 else max
  }

  /** Until the first failure that comes a whole lockout after failure i, the counter has counted them all. */
  predicate Counted(run: seq<Login>, ip: string, i: nat, n: nat, max: int, duration: int)
    requires i < n <= |run|
  {
    var table := Before(run, n, max, duration);
    && ip in table
    && Failures(run, ip, i, n, max, duration) <= table[ip].count <= Limit(max)
    && (if table[ip].count < Limit(max) then table[ip].lockedUntil == 0
        else table[ip].lockedUntil >= run[i].recordedAt + duration)
  }

  ghost predicate Spaced(run: seq<Login>, ip: string, i: nat, n: nat, max: int, duration: int)
    requires i < n <= |run|
  {
    exists k: nat :: i < k < n && FailsAt(run, ip, k, max, duration) && run[k].checkedAt >= run[i].recordedAt + duration
  }

  /** The counter stays below the limit until it locks, and every lock lies in the future when it is set. */
  lemma {:induction false} TableShape(run: seq<Login>, ip: string, n: nat, max: int, duration: int)
    requires n <= |run| && duration > 0
    ensures var table := Before(run, n, max, duration);
            ip in table ==> table[ip].count >= 1 && (table[ip].lockedUntil == 0 <==> table[ip].count < Limit(max))
    ensures var table := Before(run, n, max, duration);
            ip in table ==> table[ip].count <= Limit(max) && table[ip].lockedUntil >= 0
    decreases n
  {
    if n > 0 {
      TableShape(run, ip, n - 1, max, duration);
    }
  }

  lemma {:induction false} CountedOrSpaced(run: seq<Login>, ip: string, i: nat, n: nat, max: int, duration: int)
    requires Monotone(run) && duration > 0
    requires i < n <= |run| && FailsAt(run, ip, i, max, duration)
    requires forall k: nat | i < k < n :: !SucceedsAt(run, ip, k, max, duration)
    ensures Counted(run, ip, i, n, max, duration) || Spaced(run, ip, i, n, max, duration)
    decreases n
  {
    if n == i + 1 {
      TableShape(run, ip, i, max, duration);
      assert Failures(run, ip, i, i, max, duration) == 0;
    } else {
      CountedOrSpaced(run, ip, i, n - 1, max, duration);
      assert run[i].recordedAt <= run[n - 1].checkedAt <= run[n - 1].recordedAt by {
        assert run[n - 1] in run;
      }
      assert !SucceedsAt(run, ip, n - 1, max, duration);
    }
  }

  lemma {:induction false} FirstCounts(run: seq<Login>, ip: string, i: nat, n: nat, max: int, duration: int)
    requires i < n <= |run| && FailsAt(run, ip, i, max, duration)
    ensures Failures(run, ip, i, n, max, duration) >= 1
    decreases n
  {
    if n > i + 1 {
      FirstCounts(run, ip, i, n - 1, max, duration);
    }
  }

  lemma TooManyToCount(run: seq<Login>, ip: string, i: nat, j: nat, max: int, duration: int)
    requires i < j < |run| && FailsAt(run, ip, i, max, duration) && FailsAt(run, ip, j, max, duration)
    requires Failures(run, ip, i, j + 1, max, duration) > max
    ensures !Counted(run, ip, i, j + 1, max, duration)
  {
    FirstCounts(run, ip, i, j, max, duration);
    assert Failures(run, ip, i, j + 1, max, duration) > Limit(max);
  }

  lemma LaterIsLater(run: seq<Login>, ip: string, i: nat, j: nat, max: int, duration: int)
    requires Monotone(run) && i < j < |run| && Spaced(run, ip, i, j + 1, max, duration)
    ensures run[j].checkedAt - run[i].recordedAt >= duration
  {
    var k: nat :| i < k < j + 1 && FailsAt(run, ip, k, max, duration)
               && run[k].checkedAt >= run[i].recordedAt + duration;
    assert run[k] in run;
    assert k < j ==> run[k].recordedAt <= run[j].checkedAt;
  }

  /**
   From the record of one failed login of an address to the check of a later one, with no successful login
   of it between them and more than `max` failures in all, at least a whole lockout passes, whatever the options.
   */
  lemma FailuresPerWindow(run: seq<Login>, ip: string, i: nat, j: nat, max: int, duration: int)
    requires Monotone(run)
    requires i < j < |run| && FailsAt(run, ip, i, max, duration) && FailsAt(run, ip, j, max, duration)
    requires forall k: nat | i < k < j :: !SucceedsAt(run, ip, k, max, duration)
    requires Failures(run, ip, i, j + 1, max, duration) > max
    ensures run[j].checkedAt - run[i].recordedAt >= duration
  {
    if duration > 0 {
      TooManyToCount(run, ip, i, j, max, duration);
      CountedOrSpaced(run, ip, i, j + 1, max, duration);
      LaterIsLater(run, ip, i, j, max, duration);
    }
  }

  /** Once a lock is over the count starts again: unless one failure is enough, the next one does not lock. */
  lemma CountsAfresh(run: seq<Login>, n: nat, max: int, duration: int)
    requires n < |run| && !run[n].correct && max >= 2
    requires var table := Before(run, n, max, duration);
             && run[n].ip in table && table[run[n].ip].lockedUntil != 0
             && table[run[n].ip].lockedUntil <= run[n].checkedAt
    ensures var table := Before(run, n + 1, max, duration);
            OutcomeAt(run, n, max, duration) == Failed && run[n].ip in table && table[run[n].ip] == Attempts(1, 0)
  {
  }

  /** n rounds of a wrong and then a right password, all at one time. */
  function Alternating(ip: string, n: nat, now: nat): (run: seq<Login>)
    ensures |run| == 2 * n
    ensures forall k: nat | k < 2 * n :: run[k] == Login(ip, k % 2 == 1, now, now)
  {
    if n == 0 then [] else Alternating(ip, n - 1, now) + [Login(ip, false, now, now), Login(ip, true, now, now)]
  }

  /** The proviso is needed: a success clears the counter, and any number of failures can alternate with them. */
  lemma {:induction false} SuccessesReset(ip: string, rounds: nat, n: nat, now: nat, max: int, duration: int)
    requires n <= rounds && max >= 2
    ensures var run := Alternating(ip, rounds, now);
            && Monotone(run)
            && ip !in Before(run, 2 * n, max, duration)
            && Failures(run, ip, 0, 2 * n, max, duration) == n
    decreases n
  {
    if n > 0 {
      SuccessesReset(ip, rounds, n - 1, now, max, duration);
    }
  }

  /** What locks an address: a failed login of it, for exactly the duration. */
  ghost predicate LockedSince(run: seq<Login>, ip: string, n: nat, until: int, max: int, duration: int)
    requires n <= |run|
  {
    exists k: nat :: k < n && FailsAt(run, ip, k, max, duration) && until == run[k].recordedAt + duration
  }

  lemma {:induction false} LockHasCause(run: seq<Login>, ip: string, n: nat, max: int, duration: int)
    requires n <= |run|
    ensures var table := Before(run, n, max, duration);
            ip in table && table[ip].lockedUntil != 0
            ==> LockedSince(run, ip, n, table[ip].lockedUntil, max, duration)
    decreases n
  {
    if n > 0 {
      LockHasCause(run, ip, n - 1, max, duration);
      var before, table := Before(run, n - 1, max, duration), Before(run, n, max, duration);
      if ip in table && table[ip].lockedUntil != 0 {
        if FailsAt(run, ip, n - 1, max, duration) && table[ip].lockedUntil == run[n - 1].recordedAt + duration {
        } else {
          assert ip in before && before[ip].lockedUntil == table[ip].lockedUntil;
          var k: nat :| k < n - 1 && FailsAt(run, ip, k, max, duration)
                     && table[ip].lockedUntil == run[k].recordedAt + duration;
          assert k < n;
        }
      }
    }
  }

  /** The count is of failures with no success among them, and only from `max` of them on is there a lock. */
  ghost predicate CountIsReal(run: seq<Login>, ip: string, n: nat, max: int, duration: int)
    requires n <= |run|
  {
    var table := Before(run, n, max, duration);
    ip in table ==>
      && (table[ip].lockedUntil != 0 ==> table[ip].count >= max)
      && exists i: nat :: i <= n && Failures(run, ip, i, n, max, duration) >= table[ip].count
                          && NoSuccess(run, ip, i, n, max, duration)
  }

  ghost predicate NoSuccess(run: seq<Login>, ip: string, i: nat, n: nat, max: int, duration: int)
    requires n <= |run|
  {
    forall k: nat | i <= k < n :: !SucceedsAt(run, ip, k, max, duration)
  }

  lemma {:induction false} CountsFailures(run: seq<Login>, ip: string, n: nat, max: int, duration: int)
    requires n <= |run|
    ensures CountIsReal(run, ip, n, max, duration)
    decreases n
  {
    if n > 0 {
      CountsFailures(run, ip, n - 1, max, duration);
      var before, table := Before(run, n - 1, max, duration), Before(run, n, max, duration);
      if ip in table {
        var i: nat := n - 1;
        if !FailsAt(run, ip, n - 1, max, duration) || table[ip].count != 1 {
          i :| i <= n - 1 && Failures(run, ip, i, n - 1, max, duration) >= before[ip].count
               && NoSuccess(run, ip, i, n - 1, max, duration);
        }
        assert Failures(run, ip, i, n, max, duration) >= table[ip].count;
        assert NoSuccess(run, ip, i, n, max, duration);
      }
    }
  }

  /**
   A lock ends, and has its reason: a login is blocked only within the duration after a failed one of the same
   address, and after at least `max` failures of it without a success between them.
   */
  lemma BlockedWithinDuration(run: seq<Login>, n: nat, max: int, duration: int) returns (k: nat, i: nat)
    requires n < |run| && OutcomeAt(run, n, max, duration) == Blocked
    ensures k < n && FailsAt(run, run[n].ip, k, max, duration)
    ensures run[n].checkedAt < run[k].recordedAt + duration
    ensures i <= n && Failures(run, run[n].ip, i, n, max, duration) >= max
    ensures NoSuccess(run, run[n].ip, i, n, max, duration)
  {
    LockHasCause(run, run[n].ip, n, max, duration);
    CountsFailures(run, run[n].ip, n, max, duration);
    i :| i <= n && Failures(run, run[n].ip, i, n, max, duration) >= Before(run, n, max, duration)[run[n].ip].count
         && NoSuccess(run, run[n].ip, i, n, max, duration);
    var until := Before(run, n, max, duration)[run[n].ip].lockedUntil;
    k :| k < n && FailsAt(run, run[n].ip, k, max, duration) && until == run[k].recordedAt + duration;
  }
}
