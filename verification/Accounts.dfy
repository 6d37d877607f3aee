/** Sign-in state on values: lockout, one-time tokens, sliding sessions, burned handoffs (src/auth/account-store.ts). */
module Accounts {
  import opened Lists

  const SIGNIN_MAX_FAILURES := 5
  const SIGNIN_LOCK_MS := 15 * 60 * 1000

  // ------------------------------------------------------------------------- lockout

  datatype Attempt = Attempt(failures: nat, lockedUntil: Option<int>)

  type Attempts = map<string, Attempt>

  datatype Verdict = Locked | Wrong | Right

  function AttemptOf(attempts: Attempts, email: string): Option<Attempt> {
    if email in attempts then Some(attempts[email]) else None
  }

  function LockedAt(attempt: Option<Attempt>, now: int): bool {
    attempt.Some? && attempt.value.lockedUntil.Some? && attempt.value.lockedUntil.value > now
  }

  function FailedOnce(attempt: Option<Attempt>, now: int): Attempt {
    var failures := (if attempt.Some? then attempt.value.failures else 0) + 1;
    if failures >= SIGNIN_MAX_FAILURES then Attempt(0, Some(now + SIGNIN_LOCK_MS)) else Attempt(failures, None)
  }

  /** One `passwordVerify`; `good` is whether the account exists and the password fits. */
  function Verify(attempts: Attempts, email: string, now: int, good: bool): (Attempts, Verdict) {
    var attempt := AttemptOf(attempts, email);
    if LockedAt(attempt, now) then (attempts, Locked)
    else if !good then (attempts[email := FailedOnce(attempt, now)], Wrong)
    else (attempts - {email}, Right)
  }

  /** At most four counted failures, and none exactly while a lock time is stored. */
  predicate AttemptOk(attempt: Option<Attempt>) {
    attempt.Some? ==>
      attempt.value.failures < SIGNIN_MAX_FAILURES && (attempt.value.failures == 0 <==> attempt.value.lockedUntil.Some?)
  }

  ghost predicate AttemptsOk(attempts: Attempts) {
    forall email :: email in attempts ==> AttemptOk(Some(attempts[email]))
  }

  datatype Call = Call(email: string, now: int, good: bool)

  function AfterCalls(attempts: Attempts, calls: seq<Call>): Attempts
    decreases |calls|
  {
    if calls == [] then attempts
    else AfterCalls(Verify(attempts, calls[0].email, calls[0].now, calls[0].good).0, calls[1..])
  }

  lemma {:induction false} CallsKeepAttemptsOk(attempts: Attempts, calls: seq<Call>)
    requires AttemptsOk(attempts)
    ensures AttemptsOk(AfterCalls(attempts, calls))
    decreases |calls|
  {
    if calls != [] {
      var after := Verify(attempts, calls[0].email, calls[0].now, calls[0].good).0;
      forall email | email in after ensures AttemptOk(Some(after[email])) {
        if email in attempts { assert AttemptOk(Some(attempts[email])); }
      }
      CallsKeepAttemptsOk(after, calls[1..]);
    }
  }

  /** How many of the calls evaluate a wrong password for `email` between `lo` and `hi`. */
  function Evaluations(attempts: Attempts, calls: seq<Call>, email: string, lo: int, hi: int): nat
    decreases |calls|
  {
    if calls == [] then 0
    else
      var (after, verdict) := Verify(attempts, calls[0].email, calls[0].now, calls[0].good);
      (if calls[0].email == email && verdict == Wrong && lo <= calls[0].now <= hi then 1 else 0)
      + Evaluations(after, calls[1..], email, lo, hi)
  }

  ghost predicate InOrder(calls: seq<Call>, from: int) {
    calls == [] || (from <= calls[0].now && InOrder(calls[1..], calls[0].now))
  }

  /** No call signs `email` in between `lo` and `hi`. */
  ghost predicate NoSuccess(attempts: Attempts, calls: seq<Call>, email: string, lo: int, hi: int)
    decreases |calls|
  {
    calls == [] ||
      var (after, verdict) := Verify(attempts, calls[0].email, calls[0].now, calls[0].good);
      !(calls[0].email == email && verdict == Right && lo <= calls[0].now <= hi) &&
        NoSuccess(after, calls[1..], email, lo, hi)
  }

  /** How many wrong passwords can still be evaluated from `now` until `hi`. */
  function Budget(attempt: Option<Attempt>, now: int, hi: int): int {
    var free := if LockedAt(attempt, now) then attempt.value.lockedUntil.value else now;
    var failures := if attempt.Some? && !LockedAt(attempt, now) then attempt.value.failures else 0;
    if free > hi then 0 else (SIGNIN_MAX_FAILURES - failures) + SIGNIN_MAX_FAILURES * ((hi - free) / SIGNIN_LOCK_MS)
  }

  lemma QuotientMonotone(a: int, b: int)
    requires 0 <= a <= b
    ensures 0 <= a / SIGNIN_LOCK_MS <= b / SIGNIN_LOCK_MS
  {
  }

  lemma BudgetShrinks(attempt: Option<Attempt>, now: int, later: int, hi: int)
    requires AttemptOk(attempt) && now <= later
    ensures Budget(attempt, later, hi) <= Budget(attempt, now, hi)
    ensures Budget(attempt, later, hi) >= 0
  {
    var free := if LockedAt(attempt, now) then attempt.value.lockedUntil.value else now;
    var free' := if LockedAt(attempt, later) then attempt.value.lockedUntil.value else later;
    assert free <= free';
    if free' <= hi {
      QuotientMonotone(hi - free', hi - free);
    } else if free <= hi {
      QuotientMonotone(0, hi - free);
    }
  }

  lemma FailureSpendsBudget(attempt: Option<Attempt>, now: int, hi: int)
    requires AttemptOk(attempt) && !LockedAt(attempt, now) && now <= hi
    ensures Budget(Some(FailedOnce(attempt, now)), now, hi) == Budget(attempt, now, hi) - 1
    ensures AttemptOk(Some(FailedOnce(attempt, now)))
  {
    var q := (hi - now) / SIGNIN_LOCK_MS;
    if now + SIGNIN_LOCK_MS <= hi {
      assert (hi - now - SIGNIN_LOCK_MS) / SIGNIN_LOCK_MS == q - 1;
    } else {
      assert q == 0;
    }
  }

  lemma {:induction false} BudgetCoversEvaluations(attempts: Attempts, calls: seq<Call>, email: string, lo: int,
                                                   from: int, hi: int)
    requires AttemptsOk(attempts) && InOrder(calls, from) && lo <= from
    requires NoSuccess(attempts, calls, email, lo, hi)
    ensures Evaluations(attempts, calls, email, lo, hi) <= Budget(AttemptOf(attempts, email), from, hi)
    decreases |calls|
  {
    BudgetShrinks(AttemptOf(attempts, email), from, from, hi);
    if calls != [] {
      var call := calls[0];
      var (after, verdict) := Verify(attempts, call.email, call.now, call.good);
      CallsKeepAttemptsOk(attempts, [call]);
      assert AfterCalls(attempts, [call]) == AfterCalls(after, []) == after;
      BudgetCoversEvaluations(after, calls[1..], email, lo, call.now, hi);
      var attempt := AttemptOf(attempts, email);
      BudgetShrinks(attempt, from, call.now, hi);
      if call.email == email && verdict == Wrong && call.now <= hi {
        FailureSpendsBudget(attempt, call.now, hi);
      } else if call.now > hi {
        NothingLate(after, calls[1..], email, lo, call.now, hi);
      } else {
        assert AttemptOf(after, email) == attempt;
      }
    }
  }

  lemma {:induction false} NothingLate(attempts: Attempts, calls: seq<Call>, email: string, lo: int, from: int, hi: int)
    requires InOrder(calls, from) && from > hi
    ensures Evaluations(attempts, calls, email, lo, hi) == 0
    decreases |calls|
  {
    if calls != [] {
      var after := Verify(attempts, calls[0].email, calls[0].now, calls[0].good).0;
      NothingLate(after, calls[1..], email, lo, calls[0].now, hi);
    }
  }

  /**
   In any window of length `width` without a success, calls made one after the other on any emails
   evaluate at most 5 * (width / 15 min + 1) wrong passwords for one email.
   */
  lemma {:induction false} EvaluationsBounded(attempts: Attempts, calls: seq<Call>, email: string, from: int, lo: int,
                                              width: nat)
    requires AttemptsOk(attempts) && InOrder(calls, from)
    requires NoSuccess(attempts, calls, email, lo, lo + width)
    ensures Evaluations(attempts, calls, email, lo, lo + width) <= SIGNIN_MAX_FAILURES * (width / SIGNIN_LOCK_MS + 1)
    decreases |calls|
  {
    if calls != [] {
      var call := calls[0];
      if call.now < lo {
        var after := Verify(attempts, call.email, call.now, call.good).0;
        CallsKeepAttemptsOk(attempts, [call]);
        assert AfterCalls(attempts, [call]) == AfterCalls(after, []) == after;
        EvaluationsBounded(after, calls[1..], email, call.now, lo, width);
      } else {
        BudgetCoversEvaluations(attempts, calls, email, lo, call.now, lo + width);
        BudgetShrinks(AttemptOf(attempts, email), lo, call.now, lo + width);
        WholeBudget(AttemptOf(attempts, email), lo, width);
      }
    }
  }

  lemma WholeBudget(attempt: Option<Attempt>, lo: int, width: nat)
    requires AttemptOk(attempt)
    ensures Budget(attempt, lo, lo + width) <= SIGNIN_MAX_FAILURES * (width / SIGNIN_LOCK_MS + 1)
  {
    if LockedAt(attempt, lo) && attempt.value.lockedUntil.value <= lo + width {
      QuotientMonotone(lo + width - attempt.value.lockedUntil.value, width);
    }
  }

  function Repeat(call: Call, n: nat): seq<Call> {
    if n == 0 then [] else [call] + Repeat(call, n - 1)
  }

  /** Five failures at `at`, five more the moment each lock ends. */
  function Bursts(email: string, at: int, n: nat): seq<Call>
    decreases n
  {
    if n == 0 then [] else Repeat(Call(email, at, false), 5) + Bursts(email, at + SIGNIN_LOCK_MS, n - 1)
  }

  /** The bound is reached in every window, by calls in order that never succeed. */
  lemma EvaluationsBoundReached(email: string, width: nat)
    ensures var calls := Bursts(email, 0, width / SIGNIN_LOCK_MS + 1);
      && InOrder(calls, 0) && NoSuccess(map[], calls, email, 0, width)
      && Evaluations(map[], calls, email, 0, width) == SIGNIN_MAX_FAILURES * (width / SIGNIN_LOCK_MS + 1)
  {
    var n := width / SIGNIN_LOCK_MS + 1;
    BurstsInOrder(email, 0, n);
    BurstsFail(email, 0, n);
    WrongNeverSucceeds(map[], Bursts(email, 0, n), email, 0, width);
    BurstsCount(map[], email, 0, n, 0, width);
  }

  lemma {:induction false} BurstsCount(attempts: Attempts, email: string, at: int, n: nat, lo: int, hi: int)
    requires lo <= at && (n > 0 ==> at + (n - 1) * SIGNIN_LOCK_MS <= hi)
    requires !LockedAt(AttemptOf(attempts, email), at)
    requires email in attempts ==> attempts[email].failures == 0
    ensures Evaluations(attempts, Bursts(email, at, n), email, lo, hi) == SIGNIN_MAX_FAILURES * n
    decreases n
  {
    if n > 0 {
      var later := at + SIGNIN_LOCK_MS;
      Streak(attempts, Call(email, at, false), 5, Bursts(email, later, n - 1), lo, hi);
      BurstsCount(attempts[email := Attempt(0, Some(later))], email, later, n - 1, lo, hi);
    }
  }

  lemma {:induction false} RepeatThen(call: Call, n: nat, rest: seq<Call>)
    requires InOrder(rest, call.now)
    ensures InOrder(Repeat(call, n) + rest, call.now)
    decreases n
  {
    if n == 0 {
      assert Repeat(call, 0) + rest == rest;
    } else {
      RepeatThen(call, n - 1, rest);
      assert (Repeat(call, n) + rest)[1..] == Repeat(call, n - 1) + rest;
    }
  }

  lemma EarlierOrder(calls: seq<Call>, from: int, earlier: int)
    requires InOrder(calls, from) && earlier <= from
    ensures InOrder(calls, earlier)
  {
  }

  lemma {:induction false} BurstsInOrder(email: string, at: int, n: nat)
    ensures InOrder(Bursts(email, at, n), at)
    decreases n
  {
    if n > 0 {
      BurstsInOrder(email, at + SIGNIN_LOCK_MS, n - 1);
      EarlierOrder(Bursts(email, at + SIGNIN_LOCK_MS, n - 1), at + SIGNIN_LOCK_MS, at);
      RepeatThen(Call(email, at, false), 5, Bursts(email, at + SIGNIN_LOCK_MS, n - 1));
    }
  }

  ghost predicate AllWrong(calls: seq<Call>) {
    forall call :: call in calls ==> !call.good
  }

  lemma {:induction false} RepeatFails(call: Call, n: nat)
    requires !call.good
    ensures AllWrong(Repeat(call, n))
  {
    if n > 0 { RepeatFails(call, n - 1); }
  }

  lemma {:induction false} BurstsFail(email: string, at: int, n: nat)
    ensures AllWrong(Bursts(email, at, n))
    decreases n
  {
    if n > 0 {
      RepeatFails(Call(email, at, false), 5);
      BurstsFail(email, at + SIGNIN_LOCK_MS, n - 1);
    }
  }

  lemma {:induction false} WrongNeverSucceeds(attempts: Attempts, calls: seq<Call>, email: string, lo: int, hi: int)
    requires AllWrong(calls)
    ensures NoSuccess(attempts, calls, email, lo, hi)
    decreases |calls|
  {
    if calls != [] {
      assert !calls[0].good && forall call :: call in calls[1..] ==> call in calls;
      WrongNeverSucceeds(Verify(attempts, calls[0].email, calls[0].now, calls[0].good).0, calls[1..], email, lo, hi);
    }
  }

  /** `n` failures in a row, the last of which locks. */
  lemma {:induction false} Streak(attempts: Attempts, call: Call, n: nat, rest: seq<Call>, lo: int, hi: int)
    requires !call.good && lo <= call.now <= hi && 1 <= n <= 5
    requires !LockedAt(AttemptOf(attempts, call.email), call.now)
    requires (if call.email in attempts then attempts[call.email].failures else 0) == SIGNIN_MAX_FAILURES - n
    ensures Evaluations(attempts, Repeat(call, n) + rest, call.email, lo, hi)
         == n + Evaluations(attempts[call.email := Attempt(0, Some(call.now + SIGNIN_LOCK_MS))], rest,
           call.email, lo, hi)
    decreases n
  {
    var after := attempts[call.email := FailedOnce(AttemptOf(attempts, call.email), call.now)];
    var more := Repeat(call, n - 1) + rest;
    assert Repeat(call, n) + rest == [call] + more;
    assert ([call] + more)[1..] == more;
    if n > 1 {
      Streak(after, call, n - 1, rest, lo, hi);
      assert after[call.email := Attempt(0, Some(call.now + SIGNIN_LOCK_MS))]
          == attempts[call.email := Attempt(0, Some(call.now + SIGNIN_LOCK_MS))];
    } else {
      assert more == rest;
    }
  }

  // -------------------------------------------------------------------------- burning

  /** `app_handoffs`: when a burned id may be forgotten. */
  type Burned = map<string, int>

  function PurgeBurned(burned: Burned, now: int): Burned {
    map jti | jti in burned && burned[jti] > now :: burned[jti]
  }

  /** `appHandoffBurn`. */
  function Burn(burned: Burned, jti: string, expiresAt: int, now: int): (Burned, bool) {
    var kept := PurgeBurned(burned, now);
    if jti in kept then (kept, false) else (kept[jti := expiresAt], true)
  }

  datatype BurnCall = BurnCall(jti: string, now: int)

  /** The table after the calls; `expiry` is the `exp` claim each token id was minted with. */
  function AfterBurns(calls: seq<BurnCall>, expiry: string -> int): Burned {
    if calls == [] then map[]
    else
      var last := calls[|calls| - 1];
      Burn(AfterBurns(calls[..|calls| - 1], expiry), last.jti, expiry(last.jti), last.now).0
  }

  function BurnOk(calls: seq<BurnCall>, expiry: string -> int, k: nat): bool
    requires k < |calls|
  {
    Burn(AfterBurns(calls[..k], expiry), calls[k].jti, expiry(calls[k].jti), calls[k].now).1
  }

  ghost predicate BurnsInOrder(calls: seq<BurnCall>) {
    forall i, j :: 0 <= i < j < |calls| ==> calls[i].now <= calls[j].now
  }

  ghost predicate BurnedBefore(calls: seq<BurnCall>, jti: string) {
    exists i :: 0 <= i < |calls| && calls[i].jti == jti
  }

  /** The purge never forgets an id that a consume could still get past the expiry check with. */
  lemma {:induction false} BurnedIsRemembered(calls: seq<BurnCall>, expiry: string -> int, jti: string, now: int)
    requires BurnsInOrder(calls) && forall i :: 0 <= i < |calls| ==> calls[i].now <= now
    ensures jti in AfterBurns(calls, expiry) ==>
      BurnedBefore(calls, jti) && AfterBurns(calls, expiry)[jti] == expiry(jti)
    ensures BurnedBefore(calls, jti) && now < expiry(jti) ==> jti in AfterBurns(calls, expiry)
    decreases |calls|
  {
    if calls != [] {
      var n := |calls| - 1;
      var front := calls[..n];
      BurnedIsRemembered(front, expiry, jti, calls[n].now);
      if calls[n].jti == jti {
        BurnedIsRemembered(front, expiry, calls[n].jti, calls[n].now);
      }
      if BurnedBefore(calls, jti) && calls[n].jti != jti {
        var i :| 0 <= i < |calls| && calls[i].jti == jti;
        assert front[i].jti == jti;
      }
      if BurnedBefore(front, jti) {
        var i :| 0 <= i < |front| && front[i].jti == jti;
        assert calls[i].jti == jti;
      }
    }
  }

  /**
   In every run with a nondecreasing clock, a burn succeeds exactly when it is the first for its
   token or the registry's clock has already reached the token's expiry.
   */
  lemma BurnOkIff(calls: seq<BurnCall>, expiry: string -> int, k: nat)
    requires BurnsInOrder(calls) && k < |calls|
    ensures BurnOk(calls, expiry, k) <==>
      !BurnedBefore(calls[..k], calls[k].jti) || calls[k].now >= expiry(calls[k].jti)
  {
    BurnedIsRemembered(calls[..k], expiry, calls[k].jti, calls[k].now);
  }

  /** Every token is accepted at most once exactly when no token is burned again at or past its expiry. */
  lemma AcceptedOnceIff(calls: seq<BurnCall>, expiry: string -> int)
    requires BurnsInOrder(calls)
    ensures (forall i, k :: 0 <= i < k < |calls| && calls[i].jti == calls[k].jti ==>
              !(BurnOk(calls, expiry, i) && BurnOk(calls, expiry, k)))
       <==> forall i, k :: 0 <= i < k < |calls| && calls[i].jti == calls[k].jti ==> calls[k].now < expiry(calls[k].jti)
  {
    forall k | 0 <= k < |calls|
      ensures BurnOk(calls, expiry, k) <==>
        !BurnedBefore(calls[..k], calls[k].jti) || calls[k].now >= expiry(calls[k].jti)
    {
      BurnOkIff(calls, expiry, k);
    }
    if i, k :| 0 <= i < k < |calls| && calls[i].jti == calls[k].jti && calls[k].now >= expiry(calls[k].jti) {
      var first := FirstBurn(calls, i);
      assert calls[..k][i].jti == calls[k].jti;
      assert BurnOk(calls, expiry, first) && BurnOk(calls, expiry, k);
    } else {
      forall i, k | 0 <= i < k < |calls| && calls[i].jti == calls[k].jti ensures !BurnOk(calls, expiry, k) {
        assert calls[..k][i].jti == calls[k].jti;
      }
    }
  }

  /** The first call for the token of call `i`. */
  lemma {:induction false} FirstBurn(calls: seq<BurnCall>, i: nat) returns (first: nat)
    requires i < |calls|
    ensures first <= i && calls[first].jti == calls[i].jti && !BurnedBefore(calls[..first], calls[i].jti)
  {
    if BurnedBefore(calls[..i], calls[i].jti) {
      var j :| 0 <= j < i && calls[..i][j].jti == calls[i].jti;
      first := FirstBurn(calls, j);
    } else {
      first := i;
    }
  }
}
