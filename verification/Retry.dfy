/** Retrying with a fixed back-off table; times are nanoseconds. */
module Retry {

  function Minutes(m: nat): nat {
    m * 60_000_000_000
  }

  /** The table, in minutes. */
  const INTERVALS: seq<nat> :=
    [1, 2, 2, 5, 10, 10, 10, 20, 20, 20, 20, 30, 30, 30, 30, 30, 30, 60, 60, 60, 120, 120, 180, 180, 360]

  const MAX_DURATION: nat := Minutes(24 * 60 * 30)

  const MAX_ATTEMPTS: nat := 142

  const LAST: nat := 24

  /** The back-off schedule: the table's entries, and its last one for ever after. */
  function Interval(i: nat): nat {
    if i < 1 then 1 else if i < 3 then 2 else if i < 4 then 5 else if i < 7 then 10 else if i < 11 then 20
    else if i < 17 then 30 else if i < 20 then 60 else if i < 22 then 120 else if i < 24 then 180 else 360
  }

  lemma TableIsSchedule()
    ensures |INTERVALS| == LAST + 1 && Minutes(1) == 60_000_000_000 && MAX_DURATION == 2_592_000_000_000_000
    ensures forall i :: 0 <= i <= LAST ==> INTERVALS[i] == Interval(i)
  {}

  /** The wait before attempt `k`: none before the first. */
  function Wait(k: nat): nat {
    if k == 0 then 0 else Minutes(Interval(k - 1))
  }

  /** The total wait before attempts 0 to `k`. */
  function Waited(k: nat): nat {
    if k == 0 then 0 else Waited(k - 1) + Wait(k)
  }

  lemma WaitedFirst24()
    ensures Waited(24) == Minutes(18 * 60)
  {
    assert Waited(4) == Minutes(10);
    assert Waited(8) == Minutes(60);
    assert Waited(12) == Minutes(150);
    assert Waited(16) == Minutes(270);
    assert Waited(20) == Minutes(480);
  }

  /** Beyond the table's first 24 entries, which add up to 18 hours, every wait is 6 hours. */
  lemma {:induction false} WaitedBeyond(k: nat)
    requires k >= 24
    ensures Waited(k) == Minutes(18 * 60 + 360 * (k - 24))
  {
    if k == 24 {
      WaitedFirst24();
    } else {
      WaitedBeyond(k - 1);
    }
  }

  /** The 30 days are used up by the waits of attempts 0 to 141, and by no fewer. */
  lemma Exhausted(k: nat)
    ensures Waited(k) >= MAX_DURATION <==> k >= MAX_ATTEMPTS - 1
  {
    if k >= 24 {
      WaitedBeyond(k);
    } else {
      WaitedBeyond(24);
      WaitedGrows(k, 24);
    }
  }

  lemma {:induction false} WaitedGrows(j: nat, k: nat)
    requires j <= k
    ensures Waited(j) <= Waited(k)
  {
    if j < k {
      WaitedGrows(j, k - 1);
    }
  }

  datatype Outcome = Success | Cancelled | NoRetry | Failure

  datatype Result = Nil | Error(attempt: nat, outcome: Outcome) | ContextCancelled

  /** The environment of a run: how call `k` ends and how long it takes, how late its timer fires
      (never early), whether the context is done first, and how the clock moves between two looks. */
  datatype Env = Env(outcome: nat -> Outcome, duration: nat -> nat, late: nat -> nat, done: nat -> bool, pause: nat -> nat)

  method LookUp(i: nat) returns (wait: nat)
    requires i <= LAST
    ensures wait == Minutes(Interval(i))
  {
    TableIsSchedule();
    wait := Minutes(INTERVALS[i]);
  }

  function Sum(waits: seq<nat>): nat {
    if waits == [] then 0 else Sum(waits[..|waits| - 1]) + waits[|waits| - 1]
  }

  /** These are the waits before the first attempts. */
  predicate OnSchedule(waits: seq<nat>) {
    waits == [] || (waits[|waits| - 1] == Wait(|waits| - 1) && OnSchedule(waits[..|waits| - 1]))
  }

  lemma {:induction false} OnScheduleFacts(waits: seq<nat>)
    requires OnSchedule(waits)
    ensures forall k :: 0 <= k < |waits| ==> waits[k] == Wait(k)
    ensures waits != [] ==> Sum(waits) == Waited(|waits| - 1)
  {
    if waits != [] {
      OnScheduleFacts(waits[..|waits| - 1]);
    }
  }

  /** Every call fails at once, no timer is late, and nobody cancels. */
  ghost predicate Unlucky(env: Env) {
    forall k :: env.outcome(k) == Failure && env.duration(k) == env.late(k) == env.pause(k) == 0 && !env.done(k)
  }

  /** The time at the end of `k` attempts: each takes its pause, its wait, what the timer is late, and the
      duration of the call. */
  ghost function TimeAfter(env: Env, k: nat): nat {
    if k == 0 then 0 else TimeAfter(env, k - 1) + env.pause(k - 1) + Wait(k - 1) + env.late(k - 1) + env.duration(k - 1)
  }

  lemma {:induction false} TimeCoversWaits(env: Env, waits: seq<nat>)
    requires OnSchedule(waits)
    ensures TimeAfter(env, |waits|) >= Sum(waits)
    ensures Unlucky(env) ==> TimeAfter(env, |waits|) == Sum(waits)
  {
    if waits != [] {
      TimeCoversWaits(env, waits[..|waits| - 1]);
    }
  }

  /** Attempts that have not used up the 30 days are fewer than 142; 142 use them up even by waits alone. */
  lemma AttemptsAndDays(env: Env, waits: seq<nat>)
    requires OnSchedule(waits)
    ensures TimeAfter(env, |waits|) < MAX_DURATION ==> |waits| < MAX_ATTEMPTS
    ensures Unlucky(env) && TimeAfter(env, |waits|) >= MAX_DURATION ==> |waits| >= MAX_ATTEMPTS
  {
    TimeCoversWaits(env, waits);
    OnScheduleFacts(waits);
    if waits != [] {
      Exhausted(|waits| - 1);
    }
  }

  /** Attempt `k` was begun: the 30 days had not passed and nobody had cancelled. */
  ghost predicate Begun(env: Env, k: nat) {
    TimeAfter(env, k) + env.pause(k) < MAX_DURATION && !env.done(k)
  }

  /** The first `k` attempts were begun and failed in a way that is retried. */
  ghost predicate Retried(env: Env, k: nat) {
    k == 0 || (Retried(env, k - 1) && Begun(env, k - 1) && env.outcome(k - 1) == Failure)
  }

  lemma {:induction false} RetriedFacts(env: Env, k: nat)
    requires Retried(env, k)
    ensures forall j :: 0 <= j < k ==> TimeAfter(env, j) + env.pause(j) < MAX_DURATION && !env.done(j) && env.outcome(j) == Failure
  {
    if k > 0 {
      RetriedFacts(env, k - 1);
    }
  }

  lemma OneMoreWait(waits: seq<nat>, wait: nat)
    requires OnSchedule(waits) && wait == Wait(|waits|)
    ensures OnSchedule(waits + [wait])
  {
    assert (waits + [wait])[..|waits|] == waits;
  }

  /** One wait and one call: when it ends and how. */
  method Attempt(env: Env, waits: seq<nat>, intervalIndex: int, elapsed: nat)
    returns (waits': seq<nat>, later: nat, outcome: Outcome)
    requires OnSchedule(waits) && intervalIndex == if |waits| <= LAST then |waits| - 1 else LAST
    requires elapsed == TimeAfter(env, |waits|) + env.pause(|waits|)
    ensures |waits'| == |waits| + 1 && OnSchedule(waits') && outcome == env.outcome(|waits|)
    ensures later == TimeAfter(env, |waits'|)
  {
    var wait := 0;
    if intervalIndex >= 0 {
      wait := LookUp(intervalIndex);
    }
    assert wait == Wait(|waits|);
    OneMoreWait(waits, wait);
    waits' := waits + [wait];
    later := elapsed + wait + env.late(|waits|) + env.duration(|waits|);
    outcome := env.outcome(|waits|);
  }

  /** The loop: the calls made, all but the last retried, and why it ended. */
  method RetryLoop(env: Env) returns (attempts: nat, waits: seq<nat>, elapsed: nat, r: Result)
    ensures attempts == |waits| <= MAX_ATTEMPTS && OnSchedule(waits)
    ensures attempts > 0 ==> Retried(env, attempts - 1) && Begun(env, attempts - 1)
    ensures Ended(env, attempts, elapsed, r)
  {
    attempts, waits, elapsed, r := 0, [], env.pause(0), Nil;
    var intervalIndex := -1;
    while elapsed < MAX_DURATION
      invariant attempts == |waits| <= MAX_ATTEMPTS && OnSchedule(waits)
      invariant elapsed == TimeAfter(env, attempts) + env.pause(attempts)
      invariant attempts > 0 ==> TimeAfter(env, attempts) < MAX_DURATION
      invariant Retried(env, attempts)
      invariant intervalIndex == if attempts <= LAST then attempts - 1 else LAST
      invariant r == if attempts == 0 then Nil else Error(attempts - 1, Failure)
      decreases MAX_ATTEMPTS - attempts
    {
      AttemptsAndDays(env, waits);
      if env.done(attempts) {
        r := ContextCancelled;
        return;
      }
      var outcome;
      waits, elapsed, outcome := Attempt(env, waits, intervalIndex, elapsed);
      r := if outcome == Success then Nil else Error(attempts, outcome);
      attempts := attempts + 1;
      if outcome == Success || outcome == Cancelled {
        return;
      }
      if outcome == NoRetry {
        return;
      }
      if intervalIndex < LAST {
        intervalIndex := intervalIndex + 1;
      }
      if elapsed >= MAX_DURATION {
        r := Nil;
        return;
      }
      elapsed := elapsed + env.pause(attempts);
    }
  }

  /** Why a run ends: the 30 days have passed, at the head of the loop or after a call; the context is done;
      or the last call ended in a way that is not retried. */
  ghost predicate Ended(env: Env, attempts: nat, elapsed: nat, r: Result) {
    var (called, next) := (TimeAfter(env, attempts), TimeAfter(env, attempts) + env.pause(attempts));
    if r == ContextCancelled then
      env.done(attempts) && elapsed == next < MAX_DURATION
    else if attempts == 0 then
      r == Nil && elapsed == next >= MAX_DURATION
    else if env.outcome(attempts - 1) != Failure then
      && elapsed == called
      && r == if env.outcome(attempts - 1) == Success then Nil else Error(attempts - 1, env.outcome(attempts - 1))
    else if called >= MAX_DURATION then
      r == Nil && elapsed == called
    else
      r == Error(attempts - 1, Failure) && elapsed == next >= MAX_DURATION
  }

  lemma UnluckyEnds(env: Env, attempts: nat, waits: seq<nat>, elapsed: nat, r: Result)
    requires attempts == |waits| <= MAX_ATTEMPTS && OnSchedule(waits) && Unlucky(env) && Ended(env, attempts, elapsed, r)
    ensures attempts == MAX_ATTEMPTS && r == Nil
  {
    AttemptsAndDays(env, waits);
  }

  /** At most 142 calls, and 142 if all of them fail at once; they are spaced by the schedule; every
      call but the last failed in a way that is retried; and the result is nil only after a success
      or once the 30 days have run out. */
  method DoWithRetry(env: Env) returns (attempts: nat, waits: seq<nat>, elapsed: nat, r: Result)
    ensures attempts <= 142
    ensures Unlucky(env) ==> attempts == 142 && r == Nil
    ensures |waits| == attempts && forall k :: 0 <= k < attempts ==> waits[k] == Wait(k)
    ensures forall k :: 0 <= k < attempts - 1 ==> env.outcome(k) == Failure
    ensures Ended(env, attempts, elapsed, r)
    ensures r == Nil ==> elapsed >= MAX_DURATION || (attempts > 0 && env.outcome(attempts - 1) == Success)
  {
    attempts, waits, elapsed, r := RetryLoop(env);
    OnScheduleFacts(waits);
    if attempts > 0 {
      RetriedFacts(env, attempts - 1);
    }
    if Unlucky(env) {
      UnluckyEnds(env, attempts, waits, elapsed, r);
    }
  }
}
