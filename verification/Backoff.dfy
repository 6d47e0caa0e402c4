/** The reconnection policy and its delays. */
module Backoff {
  import opened Words
  import opened Sockets

  // std::chrono::milliseconds counts in a signed 64-bit integer.
  const TICK_MAX := 0x7FFF_FFFF_FFFF_FFFF
  type Tick = t: int | -TICK_MAX - 1 <= t <= TICK_MAX

  const HARD_ATTEMPT_LIMIT: nat := 1024

  datatype ReconnectPolicy = ReconnectPolicy(maxAttempts: nat, initialDelay: Tick, maximumDelay: Tick) {
    predicate Valid() {
      && maxAttempts > 0
      && maxAttempts <= HARD_ATTEMPT_LIMIT
      && initialDelay >= 0
      && maximumDelay >= initialDelay
    }
  }

  const DEFAULT_POLICY := ReconnectPolicy(3, 10, 1000)

  // delay * 2 on the tick type. Beyond its range the result is undefined: any tick may come out.
  method Double(delay: Tick) returns (r: Tick, ghost overflowed: bool)
    requires delay >= 0
    ensures overflowed <==> 2 * delay > TICK_MAX
    ensures 2 * delay <= TICK_MAX ==> r == 2 * delay
  {
    overflowed := 2 * delay > TICK_MAX;
    if 2 * delay > TICK_MAX {
      r :| -TICK_MAX - 1 <= r <= TICK_MAX;
    } else {
      r := 2 * delay;
    }
  }

  // initial * 2^k
  function Scaled(initial: nat, k: nat): (r: nat) {
    if k == 0 then initial else 2 * Scaled(initial, k - 1)
  }

  // The k-th delay: the initial delay doubled k times, capped.
  function DelayAt(policy: ReconnectPolicy, k: nat): (r: nat)
    requires policy.Valid()
    ensures r <= policy.maximumDelay
  {
    Min(Scaled(policy.initialDelay, k), policy.maximumDelay)
  }

  // The pause between the k-th failure and the next attempt; a zero delay never sleeps.
  function Pause(policy: ReconnectPolicy, k: nat): (r: seq<Effect>)
    requires policy.Valid()
  {
    if DelayAt(policy, k) == 0 then [] else [Slept(DelayAt(policy, k))]
  }

  // What one attempt to connect looks like from outside.
  function AttemptOnce(query: Query, succeeded: bool): (r: seq<Effect>) {
    [Queried(query), Attempted(succeeded)]
  }

  // n attempts of which all but the last failed, with the pauses between them.
  function AttemptLog(query: Query, policy: ReconnectPolicy, n: nat, succeeded: bool): (r: seq<Effect>)
    requires policy.Valid()
  {
    if n == 0 then []
    else if n == 1 then AttemptOnce(query, succeeded)
    else AttemptLog(query, policy, n - 1, false) + Pause(policy, n - 2) + AttemptOnce(query, succeeded)
  }

  // The doublings performed over n attempts stay within the tick type.
  ghost predicate FitsFor(policy: ReconnectPolicy, n: nat)
    requires policy.Valid()
  {
    forall k :: 0 <= k < n - 1 ==> 2 * DelayAt(policy, k) <= TICK_MAX
  }

  // So they do on the longest run.
  ghost predicate NeverOverflows(policy: ReconnectPolicy)
    requires policy.Valid()
  {
    FitsFor(policy, policy.maxAttempts)
  }

  // The next delay is the capped double of the last.
  lemma NextDelay(policy: ReconnectPolicy, k: nat)
    requires policy.Valid()
    ensures DelayAt(policy, 0) == policy.initialDelay
    ensures DelayAt(policy, k + 1) == Min(2 * DelayAt(policy, k), policy.maximumDelay)
  {
  }

  // n failed attempts with the pauses between them, and the pause after the last where one follows.
  ghost function Waited(query: Query, policy: ReconnectPolicy, n: nat, pausing: bool): (r: seq<Effect>)
    requires policy.Valid()
  {
    AttemptLog(query, policy, n, false) + if n > 0 && pausing then Pause(policy, n - 1) else []
  }

  lemma NothingYet(query: Query, policy: ReconnectPolicy)
    requires policy.Valid()
    ensures Waited(query, policy, 0, true) == []
  {
  }

  lemma NextAttempt(query: Query, policy: ReconnectPolicy, n: nat, succeeded: bool, before: seq<Effect>)
    requires policy.Valid()
    ensures before + Waited(query, policy, n, true) + AttemptOnce(query, succeeded)
         == before + AttemptLog(query, policy, n + 1, succeeded)
  {
    hide Pause;
    assert Waited(query, policy, n, true) + AttemptOnce(query, succeeded)
        == AttemptLog(query, policy, n + 1, succeeded);
  }

  lemma NextWait(query: Query, policy: ReconnectPolicy, n: nat, pausing: bool, before: seq<Effect>)
    requires policy.Valid() && n >= 1
    ensures before + Waited(query, policy, n, pausing)
         == before + AttemptLog(query, policy, n, false) + if pausing then Pause(policy, n - 1) else []
  {
    hide AttemptLog, Pause;
    Reassociate(before, AttemptLog(query, policy, n, false), if pausing then Pause(policy, n - 1) else []);
  }

  lemma AllWaited(query: Query, policy: ReconnectPolicy, n: nat)
    requires policy.Valid()
    ensures Waited(query, policy, n, false) == AttemptLog(query, policy, n, false)
  {
    hide AttemptLog;
  }

  lemma FirstFits(policy: ReconnectPolicy)
    requires policy.Valid()
    ensures FitsFor(policy, 1)
  {
  }

  lemma FitsForOneMore(policy: ReconnectPolicy, n: nat)
    requires policy.Valid() && n >= 1
    ensures FitsFor(policy, n + 1) <==> FitsFor(policy, n) && 2 * DelayAt(policy, n - 1) <= TICK_MAX
  {
  }

  lemma {:induction false} ScaledZero(initial: nat, k: nat)
    ensures Scaled(initial, k) == 0 <==> initial == 0
  {
    if k > 0 {
      ScaledZero(initial, k - 1);
    }
  }

  lemma {:induction false} ScaledMonotone(initial: nat, j: nat, k: nat)
    requires j <= k
    ensures Scaled(initial, j) <= Scaled(initial, k)
  {
    if j < k {
      ScaledMonotone(initial, j, k - 1);
    }
  }

  /** The doublings stay in range exactly when the last one does. */
  lemma OverflowExactly(policy: ReconnectPolicy)
    requires policy.Valid()
    ensures NeverOverflows(policy)
            <==> policy.maxAttempts < 2 || 2 * DelayAt(policy, policy.maxAttempts - 2) <= TICK_MAX
    ensures 2 * policy.maximumDelay <= TICK_MAX ==> NeverOverflows(policy)
  {
    if policy.maxAttempts >= 2 {
      assert NeverOverflows(policy) ==> 2 * DelayAt(policy, policy.maxAttempts - 2) <= TICK_MAX;
      forall k | 0 <= k < policy.maxAttempts - 1
        ensures DelayAt(policy, k) <= DelayAt(policy, policy.maxAttempts - 2)
      {
        ScaledMonotone(policy.initialDelay, k, policy.maxAttempts - 2);
      }
    }
  }

  /** A valid policy does not rule overflow out: this one doubles the largest tick. */
  lemma ValidMayOverflow()
    ensures ReconnectPolicy(2, TICK_MAX, TICK_MAX).Valid()
    ensures !NeverOverflows(ReconnectPolicy(2, TICK_MAX, TICK_MAX))
  {
    var policy := ReconnectPolicy(2, TICK_MAX, TICK_MAX);
    assert DelayAt(policy, 0) == TICK_MAX;
  }

  // The delays slept in a log, in order.
  function Delays(log: seq<Effect>): (r: seq<int>) {
    if log == [] then []
    else if log[0].Slept? then [log[0].delay] + Delays(log[1..])
    else Delays(log[1..])
  }

  lemma {:induction false} DelaysAppend(a: seq<Effect>, b: seq<Effect>)
    ensures Delays(a + b) == Delays(a) + Delays(b)
  {
    if a == [] {
      assert a + b == b;
    } else {
      DelaysAppend(a[1..], b);
      assert (a + b)[1..] == a[1..] + b;
    }
  }

  /** With a positive initial delay, n attempts sleep n - 1 times, the k-th time for min(initial * 2^k, maximum). */
  lemma {:induction false} DelaysOfAttempts(query: Query, policy: ReconnectPolicy, n: nat, succeeded: bool)
    requires policy.Valid() && n >= 1
    ensures policy.initialDelay == 0 ==> Delays(AttemptLog(query, policy, n, succeeded)) == []
    ensures policy.initialDelay > 0 ==>
              Delays(AttemptLog(query, policy, n, succeeded)) == seq(n - 1, k requires k >= 0 => DelayAt(policy, k))
  {
    var last := AttemptOnce(query, succeeded);
    assert Delays(last[1..]) == Delays(last[1..][1..]);
    assert Delays(last) == [];
    if n > 1 {
      DelaysOfAttempts(query, policy, n - 1, false);
      ScaledZero(policy.initialDelay, n - 2);
      var before, pause := AttemptLog(query, policy, n - 1, false), Pause(policy, n - 2);
      DelaysAppend(before + pause, last);
      DelaysAppend(before, pause);
    }
  }

  // The outcomes of the attempts in a log, in order.
  function Outcomes(log: seq<Effect>): (r: seq<bool>) {
    if log == [] then []
    else if log[0].Attempted? then [log[0].succeeded] + Outcomes(log[1..])
    else Outcomes(log[1..])
  }

  lemma {:induction false} OutcomesAppend(a: seq<Effect>, b: seq<Effect>)
    ensures Outcomes(a + b) == Outcomes(a) + Outcomes(b)
  {
    if a == [] {
      assert a + b == b;
    } else {
      OutcomesAppend(a[1..], b);
      assert (a + b)[1..] == a[1..] + b;
    }
  }

  /** Of n logged attempts the first n - 1 failed and the last had the given outcome: a success is never ignored. */
  lemma {:induction false} OutcomesOfAttempts(query: Query, policy: ReconnectPolicy, n: nat, succeeded: bool)
    requires policy.Valid() && n >= 1
    ensures Outcomes(AttemptLog(query, policy, n, succeeded)) == seq(n - 1, _ => false) + [succeeded]
  {
    var last := AttemptOnce(query, succeeded);
    assert Outcomes(last[1..]) == [succeeded] + Outcomes(last[1..][1..]);
    assert Outcomes(last) == [succeeded];
    if n > 1 {
      OutcomesOfAttempts(query, policy, n - 1, false);
      var before, pause := AttemptLog(query, policy, n - 1, false), Pause(policy, n - 2);
      OutcomesAppend(before + pause, last);
      OutcomesAppend(before, pause);
      assert seq(n - 2, _ => false) + [false] == seq(n - 1, _ => false);
    }
  }

  function Total(delays: seq<int>): (r: int) {
    if delays == [] then 0 else delays[0] + Total(delays[1..])
  }

  lemma {:induction false} TotalBound(delays: seq<int>, bound: nat)
    requires forall i :: 0 <= i < |delays| ==> 0 <= delays[i] <= bound
    ensures 0 <= Total(delays) <= |delays| * bound
  {
    if delays != [] {
      TotalBound(delays[1..], bound);
      assert |delays| * bound == bound + (|delays| - 1) * bound;
    }
  }

  /** The time slept over n attempts is at most n - 1 times the maximum delay. */
  lemma TotalDelay(query: Query, policy: ReconnectPolicy, n: nat, succeeded: bool)
    requires policy.Valid() && n >= 1
    ensures 0 <= Total(Delays(AttemptLog(query, policy, n, succeeded))) <= (n - 1) * policy.maximumDelay
  {
    DelaysOfAttempts(query, policy, n, succeeded);
    TotalBound(Delays(AttemptLog(query, policy, n, succeeded)), policy.maximumDelay);
  }
}
