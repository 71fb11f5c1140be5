/** The retry loop (common/backoff/retry.go). What the loop meets from outside (context errors, the
    operation's results, clock readings and random draws) is a script with one round per iteration. */
module Retry {
  import opened RetryPolicy
  import opened Wrappers

  /** An error, with the verdicts of the caller's isRetryable on it and of the test for exhaustion. */
  datatype Failure = Failure(message: string, retryable: bool, exhausted: bool)

  /** What one iteration meets: the context's error at the loop test, the operation's outcome
      (`None` is success), the context's error afterwards, and clock readings with draws. */
  datatype Round = Round(ctxBefore: Option<Failure>, outcome: Option<Failure>, ctxAfter: Option<Failure>,
                         policyTime: int, policyDraw: nat, throttleTime: int, throttleDraw: nat,
                         deadlineTime: int)

  datatype Setting = Setting(policy: Policy, deadline: Option<int>, policyStart: int, throttleStart: int)

  /** A returned error (`None` is nil), or a loop that goes on when the script ends. */
  datatype Result = Returned(error: Option<Failure>) | StillRunning

  /** What follows a call: the loop returns, or it waits and tests the context again. */
  datatype Decision = Stop | Again(wait: int)

  // ----- what follows one call -----

  /** The number of exhausted outcomes among the first k rounds. */
  function ExhaustedBefore(rounds: seq<Round>, k: nat): nat
    requires k <= |rounds|
  {
    if k == 0 then 0
    else
      var o := rounds[k - 1].outcome;
      ExhaustedBefore(rounds, k - 1) + if o.Some? && o.value.exhausted then 1 else 0
  }

  /** The policy's delay after the call of round k, the policy's attempt k + 1. */
  function PolicyDelay(g: Setting, rounds: seq<Round>, k: nat): int
    requires k < |rounds| && Defined(g.policy, k + 1)
  {
    ComputeNextDelay(g.policy, rounds[k].policyTime - g.policyStart, k + 1, rounds[k].policyDraw)
  }

  /** The throttle policy counts only attempts that ended exhausted. */
  function ThrottleDelay(g: Setting, rounds: seq<Round>, k: nat): int
    requires k < |rounds|
  {
    ComputeNextDelay(THROTTLE_POLICY, rounds[k].throttleTime - g.throttleStart,
                     ExhaustedBefore(rounds, k) + 1, rounds[k].throttleDraw)
  }

  predicate MissesDeadline(deadline: Option<int>, now: int, wait: int) {
    deadline.Some? && now + wait > deadline.value
  }

  /** `d` is what the code must do after the call of round k. */
  ghost predicate Decides(g: Setting, rounds: seq<Round>, k: nat, d: Decision)
    requires k < |rounds| && Defined(g.policy, k + 1)
  {
    var r := rounds[k];
    if r.outcome.None? || r.outcome == r.ctxAfter || !r.outcome.value.retryable then d == Stop
    else
      var delay := PolicyDelay(g, rounds, k);
      var wait := if r.outcome.value.exhausted then MaxInt(delay, ThrottleDelay(g, rounds, k)) else delay;
      if delay == DONE || MissesDeadline(g.deadline, r.deadlineTime, wait) then d == Stop else d == Again(wait)
  }

  /** The k-th call is made under a live context and is followed by what the rules decide. */
  ghost predicate CallAt(g: Setting, rounds: seq<Round>, decisions: seq<Decision>, k: nat)
    requires k < |decisions| <= |rounds|
  {
    rounds[k].ctxBefore.None? && Defined(g.policy, k + 1) && Decides(g, rounds, k, decisions[k])
  }

  /** The decisions of a run: one per call made, each but the last one leading to another call. */
  ghost predicate IsRun(g: Setting, rounds: seq<Round>, decisions: seq<Decision>) {
    && |decisions| <= |rounds|
    && (forall k :: 0 <= k < |decisions| ==> CallAt(g, rounds, decisions, k))
    && (forall k :: 0 <= k < |decisions| - 1 ==> decisions[k].Again?)
  }

  // ----- the loop -----

  /** An exhausted error waits for the longer of the two delays. */
  method Throttled(g: Setting, rounds: seq<Round>, k: nat, t: Retrier, next: int) returns (wait: int)
    requires k < |rounds|
    requires t.Valid() && t.policy == THROTTLE_POLICY && t.startTime == g.throttleStart
    requires t.currentAttempt == ExhaustedBefore(rounds, k) + 1
    modifies t`currentAttempt
    ensures t.Valid() && t.currentAttempt == old(t.currentAttempt) + 1
    ensures wait == MaxInt(next, ThrottleDelay(g, rounds, k))
  {
    var throttled := t.NextBackOff(rounds[k].throttleTime, rounds[k].throttleDraw);
    wait := MaxInt(next, throttled);
  }

  /** Follows one failed call; the two retriers stand at the attempts of round k. */
  method AfterFailure(g: Setting, rounds: seq<Round>, k: nat, r: Retrier, t: Retrier) returns (d: Decision)
    requires k < |rounds| && rounds[k].outcome.Some? && r != t
    requires r.Valid() && r.policy == g.policy && r.startTime == g.policyStart && r.currentAttempt == k + 1
    requires t.Valid() && t.policy == THROTTLE_POLICY && t.startTime == g.throttleStart
    requires t.currentAttempt == ExhaustedBefore(rounds, k) + 1
    modifies r`currentAttempt, t`currentAttempt
    ensures r.Valid() && t.Valid() && Defined(g.policy, k + 1)
    ensures Decides(g, rounds, k, d)
    ensures d.Again? ==> r.currentAttempt == k + 2 && t.currentAttempt == ExhaustedBefore(rounds, k + 1) + 1
  {
    var round := rounds[k];
    var error := round.outcome.value;
    var next := r.NextBackOff(round.policyTime, round.policyDraw);
    if next == DONE {
      return Stop;
    }
    if round.outcome == round.ctxAfter || !error.retryable {
      return Stop;
    }
    if error.exhausted {
      next := Throttled(g, rounds, k, t, next);
    }
    if MissesDeadline(g.deadline, round.deadlineTime, next) {
      return Stop;
    }
    return Again(next);
  }

  /** Calls the operation until it succeeds or something forbids another call. */
  method ThrottleRetryContext(g: Setting, rounds: seq<Round>) returns (result: Result, decisions: seq<Decision>)
    requires Defined(g.policy, 1)
    ensures IsRun(g, rounds, decisions)
    ensures var n := |decisions|;
            match result
            // no cause to stop in the whole script
            case StillRunning => n == |rounds| && (n > 0 ==> decisions[n - 1].Again?)
            case Returned(error) =>
              // a cause to stop: the last decision, or the context before another call
              && (n == 0 || decisions[n - 1].Again? ==> n < |rounds| && rounds[n].ctxBefore.Some?)
              // the last call's outcome, or the context's error when no call was made
              && (if n > 0 then error == rounds[n - 1].outcome else error == rounds[0].ctxBefore)
    // with an attempt limit the loop returns
    ensures AttemptLimit(g.policy).AtMost? && |rounds| > AttemptLimit(g.policy).attempts + 1 ==> result.Returned?
  {
    var error: Option<Failure> := None;
    var r := new Retrier(g.policy, g.policyStart);
    var t := new Retrier(THROTTLE_POLICY, g.throttleStart);
    decisions := [];
    while |decisions| < |rounds| && rounds[|decisions|].ctxBefore.None?
      invariant IsRun(g, rounds, decisions)
      invariant r.Valid() && r.policy == g.policy && r.startTime == g.policyStart && r.currentAttempt == |decisions| + 1
      invariant t.Valid() && t.policy == THROTTLE_POLICY && t.startTime == g.throttleStart && t != r
      invariant t.currentAttempt == ExhaustedBefore(rounds, |decisions|) + 1
      invariant if decisions == [] then error == None
                else decisions[|decisions| - 1].Again? && error == rounds[|decisions| - 1].outcome && error.Some?
      decreases |rounds| - |decisions|
    {
      ghost var k, before := |decisions|, decisions;
      error := rounds[|decisions|].outcome;
      if error.None? {
        DefinedLater(g.policy, 1, k + 1);
        decisions := decisions + [Stop];
        RunExtended(g, rounds, before, Stop);
        return Returned(None), decisions;
      }
      var d := AfterFailure(g, rounds, |decisions|, r, t);
      decisions := decisions + [d];
      RunExtended(g, rounds, before, d);
      if d.Stop? {
        return Returned(error), decisions;
      }
    }
    if |decisions| == |rounds| {
      if AttemptLimit(g.policy).AtMost? {
        CallsAreLimited(g, rounds, decisions);
      }
      return StillRunning, decisions;
    }
    if error.Some? {
      return Returned(error), decisions;
    }
    return Returned(rounds[|decisions|].ctxBefore), decisions;
  }

  lemma RunExtended(g: Setting, rounds: seq<Round>, decisions: seq<Decision>, d: Decision)
    requires IsRun(g, rounds, decisions) && |decisions| < |rounds|
    requires decisions != [] ==> decisions[|decisions| - 1].Again?
    requires rounds[|decisions|].ctxBefore.None? && Defined(g.policy, |decisions| + 1)
    requires Decides(g, rounds, |decisions|, d)
    ensures IsRun(g, rounds, decisions + [d])
  {
    var longer := decisions + [d];
    forall k | 0 <= k < |longer| ensures CallAt(g, rounds, longer, k) {
      assert k < |decisions| ==> CallAt(g, rounds, decisions, k);
    }
  }

  // ----- consequences for every run -----

  /** A policy with an attempt limit allows at most one call more than the limit, so a script longer
      than that always ends in a return. */
  lemma CallsAreLimited(g: Setting, rounds: seq<Round>, decisions: seq<Decision>)
    requires IsRun(g, rounds, decisions) && AttemptLimit(g.policy).AtMost?
    ensures |decisions| <= AttemptLimit(g.policy).attempts + 1
    ensures g.policy.Disabled? ==> |decisions| <= 1
    ensures g.policy.Exponential? ==> g.policy.maximumAttempts != 0 && |decisions| <= MaxInt(0, g.policy.maximumAttempts) + 1
    ensures g.policy.TwoPhase? && g.policy.first.Exponential? && g.policy.second.Exponential? ==>
              var m, n := g.policy.first.maximumAttempts, g.policy.second.maximumAttempts;
              m != 0 && n != 0 && |decisions| <= MaxInt(MaxInt(0, m), MaxInt(0, n) + 3) + 1
  {
    if |decisions| > 1 {
      var k := |decisions| - 2;
      assert CallAt(g, rounds, decisions, k);
      LimitStops(g, rounds, k, decisions[k]);
    }
  }

  lemma LimitStops(g: Setting, rounds: seq<Round>, k: nat, d: Decision)
    requires k < |rounds| && Defined(g.policy, k + 1) && AttemptLimit(g.policy).AtMost? && Decides(g, rounds, k, d)
    ensures k + 1 > AttemptLimit(g.policy).attempts ==> d == Stop
  {
    if k + 1 > AttemptLimit(g.policy).attempts {
      DoneAfterLimit(g.policy, rounds[k].policyTime - g.policyStart, k + 1, rounds[k].policyDraw);
    }
  }

  /** No call follows a success, an error that is not retryable, or the context's own error. */
  lemma NeverRetried(g: Setting, rounds: seq<Round>, decisions: seq<Decision>, k: nat)
    requires IsRun(g, rounds, decisions) && k < |decisions| - 1
    ensures var r := rounds[k];
            r.outcome.Some? && r.outcome.value.retryable && r.outcome != r.ctxAfter
            && rounds[k + 1].ctxBefore.None?
  {
    assert CallAt(g, rounds, decisions, k) && CallAt(g, rounds, decisions, k + 1);
  }

  /** Another call follows a failed one exactly when its error is retryable and not the context's own, the
      policy is not done, and the wait ends by the deadline. The wait is the policy's delay, or for an
      exhausted error the longer of that and the throttle policy's. */
  lemma RetriedExactly(g: Setting, rounds: seq<Round>, k: nat, w: int)
    requires k < |rounds| && Defined(g.policy, k + 1)
    ensures var r, d, t := rounds[k], PolicyDelay(g, rounds, k), ThrottleDelay(g, rounds, k);
            Decides(g, rounds, k, Again(w)) <==>
            && r.outcome.Some? && r.outcome.value.retryable && r.outcome != r.ctxAfter && d != -1
            && (if r.outcome.value.exhausted then w >= d && w >= t && (w == d || w == t) else w == d)
            && (g.deadline.Some? ==> r.deadlineTime + w <= g.deadline.value)
  {
  }

  /** Every wait ends by the deadline, is at least the policy's delay and equal to it unless the
      error is an exhausted one; then it is at least 0.8 seconds, and at most ten seconds when the
      policy's delay is. */
  lemma WaitBounds(g: Setting, rounds: seq<Round>, k: nat, w: int)
    requires k < |rounds| && Defined(g.policy, k + 1) && Decides(g, rounds, k, Again(w))
    ensures g.deadline.Some? ==> rounds[k].deadlineTime + w <= g.deadline.value
    ensures var d := PolicyDelay(g, rounds, k);
            && d <= w <= MaxInt(d, 10 * SECOND)
            && (if rounds[k].outcome.value.exhausted then w >= 800_000_000 else w == d)
  {
    ThrottleAlwaysWaits(rounds[k].throttleTime - g.throttleStart, ExhaustedBefore(rounds, k) + 1,
                        rounds[k].throttleDraw);
  }

  /** Under an exponential policy with an expiration interval every wait for an error that is not an
      exhausted one ends within that interval. */
  lemma WaitsEndInTime(g: Setting, rounds: seq<Round>, k: nat, w: int)
    requires k < |rounds| && Defined(g.policy, k + 1) && Decides(g, rounds, k, Again(w))
    requires g.policy.Exponential? && g.policy.expirationInterval != NO_INTERVAL
    requires !rounds[k].outcome.value.exhausted
    ensures rounds[k].policyTime + w <= g.policyStart + g.policy.expirationInterval
    ensures g.policy.maximumInterval >= 0 ==> 0 <= w
  {
    DelayBounds(g.policy, rounds[k].policyTime - g.policyStart, k + 1, rounds[k].policyDraw);
  }
}
