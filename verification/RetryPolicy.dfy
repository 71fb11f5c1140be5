/** Retry policies (common/backoff/retrypolicy.go). Durations are integers (nanoseconds); floating
    point is modelled by real numbers, and the random draw is a parameter. */
module RetryPolicy {

  const DONE := -1
  const NO_INTERVAL := 0
  const NO_MAXIMUM_ATTEMPTS := 0
  const FIRST_PHASE_ATTEMPTS := 3
  const SECOND := 1_000_000_000

  datatype Policy =
    | Exponential(initialInterval: int, coefficient: real, maximumInterval: int,
                  expirationInterval: int, maximumAttempts: int)
    | TwoPhase(first: Policy, second: Policy)
    | Disabled

  /** The policy for errors that say a resource is exhausted. */
  const THROTTLE_POLICY := Exponential(SECOND, 2.0, 10 * SECOND, NO_INTERVAL, NO_MAXIMUM_ATTEMPTS)

  // ----- arithmetic -----

  function Pow(b: real, e: int): (r: real)
    requires b != 0.0 || e >= 0
    ensures b > 0.0 ==> r > 0.0
    ensures b >= 0.0 ==> r >= 0.0
    decreases if e >= 0 then e else -e
  {
    if e == 0 then 1.0 else if e > 0 then b * Pow(b, e - 1) else Pow(b, e + 1) / b
  }

  /** Conversion to an integer truncates toward zero. */
  function Trunc(x: real): int {
    if x >= 0.0 then x.Floor else -(-x).Floor
  }

  function MinReal(x: real, y: real): real {
    if x <= y then x else y
  }

  function MaxInt(x: int, y: int): int {
    if x > y then x else y
  }

  /** A random number below n, taken from an arbitrary draw. */
  function Below(n: int, draw: nat): (r: nat)
    requires n >= 1
    ensures r < n && (draw < n ==> r == draw)
  {
    if draw < n then draw else Below(n, draw - n)
  }

  // ----- the delay -----

  /** A zero coefficient raised to a negative power: the base interval is infinite. Only the second
      phase of a two-phase policy meets this, in its first attempts. */
  predicate Unbounded(p: Policy, attempt: int)
    requires p.Exponential?
  {
    p.coefficient == 0.0 && attempt < 1
  }

  /** The delay is defined unless zero is multiplied by infinity, or an infinite interval that
      nothing caps is converted to an integer, which Go leaves to the platform. */
  predicate Defined(p: Policy, attempt: int) {
    match p
    case Exponential(initial, _, maximum, expiration, _) =>
      Unbounded(p, attempt) ==> initial < 0 || (initial > 0 && (maximum != NO_INTERVAL || expiration != NO_INTERVAL))
    case TwoPhase(first, second) => Defined(first, attempt) && Defined(second, attempt - FIRST_PHASE_ATTEMPTS)
    case Disabled => true
  }

  function Raw(p: Policy, attempt: int): real
    requires p.Exponential? && !Unbounded(p, attempt)
  {
    p.initialInterval as real * Pow(p.coefficient, attempt - 1)
  }

  predicate Positive(p: Policy, attempt: int)
    requires p.Exponential? && Defined(p, attempt)
  {
    if Unbounded(p, attempt) then p.initialInterval > 0 else Raw(p, attempt) > 0.0
  }

  /** A positive interval capped by the maximum interval. */
  function Limited(p: Policy, attempt: int): real
    requires p.Exponential? && (Unbounded(p, attempt) ==> p.maximumInterval != NO_INTERVAL)
  {
    if p.maximumInterval == NO_INTERVAL then Raw(p, attempt)
    else if Unbounded(p, attempt) then p.maximumInterval as real
    else MinReal(Raw(p, attempt), p.maximumInterval as real)
  }

  /** A positive interval capped by the maximum interval and by the time that remains. */
  function Capped(p: Policy, elapsed: int, attempt: int): real
    requires p.Exponential? && Defined(p, attempt) && Positive(p, attempt)
  {
    if p.expirationInterval == NO_INTERVAL then Limited(p, attempt)
    else
      var remaining := MaxInt(0, p.expirationInterval - elapsed) as real;
      if Unbounded(p, attempt) && p.maximumInterval == NO_INTERVAL then remaining
      else MinReal(remaining, Limited(p, attempt))
  }

  function JitterPortion(interval: real): (n: int)
    ensures n >= 1
  {
    var portion := Trunc(0.2 * interval);
    if portion < 1 then 1 else portion
  }

  function ExponentialDelay(p: Policy, elapsed: int, attempt: int, draw: nat): int
    requires p.Exponential? && Defined(p, attempt)
  {
    if p.maximumAttempts != NO_MAXIMUM_ATTEMPTS && attempt > p.maximumAttempts then DONE
    else if p.expirationInterval != NO_INTERVAL && elapsed > p.expirationInterval then DONE
    else if !Positive(p, attempt) then DONE
    else
      var interval := Capped(p, elapsed, attempt);
      if Trunc(interval) < p.initialInterval then DONE
      else Trunc(0.8 * interval + Below(JitterPortion(interval), draw) as real)
  }

  function ComputeNextDelay(p: Policy, elapsed: int, attempt: int, draw: nat): int
    requires Defined(p, attempt)
  {
    match p
    case Exponential(_, _, _, _, _) => ExponentialDelay(p, elapsed, attempt, draw)
    case TwoPhase(first, second) =>
      var delay := ComputeNextDelay(first, elapsed, attempt, draw);
      if delay == DONE then ComputeNextDelay(second, elapsed, attempt - FIRST_PHASE_ATTEMPTS, draw) else delay
    case Disabled => DONE
  }

  // ----- bounds on one delay -----

  /** The capped interval is negative only when the maximum interval is, and then it is that. */
  lemma CappedFacts(p: Policy, elapsed: int, attempt: int)
    requires p.Exponential? && Defined(p, attempt) && Positive(p, attempt)
    ensures var interval := Capped(p, elapsed, attempt);
            && (p.maximumInterval >= 0 ==> interval >= 0.0)
            && (p.maximumInterval < 0 ==> interval == p.maximumInterval as real)
            && (Trunc(interval) >= p.initialInterval <==> interval >= p.initialInterval as real)
  {
    TruncAtLeast(Capped(p, elapsed, attempt), p.initialInterval);
  }

  lemma TruncAtLeast(x: real, n: int)
    ensures x >= 0.0 || n > 0 || x == x.Floor as real ==> (Trunc(x) >= n <==> x >= n as real)
  {
    if x < 0.0 {
      assert (-x).Floor >= 0;
    }
  }

  lemma NonPositiveProduct(x: real, y: real)
    requires x <= 0.0 && y >= 0.0
    ensures x * y <= 0.0
  {
  }

  /** With a negative interval there is no jitter and rounding goes up, past the interval. */
  lemma NegativeDelay(m: int, draw: nat)
    requires m < 0
    ensures var d := Trunc(0.8 * m as real + Below(JitterPortion(m as real), draw) as real);
            m < d <= 0 && (d == DONE <==> m == -2)
  {
    assert JitterPortion(m as real) == 1;
    var x := -(0.8 * m as real);
    assert x.Floor as real <= x;
    assert Trunc(0.8 * m as real) == -x.Floor;
  }

  /** Adding less than a fifth, rounded down, to four fifths stays between four fifths and the whole. */
  lemma JitterBounds(interval: real, draw: nat)
    requires interval >= 0.0
    ensures var d := Trunc(0.8 * interval + Below(JitterPortion(interval), draw) as real);
            0 <= (0.8 * interval).Floor <= d && d as real <= interval
  {
    var j := Below(JitterPortion(interval), draw);
    var fifth := (0.2 * interval).Floor;
    assert fifth as real <= 0.2 * interval;
    assert j as real <= 0.2 * interval;
    var x := 0.8 * interval + j as real;
    assert 0.0 <= 0.8 * interval <= x <= interval;
    FloorMonotone(0.8 * interval, x);
    assert x.Floor as real <= x;
  }

  lemma FloorMonotone(x: real, y: real)
    requires x <= y
    ensures x.Floor <= y.Floor
  {
  }

  /** Every delay that is not the done marker is handed out only while attempts and time last and
      does not exceed the time that remains. Unless the maximum interval is negative it lies between
      four fifths of the capped interval, rounded down, and that interval. It respects the maximum
      interval exactly when that is positive. */
  lemma DelayBounds(p: Policy, elapsed: int, attempt: int, draw: nat)
    requires p.Exponential? && Defined(p, attempt)
    requires ComputeNextDelay(p, elapsed, attempt, draw) != DONE
    ensures Positive(p, attempt)
    ensures var d := ComputeNextDelay(p, elapsed, attempt, draw);
            var interval := Capped(p, elapsed, attempt);
            && (!Unbounded(p, attempt) ==> interval <= Raw(p, attempt)) && p.initialInterval as real <= interval
            && (p.maximumInterval >= 0 ==> 0 <= (0.8 * interval).Floor <= d && d as real <= interval)
            && (p.maximumInterval != NO_INTERVAL ==> (d <= p.maximumInterval <==> p.maximumInterval > 0))
            && (p.expirationInterval != NO_INTERVAL ==> d <= p.expirationInterval - elapsed)
            && (p.maximumAttempts != NO_MAXIMUM_ATTEMPTS ==> attempt <= p.maximumAttempts)
  {
    CappedFacts(p, elapsed, attempt);
    if p.maximumInterval >= 0 {
      JitterBounds(Capped(p, elapsed, attempt), draw);
    } else {
      NegativeDelay(p.maximumInterval, draw);
    }
  }

  /** A delay is done exactly when attempts or time have run out, the interval is not positive, the
      capped interval has fallen below the initial one, or the maximum interval is -2. */
  lemma DoneExactly(p: Policy, elapsed: int, attempt: int, draw: nat)
    requires p.Exponential? && Defined(p, attempt)
    ensures ComputeNextDelay(p, elapsed, attempt, draw) == DONE <==>
            || (p.maximumAttempts != NO_MAXIMUM_ATTEMPTS && attempt > p.maximumAttempts)
            || (p.expirationInterval != NO_INTERVAL && elapsed > p.expirationInterval)
            || !Positive(p, attempt)
            || Capped(p, elapsed, attempt) < p.initialInterval as real
            || p.maximumInterval == -2
  {
    if Positive(p, attempt) {
      CappedFacts(p, elapsed, attempt);
      if p.maximumInterval >= 0 {
        JitterBounds(Capped(p, elapsed, attempt), draw);
      } else {
        NegativeDelay(p.maximumInterval, draw);
      }
    }
  }

  /** A configuration in which a delay is computed and happens to be the done marker. */
  lemma NegativeConfigurationHitsDone()
    ensures var p := Exponential(-10, -1.0, -2, NO_INTERVAL, NO_MAXIMUM_ATTEMPTS);
            && Positive(p, 2) && Trunc(Capped(p, 0, 2)) >= p.initialInterval
            && ComputeNextDelay(p, 0, 2, 0) == DONE
  {
    var p := Exponential(-10, -1.0, -2, NO_INTERVAL, NO_MAXIMUM_ATTEMPTS);
    assert Pow(-1.0, 1) == -1.0 * Pow(-1.0, 0);
    assert Raw(p, 2) == 10.0;
    CappedFacts(p, 0, 2);
    DoneExactly(p, 0, 2, 0);
  }

  // ----- powers -----

  lemma {:induction false} PowAtLeastOne(b: real, e: nat)
    requires b >= 1.0
    ensures Pow(b, e) >= 1.0
  {
    if e > 0 {
      PowAtLeastOne(b, e - 1);
      ProductGrows(b, Pow(b, e - 1));
    }
  }

  lemma ProductGrows(b: real, x: real)
    requires b >= 1.0 && x >= 1.0
    ensures b * x >= x
  {
    assert (b - 1.0) * x >= 0.0;
  }

  lemma {:induction false} PowBelowOne(b: real, e: int)
    requires b > 1.0 && e < 0
    ensures 0.0 < Pow(b, e) < 1.0
    decreases -e
  {
    if e < -1 {
      PowBelowOne(b, e + 1);
    }
    QuotientShrinks(Pow(b, e + 1), b);
  }

  lemma QuotientShrinks(x: real, b: real)
    requires 0.0 < x <= 1.0 && b > 1.0
    ensures 0.0 < x / b < 1.0
  {
    var q := x / b;
    assert q * b == x;
    ProductBounds(q, b);
  }

  lemma ProductBounds(q: real, b: real)
    requires b > 1.0
    ensures q >= 1.0 ==> q * b > 1.0
    ensures q <= 0.0 ==> q * b <= 0.0
  {
    if q >= 1.0 {
      assert (q - 1.0) * b >= 0.0;
    }
  }

  // ----- policies over attempts -----

  /** With a growing second policy, the second phase hands out nothing before the fourth attempt. */
  lemma SecondPhaseStartsLate(first: Policy, second: Policy, elapsed: int, attempt: int, draw: nat)
    requires second.Exponential? && second.coefficient > 1.0
    requires attempt <= FIRST_PHASE_ATTEMPTS && Defined(first, attempt)
    ensures ComputeNextDelay(TwoPhase(first, second), elapsed, attempt, draw)
            == ComputeNextDelay(first, elapsed, attempt, draw)
  {
    var n := attempt - FIRST_PHASE_ATTEMPTS;
    PowBelowOne(second.coefficient, n - 1);
    ShrunkIsDone(second, elapsed, n, draw);
  }

  lemma ShrunkIsDone(p: Policy, elapsed: int, attempt: int, draw: nat)
    requires p.Exponential? && !Unbounded(p, attempt)
    requires 0.0 < Pow(p.coefficient, attempt - 1) < 1.0
    ensures ExponentialDelay(p, elapsed, attempt, draw) == DONE
  {
    ShrunkRaw(p, attempt);
    if Positive(p, attempt) {
      TruncAtLeast(Capped(p, elapsed, attempt), p.initialInterval);
    }
  }

  lemma ShrunkRaw(p: Policy, attempt: int)
    requires p.Exponential? && !Unbounded(p, attempt)
    requires 0.0 < Pow(p.coefficient, attempt - 1) < 1.0
    ensures if p.initialInterval > 0 then Raw(p, attempt) < p.initialInterval as real else Raw(p, attempt) <= 0.0
  {
    var x := Pow(p.coefficient, attempt - 1);
    if p.initialInterval > 0 {
      SmallerProduct(p.initialInterval as real, x);
    } else {
      NonPositiveProduct(p.initialInterval as real, x);
    }
  }

  lemma SmallerProduct(x: real, y: real)
    requires x > 0.0 && y < 1.0
    ensures x * y < x
  {
    assert x * (1.0 - y) > 0.0;
  }

  /** The throttle policy never gives up and waits between 0.8 and 10 seconds. */
  lemma ThrottleAlwaysWaits(elapsed: int, attempt: int, draw: nat)
    requires attempt >= 1
    ensures 800_000_000 <= ComputeNextDelay(THROTTLE_POLICY, elapsed, attempt, draw) <= 10 * SECOND
  {
    var p := THROTTLE_POLICY;
    PowAtLeastOne(2.0, attempt - 1);
    var x := Pow(2.0, attempt - 1);
    assert Raw(p, attempt) >= SECOND as real;
    var interval := Capped(p, elapsed, attempt);
    assert SECOND as real <= interval <= (10 * SECOND) as real;
    FloorMonotone(SECOND as real, interval);
    JitterBounds(interval, draw);
    FloorMonotone(800_000_000.0, 0.8 * interval);
  }

  datatype Limit = Unlimited | AtMost(attempts: nat)

  /** The attempts after which a policy is done for good, if there is such a number. */
  function AttemptLimit(p: Policy): Limit {
    match p
    case Exponential(_, _, _, _, m) =>
      if m == NO_MAXIMUM_ATTEMPTS then Unlimited else AtMost(if m < 0 then 0 else m)
    case TwoPhase(first, second) =>
      (match (AttemptLimit(first), AttemptLimit(second))
       case (AtMost(a), AtMost(b)) => AtMost(MaxInt(a, b + FIRST_PHASE_ATTEMPTS))
       case _ => Unlimited)
    case Disabled => AtMost(0)
  }

  lemma {:induction false} DoneAfterLimit(p: Policy, elapsed: int, attempt: int, draw: nat)
    requires Defined(p, attempt)
    requires AttemptLimit(p).AtMost? && attempt > AttemptLimit(p).attempts
    ensures ComputeNextDelay(p, elapsed, attempt, draw) == DONE
    decreases p
  {
    if p.TwoPhase? {
      DoneAfterLimit(p.first, elapsed, attempt, draw);
      DoneAfterLimit(p.second, elapsed, attempt - FIRST_PHASE_ATTEMPTS, draw);
    }
  }

  lemma {:induction false} DefinedLater(p: Policy, attempt: int, later: int)
    requires Defined(p, attempt) && attempt <= later
    ensures Defined(p, later)
    decreases p
  {
    if p.TwoPhase? {
      DefinedLater(p.first, attempt, later);
      DefinedLater(p.second, attempt - FIRST_PHASE_ATTEMPTS, later - FIRST_PHASE_ATTEMPTS);
    }
  }

  // ----- the retrier -----

  class Retrier {
    const policy: Policy
    var currentAttempt: int
    var startTime: int

    ghost predicate Valid()
      reads this
    {
      currentAttempt >= 1 && Defined(policy, 1)
    }

    constructor (policy: Policy, now: int)
      requires Defined(policy, 1)
      ensures Valid() && this.policy == policy && currentAttempt == 1 && startTime == now
    {
      this.policy := policy;
      currentAttempt, startTime := 1, now;
    }

    method Reset(now: int)
      requires Defined(policy, 1)
      modifies this
      ensures Valid() && currentAttempt == 1 && startTime == now
    {
      startTime := now;
      currentAttempt := 1;
    }

    /** Asks the policy about the current attempt and moves on to the next. */
    method NextBackOff(now: int, draw: nat) returns (delay: int)
      requires Valid()
      modifies this`currentAttempt
      ensures Valid() && currentAttempt == old(currentAttempt) + 1
      ensures Defined(policy, old(currentAttempt))
      ensures delay == ComputeNextDelay(policy, now - startTime, old(currentAttempt), draw)
    {
      DefinedLater(policy, 1, currentAttempt);
      delay := ComputeNextDelay(policy, now - startTime, currentAttempt, draw);
      currentAttempt := currentAttempt + 1;
    }
  }
}
