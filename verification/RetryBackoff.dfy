/** How the delays of retry policies grow: the intervals multiply by the coefficient from one attempt
    to the next until the maximum interval caps them for good. */
module RetryBackoff {
  import opened RetryPolicy

  // ----- the intervals -----

  lemma PowStep(b: real, e: int)
    requires b != 0.0 || e >= 0
    ensures Pow(b, e + 1) == Pow(b, e) * b
  {
  }

  /** The first interval is the initial one, and each later one is the coefficient times the one before. */
  lemma RawGrows(p: Policy, attempt: int)
    requires p.Exponential? && (p.coefficient != 0.0 || attempt >= 1)
    ensures Raw(p, 1) == p.initialInterval as real
    ensures Raw(p, attempt + 1) == Raw(p, attempt) * p.coefficient
  {
    PowStep(p.coefficient, attempt - 1);
    var x, y, c := p.initialInterval as real, Pow(p.coefficient, attempt - 1), p.coefficient;
    assert x * (y * c) == (x * y) * c;
  }

  /** Intervals that start with the initial one and multiply by the coefficient. */
  ghost predicate Backoff(p: Policy, xs: seq<real>)
    requires p.Exponential?
  {
    && (xs != [] ==> xs[0] == p.initialInterval as real)
    && (forall i | 0 < i < |xs| :: xs[i] == xs[i - 1] * p.coefficient)
  }

  lemma {:induction false} RawIsBackoff(p: Policy, xs: seq<real>, n: nat)
    requires p.Exponential? && Backoff(p, xs) && 1 <= n <= |xs|
    ensures Raw(p, n) == xs[n - 1]
  {
    RawGrows(p, n - 1 + if n == 1 then 1 else 0);
    if n > 1 {
      RawIsBackoff(p, xs, n - 1);
    }
  }

  lemma {:induction false} NeverFalls(p: Policy, n: nat, m: nat)
    requires p.Exponential? && p.initialInterval >= 0 && p.coefficient >= 1.0 && 1 <= n <= m
    ensures 0.0 <= p.initialInterval as real <= Raw(p, n) <= Raw(p, m)
    decreases m
  {
    if n < m {
      NeverFalls(p, n, m - 1);
      StepUp(p, m - 1);
    } else if n > 1 {
      NeverFalls(p, n - 1, n - 1);
      StepUp(p, n - 1);
    } else {
      RawGrows(p, 1);
    }
  }

  lemma StepUp(p: Policy, n: nat)
    requires p.Exponential? && p.coefficient >= 1.0 && n >= 1 && Raw(p, n) >= 0.0
    ensures Raw(p, n) <= Raw(p, n + 1)
  {
    RawGrows(p, n);
    Enlarges(Raw(p, n), p.coefficient);
  }

  lemma Enlarges(x: real, c: real)
    requires x >= 0.0 && c >= 1.0
    ensures x <= x * c
  {
    assert x * (c - 1.0) >= 0.0;
  }

  // ----- the delays -----

  predicate AttemptsLast(p: Policy, attempt: int)
    requires p.Exponential?
  {
    p.maximumAttempts == NO_MAXIMUM_ATTEMPTS || attempt <= p.maximumAttempts
  }

  predicate TimeAllows(p: Policy, elapsed: int, interval: real)
    requires p.Exponential?
  {
    p.expirationInterval == NO_INTERVAL || interval <= (p.expirationInterval - elapsed) as real
  }

  /** A delay for an interval: between four fifths of it, rounded down, and the whole; a draw below a
      fifth is added to the four fifths. */
  ghost predicate InBand(delay: int, interval: real, draw: nat) {
    && (0.8 * interval).Floor <= delay && delay as real <= interval
    && (draw == 0 || draw < (0.2 * interval).Floor ==> delay == (0.8 * interval + draw as real).Floor)
  }

  /** The interval is the least of what bounds it: the growing one, which a zero coefficient before the
      first attempt makes infinite, the maximum and the time that remains. */
  ghost predicate LeastBound(p: Policy, elapsed: int, attempt: int, interval: real)
    requires p.Exponential?
  {
    var remaining := p.expirationInterval - elapsed;
    var finite, capped, expires := !Unbounded(p, attempt), p.maximumInterval != 0, p.expirationInterval != 0;
    && (finite ==> interval <= Raw(p, attempt))
    && (capped ==> interval <= p.maximumInterval as real)
    && (expires ==> interval <= remaining as real)
    && (|| (finite && interval == Raw(p, attempt))
        || (capped && interval == p.maximumInterval as real)
        || (expires && interval == remaining as real))
  }

  /** While attempts last, the delay is in the band of the least bound, or there is none when that is
      below the initial interval. */
  lemma DelayOfLeastBound(p: Policy, elapsed: int, attempt: int, draw: nat, interval: real)
    requires p.Exponential? && p.initialInterval > 0 && AttemptsLast(p, attempt) && Defined(p, attempt)
    requires LeastBound(p, elapsed, attempt, interval) && interval > 0.0
    ensures var d := ComputeNextDelay(p, elapsed, attempt, draw);
            if interval >= p.initialInterval as real then InBand(d, interval, draw) else d == DONE
  {
    assert Capped(p, elapsed, attempt) == interval;
    CappedFacts(p, elapsed, attempt);
    JitterBounds(interval, draw);
  }

  /** While attempts last and neither cap binds, the delay of attempt n is in the band of the initial
      interval multiplied n - 1 times by the coefficient; when that product is below the initial
      interval there is no further attempt. */
  lemma DelayFollowsBackoff(p: Policy, elapsed: int, n: nat, draw: nat, xs: seq<real>)
    requires p.Exponential? && p.initialInterval > 0 && Backoff(p, xs) && 1 <= n <= |xs| && AttemptsLast(p, n)
    requires p.maximumInterval == NO_INTERVAL || xs[n - 1] <= p.maximumInterval as real
    requires TimeAllows(p, elapsed, xs[n - 1])
    ensures var d := ComputeNextDelay(p, elapsed, n, draw);
            if xs[n - 1] >= p.initialInterval as real then InBand(d, xs[n - 1], draw) else d == DONE
    ensures n == 1 || p.coefficient >= 1.0 ==> xs[n - 1] >= p.initialInterval as real
  {
    RawIsBackoff(p, xs, n);
    if n == 1 || p.coefficient >= 1.0 {
      RawGrows(p, 1);
      if n > 1 { NeverFalls(p, n, n); }
    }
    if xs[n - 1] > 0.0 {
      DelayOfLeastBound(p, elapsed, n, draw, xs[n - 1]);
    }
  }

  /** Once an interval has reached the maximum, every delay from then on is in the maximum's band. */
  lemma StaysAtMaximum(p: Policy, elapsed: int, n: nat, m: nat, draw: nat)
    requires p.Exponential? && 0 < p.initialInterval <= p.maximumInterval && p.coefficient >= 1.0
    requires 1 <= n <= m && Raw(p, n) >= p.maximumInterval as real
    requires AttemptsLast(p, m) && TimeAllows(p, elapsed, p.maximumInterval as real)
    ensures InBand(ComputeNextDelay(p, elapsed, m, draw), p.maximumInterval as real, draw)
  {
    NeverFalls(p, n, m);
    DelayOfLeastBound(p, elapsed, m, draw, p.maximumInterval as real);
  }

  /** Multiplying by 1 + d grows at least by d for each factor. */
  lemma {:induction false} GrowsLinearly(b: real, e: nat)
    requires b >= 1.0
    ensures Pow(b, e) >= 1.0 + e as real * (b - 1.0)
  {
    if e > 0 {
      GrowsLinearly(b, e - 1);
      PowAtLeastOne(b, e - 1);
      OneStep(b - 1.0, e - 1, Pow(b, e - 1), Pow(b, e));
    }
  }

  lemma OneStep(d: real, e: nat, x: real, y: real)
    requires d >= 0.0 && x >= 1.0 + e as real * d && x >= 1.0 && y == (1.0 + d) * x
    ensures y >= 1.0 + (e + 1) as real * d
  {
    AtLeast(x, d);
    assert (e + 1) as real * d == e as real * d + d;
  }

  lemma AtLeast(x: real, d: real)
    requires x >= 1.0 && d >= 0.0
    ensures x * (1.0 + d) >= x + d
  {
    assert (x - 1.0) * d >= 0.0;
  }

  /** With a coefficient above one, some interval reaches the maximum. */
  lemma ReachesMaximum(p: Policy) returns (n: nat)
    requires p.Exponential? && 0 < p.initialInterval <= p.maximumInterval && p.coefficient > 1.0
    ensures n >= 1 && Raw(p, n) >= p.maximumInterval as real
  {
    var steps := PowReaches(p.coefficient, p.maximumInterval);
    n := steps + 1;
    RawAtLeast(p, n, p.maximumInterval as real);
  }

  lemma RawAtLeast(p: Policy, n: nat, m: real)
    requires p.Exponential? && p.initialInterval > 0 && n >= 1 && 0.0 <= m <= Pow(p.coefficient, n - 1)
    ensures Raw(p, n) >= m
  {
    Scales(p.initialInterval as real, Pow(p.coefficient, n - 1), m);
  }

  lemma PowReaches(b: real, x: nat) returns (e: nat)
    requires b > 1.0
    ensures Pow(b, e) >= x as real
  {
    e := StepsTo(x as real, b - 1.0);
    GrowsLinearly(b, e);
  }

  lemma StepsTo(x: real, d: real) returns (n: nat)
    requires d > 0.0 && x >= 0.0
    ensures n as real * d >= x
  {
    var q := x / d;
    assert q * d == x;
    assert q < q.Floor as real + 1.0;
    n := q.Floor + 1;
    LargerProduct(q, n as real, d);
  }

  lemma LargerProduct(x: real, y: real, d: real)
    requires x <= y && d > 0.0
    ensures x * d <= y * d
  {
  }

  lemma Scales(x: real, y: real, m: real)
    requires x >= 1.0 && 0.0 <= m <= y
    ensures x * y >= m
  {
    assert (x - 1.0) * y >= 0.0;
  }

  /** A coefficient of one keeps the interval where it is. */
  lemma {:induction false} StaysAtInitial(p: Policy, n: nat)
    requires p.Exponential? && p.coefficient == 1.0 && n >= 1
    ensures Raw(p, n) == p.initialInterval as real
  {
    if n == 1 {
      RawGrows(p, 1);
    } else {
      StaysAtInitial(p, n - 1);
      RawGrows(p, n - 1);
    }
  }

  ghost predicate Settles(p: Policy, n: nat)
    requires p.Exponential?
  {
    forall elapsed: int, m: nat, draw: nat | n <= m && Defined(p, m) ::
      InBand(ComputeNextDelay(p, elapsed, m, draw), p.maximumInterval as real, draw)
  }

  /** A policy without other limits reaches its maximum interval and stays there exactly when its
      coefficient is above one or it starts there. */
  lemma SettlesExactly(p: Policy)
    requires p.Exponential? && 0 < p.initialInterval <= p.maximumInterval && p.coefficient >= 1.0
    requires p.expirationInterval == NO_INTERVAL && p.maximumAttempts == NO_MAXIMUM_ATTEMPTS
    ensures (exists n: nat | n >= 1 :: Raw(p, n) >= p.maximumInterval as real)
            <==> p.coefficient > 1.0 || p.initialInterval == p.maximumInterval
    ensures p.coefficient > 1.0 || p.initialInterval == p.maximumInterval ==> exists n: nat :: Settles(p, n)
  {
    if p.coefficient > 1.0 || p.initialInterval == p.maximumInterval {
      var n: nat := 1;
      if p.coefficient > 1.0 {
        n := ReachesMaximum(p);
      } else {
        StaysAtInitial(p, 1);
      }
      forall elapsed: int, m: nat, draw: nat | n <= m && Defined(p, m)
        ensures InBand(ComputeNextDelay(p, elapsed, m, draw), p.maximumInterval as real, draw)
      {
        StaysAtMaximum(p, elapsed, n, m, draw);
      }
      assert Settles(p, n);
    } else {
      forall n: nat | n >= 1 ensures Raw(p, n) < p.maximumInterval as real {
        StaysAtInitial(p, n);
      }
    }
  }

  /** The throttle policy waits for one, two, four and eight seconds and then for ten, less up to a
      fifth. */
  lemma ThrottleBackoff(elapsed: int, attempt: nat, draw: nat)
    requires attempt >= 1
    ensures var d := ComputeNextDelay(THROTTLE_POLICY, elapsed, attempt, draw);
            match attempt
            case 1 => InBand(d, 1_000_000_000.0, draw)
            case 2 => InBand(d, 2_000_000_000.0, draw)
            case 3 => InBand(d, 4_000_000_000.0, draw)
            case 4 => InBand(d, 8_000_000_000.0, draw)
            case _ => InBand(d, 10_000_000_000.0, draw)
  {
    var p := THROTTLE_POLICY;
    var xs := [1_000_000_000.0, 2_000_000_000.0, 4_000_000_000.0, 8_000_000_000.0, 16_000_000_000.0];
    assert Backoff(p, xs);
    if attempt <= 4 {
      DelayFollowsBackoff(p, elapsed, attempt, draw, xs);
    } else {
      RawIsBackoff(p, xs, 5);
      StaysAtMaximum(p, elapsed, 5, attempt, draw);
    }
  }

  /** A first phase of three attempts hands over to the second, which starts counting at one. */
  lemma PhasesHandOver(first: Policy, second: Policy, elapsed: int, attempt: int, draw: nat)
    requires Defined(TwoPhase(first, second), attempt) && first.Exponential? && first.maximumAttempts == 3
    ensures attempt > 3 ==>
              Defined(second, attempt - 3) &&
              ComputeNextDelay(TwoPhase(first, second), elapsed, attempt, draw)
              == ComputeNextDelay(second, elapsed, attempt - 3, draw)
    ensures ComputeNextDelay(first, elapsed, attempt, draw) != DONE ==>
              ComputeNextDelay(TwoPhase(first, second), elapsed, attempt, draw)
              == ComputeNextDelay(first, elapsed, attempt, draw)
  {
  }
}
