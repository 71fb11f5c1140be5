/** The moving-window average (common/aggregate/moving_window_average.go): a ring buffer with a
    running sum and count. The reference is a mean over the recorded history. */
module MovingWindowAverage {
  import opened GoInt

  datatype Sample = Sample(value: int, timestamp: int)

  // ----- the reference -----

  /** The sum of the values recorded from index `k` on. */
  function SumFrom(history: seq<Sample>, k: nat): int
    requires k <= |history|
    decreases |history| - k
  {
    if k == |history| then 0 else history[k].value + SumFrom(history, k + 1)
  }

  predicate Young(x: Sample, window: int, at: int) {
    at - x.timestamp < window
  }

  /** The sum and the number of the samples from index `k` on that are young at time `at`. */
  function YoungSum(history: seq<Sample>, k: nat, window: int, at: int): int
    requires k <= |history|
    decreases |history| - k
  {
    if k == |history| then 0
    else (if Young(history[k], window, at) then history[k].value else 0) + YoungSum(history, k + 1, window, at)
  }

  function YoungCount(history: seq<Sample>, k: nat, window: int, at: int): nat
    requires k <= |history|
    decreases |history| - k
  {
    if k == |history| then 0
    else (if Young(history[k], window, at) then 1 else 0) + YoungCount(history, k + 1, window, at)
  }

  /** Where the last `n` recorded samples begin. */
  function LastStart(history: seq<Sample>, n: nat): (k: nat)
    ensures k <= |history|
  {
    if |history| <= n then 0 else |history| - n
  }

  function Mean(sum: int, count: nat): real {
    if count == 0 then 0.0 else sum as real / count as real
  }

  /** The mean of the young ones among the last `n` recorded values, zero if there are none. The sum
      is a 64-bit integer. */
  function MeanAt(history: seq<Sample>, n: nat, window: int, at: int): real {
    var k := LastStart(history, n);
    Mean(Wrap64(YoungSum(history, k, window, at)), YoungCount(history, k, window, at))
  }

  // ----- what a mean is -----

  /** The places of the samples from index `k` on that are younger than the window. */
  ghost function YoungPlaces(history: seq<Sample>, k: nat, window: int, at: int): set<int> {
    set i | k <= i < |history| && at - history[i].timestamp < window
  }

  lemma {:induction false} YoungCountIsNumber(history: seq<Sample>, k: nat, window: int, at: int)
    requires k <= |history|
    ensures YoungCount(history, k, window, at) == |YoungPlaces(history, k, window, at)|
    decreases |history| - k
  {
    var places := YoungPlaces(history, k, window, at);
    if k == |history| {
      assert places == {};
    } else {
      YoungCountIsNumber(history, k + 1, window, at);
      var rest := YoungPlaces(history, k + 1, window, at);
      assert places == if at - history[k].timestamp < window then {k} + rest else rest;
    }
  }

  /** All those samples have values from `lo` to `hi`. */
  ghost predicate YoungWithin(history: seq<Sample>, k: nat, window: int, at: int, lo: int, hi: int) {
    forall i | k <= i < |history| && at - history[i].timestamp < window :: lo <= history[i].value <= hi
  }

  lemma {:induction false} YoungSumWithin(history: seq<Sample>, k: nat, window: int, at: int, lo: int, hi: int)
    requires k <= |history| && YoungWithin(history, k, window, at, lo, hi)
    ensures var c := YoungCount(history, k, window, at);
            lo * c <= YoungSum(history, k, window, at) <= hi * c
    decreases |history| - k
  {
    if k < |history| {
      YoungSumWithin(history, k + 1, window, at, lo, hi);
      var c := YoungCount(history, k + 1, window, at);
      OneMore(lo, c);
      OneMore(hi, c);
    }
  }

  lemma OneMore(x: int, c: nat)
    ensures x * (c + 1) == x * c + x
  {
  }

  /** A mean times the number is the sum, and zero for no numbers. */
  ghost predicate Averages(avg: real, sum: int, count: nat) {
    if count == 0 then avg == 0.0 else avg * count as real == sum as real
  }

  /** The mean of the young samples, their sum being a 64-bit integer; when that sum fits, the mean
      lies within all bounds on their values. */
  ghost predicate IsMeanOfYoung(avg: real, history: seq<Sample>, n: nat, window: int, at: int) {
    var k := LastStart(history, n);
    var c, sum := |YoungPlaces(history, k, window, at)|, YoungSum(history, k, window, at);
    && Averages(avg, Wrap64(sum), c)
    && (c > 0 && MIN_INT64 <= sum <= MAX_INT64 ==>
          forall lo, hi | YoungWithin(history, k, window, at, lo, hi) :: lo as real <= avg <= hi as real)
  }

  lemma QuotientWithin(sum: int, c: int, lo: int, hi: int)
    requires c > 0 && lo * c <= sum <= hi * c
    ensures lo as real <= sum as real / c as real <= hi as real
  {
    var q := sum as real / c as real;
    assert q * c as real == sum as real;
    assert lo as real * c as real <= q * c as real <= hi as real * c as real;
  }

  lemma MeanWithin(history: seq<Sample>, n: nat, window: int, at: int, lo: int, hi: int)
    requires YoungWithin(history, LastStart(history, n), window, at, lo, hi)
    requires YoungCount(history, LastStart(history, n), window, at) > 0
    requires MIN_INT64 <= YoungSum(history, LastStart(history, n), window, at) <= MAX_INT64
    ensures lo as real <= MeanAt(history, n, window, at) <= hi as real
  {
    var k := LastStart(history, n);
    YoungSumWithin(history, k, window, at, lo, hi);
    QuotientWithin(YoungSum(history, k, window, at), YoungCount(history, k, window, at), lo, hi);
  }

  lemma MeanAverages(sum: int, count: nat)
    ensures Averages(Mean(sum, count), sum, count)
  {
  }

  lemma MeanAtIsMean(history: seq<Sample>, n: nat, window: int, at: int)
    ensures IsMeanOfYoung(MeanAt(history, n, window, at), history, n, window, at)
  {
    var k := LastStart(history, n);
    YoungCountIsNumber(history, k, window, at);
    MeanAverages(Wrap64(YoungSum(history, k, window, at)), YoungCount(history, k, window, at));
    if YoungCount(history, k, window, at) > 0 && MIN_INT64 <= YoungSum(history, k, window, at) <= MAX_INT64 {
      forall lo, hi | YoungWithin(history, k, window, at, lo, hi)
        ensures lo as real <= MeanAt(history, n, window, at) <= hi as real
      {
        MeanWithin(history, n, window, at, lo, hi);
      }
    }
  }

  lemma {:induction false} SumSnoc(history: seq<Sample>, k: nat, x: Sample)
    requires k <= |history|
    ensures SumFrom(history + [x], k) == SumFrom(history, k) + x.value
    decreases |history| - k
  {
    if k < |history| {
      SumSnoc(history, k + 1, x);
    } else {
      assert SumFrom(history + [x], k) == x.value + SumFrom(history + [x], k + 1);
    }
  }

  ghost predicate NotLater(samples: seq<Sample>, i: nat, j: nat)
    requires i < |samples| && j < |samples|
  {
    samples[i].timestamp <= samples[j].timestamp
  }

  ghost predicate InOrder(samples: seq<Sample>) {
    forall i: nat, j: nat | i < j < |samples| :: NotLater(samples, i, j)
  }

  /** Clock readings from a time on: none is earlier than that time or than the one before it. */
  ghost predicate Ticks(clock: seq<int>, from: int) {
    && (forall i | 0 <= i < |clock| :: from <= clock[i])
    && (forall i, j | 0 <= i < j < |clock| :: clock[i] <= clock[j])
  }

  /** When the samples from `k` to `m` are old and all later ones young, the young ones are these. */
  lemma {:induction false} YoungSuffix(history: seq<Sample>, k: nat, m: nat, window: int, at: int)
    requires k <= m <= |history|
    requires forall i | k <= i < m :: !Young(history[i], window, at)
    requires forall i | m <= i < |history| :: Young(history[i], window, at)
    ensures YoungSum(history, k, window, at) == SumFrom(history, m)
    ensures YoungCount(history, k, window, at) == |history| - m
    decreases |history| - k
  {
    if k < m {
      YoungSuffix(history, k + 1, m, window, at);
    } else if k < |history| {
      YoungSuffix(history, k + 1, m + 1, window, at);
    }
  }

  // ----- the ring -----

  /** The buffer index of the i-th element after the head. */
  function Slot(head: nat, i: nat, capacity: nat): nat {
    if head + i < capacity then head + i else head + i - capacity
  }

  /** Advancing an index by one, modulo the capacity. */
  lemma Advance(i: nat, capacity: nat)
    requires i < capacity
    ensures (i + 1) % capacity == Slot(i, 1, capacity)
  {
    if i + 1 == capacity {
      ModUnique(capacity, 1, 0, capacity);
    } else {
      ModUnique(i + 1, 0, i + 1, capacity);
    }
  }

  /** The ring holds, from the head on, the last `count` samples of the history. */
  ghost predicate Holds(ring: seq<Sample>, head: nat, count: nat, history: seq<Sample>) {
    && head < |ring| && count <= |ring| && count <= |history|
    && forall i: nat | i < count :: HoldsAt(ring, head, count, history, i)
  }

  ghost predicate HoldsAt(ring: seq<Sample>, head: nat, count: nat, history: seq<Sample>, i: nat)
    requires head < |ring| && i < count <= |ring| && count <= |history|
  {
    ring[Slot(head, i, |ring|)] == history[|history| - count + i]
  }

  /** Writing at the tail adds the newest sample. */
  lemma PushHolds(ring: seq<Sample>, head: nat, count: nat, history: seq<Sample>, x: Sample)
    requires Holds(ring, head, count, history) && count < |ring|
    ensures Holds(ring[Slot(head, count, |ring|) := x], head, count + 1, history + [x])
  {
    var ring', history' := ring[Slot(head, count, |ring|) := x], history + [x];
    var n := count + 1;
    forall i: nat | i < n
      ensures HoldsAt(ring', head, n, history', i)
    {
      if i < count { assert HoldsAt(ring, head, count, history, i); }
    }
  }

  /** Moving the head drops the oldest sample held. */
  lemma PopHolds(ring: seq<Sample>, head: nat, count: nat, history: seq<Sample>)
    requires Holds(ring, head, count, history) && count > 0
    ensures ring[head] == history[|history| - count]
    ensures Slot(head, 1, |ring|) < |ring| && Holds(ring, Slot(head, 1, |ring|), count - 1, history)
    ensures SumFrom(history, |history| - count) == ring[head].value + SumFrom(history, |history| - (count - 1))
  {
    assert HoldsAt(ring, head, count, history, 0);
    var head', n := Slot(head, 1, |ring|), count - 1;
    forall i: nat | i < n
      ensures HoldsAt(ring, head', n, history, i)
    {
      assert HoldsAt(ring, head, count, history, i + 1);
    }
  }

  /** Of the last `n` samples, those no longer held are old at `time`. */
  ghost predicate DroppedAreOld(history: seq<Sample>, count: nat, n: nat, window: int, time: int)
    requires count <= |history|
  {
    forall i | 0 <= i < |history| - count && i >= |history| - n :: !Young(history[i], window, time)
  }

  ghost predicate RecordedBy(history: seq<Sample>, time: int) {
    InOrder(history) && forall i | 0 <= i < |history| :: history[i].timestamp <= time
  }

  lemma RecordKeepsOrder(history: seq<Sample>, time: int, x: Sample)
    requires RecordedBy(history, time) && time <= x.timestamp
    ensures RecordedBy(history + [x], x.timestamp)
  {
    var h := history + [x];
    forall i: nat, j: nat | i < j < |h|
      ensures NotLater(h, i, j)
    {
      if j < |history| { assert NotLater(history, i, j); }
    }
  }

  /** As time passes nothing held or dropped changes its standing; and an old head may be dropped. */
  lemma TimePasses(history: seq<Sample>, count: nat, n: nat, window: int, time: int, time': int)
    requires count <= |history| && time <= time'
    requires RecordedBy(history, time) && DroppedAreOld(history, count, n, window, time)
    ensures RecordedBy(history, time') && DroppedAreOld(history, count, n, window, time')
    ensures count > 0 && !Young(history[|history| - count], window, time') ==>
              DroppedAreOld(history, count - 1, n, window, time')
  {
  }

  lemma StillOld(history: seq<Sample>, count: nat, n: nat, window: int, time: int, x: Sample)
    requires count <= |history| && DroppedAreOld(history, count, n, window, time) && time <= x.timestamp
    ensures DroppedAreOld(history + [x], count + 1, n, window, x.timestamp)
  {
  }

  lemma PushSum(history: seq<Sample>, count: nat, sum: int, x: Sample)
    requires count <= |history| && sum == Wrap64(SumFrom(history, |history| - count))
    ensures Wrap64(sum + x.value) == Wrap64(SumFrom(history + [x], |history| - count))
  {
    SumSnoc(history, |history| - count, x);
    WrapAdd64(SumFrom(history, |history| - count), x.value);
  }

  /** The held samples are the young ones of the last `n` once the first of them is young. */
  lemma MeanOfHeld(history: seq<Sample>, count: nat, n: nat, window: int, time: int)
    requires count <= n && count <= |history|
    requires InOrder(history) && DroppedAreOld(history, count, n, window, time)
    requires count > 0 ==> Young(history[|history| - count], window, time)
    ensures MeanAt(history, n, window, time) == Mean(Wrap64(SumFrom(history, |history| - count)), count)
  {
    var m := |history| - count;
    forall i | m <= i < |history|
      ensures Young(history[i], window, time)
    {
      if i > m { assert NotLater(history, m, i); }
    }
    YoungSuffix(history, LastStart(history, n), m, window, time);
  }

  /** `at` is the time of the last clock reading of an expiry that starts with `held` samples and
      leaves `kept` of them: one reading for each sample dropped and one for the first sample kept.
      When nothing is held no reading is made and the time is still the one before. */
  ghost predicate IsLastReading(clock: seq<int>, held: nat, kept: nat, before: int, at: int)
    requires kept <= held <= |clock|
  {
    at == if held == 0 then before else clock[if kept > 0 then held - kept else held - 1]
  }

  ghost predicate OldAt(history: seq<Sample>, k: nat, window: int, clock: seq<int>, i: nat)
    requires k + i < |history| && i < |clock|
  {
    !Young(history[k + i], window, clock[i])
  }

  /** Each of the first `n` samples from `k` on was old at the reading made for it. */
  ghost predicate OldInTurn(history: seq<Sample>, k: nat, n: nat, window: int, clock: seq<int>)
    requires k + n <= |history| && n <= |clock|
  {
    forall i: nat | i < n :: OldAt(history, k, window, clock, i)
  }

  class MovingWindowAvg {
    const windowSize: int
    const maxBufferSize: nat
    const buffer: array<Sample>
    var headIdx: nat
    var tailIdx: nat
    var sum: int
    var count: nat
    ghost var history: seq<Sample>  // everything recorded
    ghost var lastTime: int         // no clock reading so far is later

    /** The ring holds the last `count` samples of the history; whatever else of the last
        maxBufferSize - 1 has been dropped was old already. */
    ghost predicate Consistent()
      reads this, buffer
    {
      && maxBufferSize >= 1 && buffer.Length == maxBufferSize
      && tailIdx == Slot(headIdx, count, maxBufferSize)
      && Holds(buffer[..], headIdx, count, history)
      && sum == Wrap64(SumFrom(history, |history| - count))
      && RecordedBy(history, lastTime)
      && DroppedAreOld(history, count, maxBufferSize - 1, windowSize, lastTime)
    }

    /** Between calls one slot of the ring is free. */
    ghost predicate Valid()
      reads this, buffer
    {
      Consistent() && count < maxBufferSize
    }

    constructor (windowSize: int, maxBufferSize: nat, ghost now: int)
      requires maxBufferSize >= 1
      ensures Valid() && history == [] && lastTime == now
      ensures this.windowSize == windowSize && this.maxBufferSize == maxBufferSize && fresh(buffer)
    {
      this.windowSize := windowSize;
      this.maxBufferSize := maxBufferSize;
      buffer := new Sample[maxBufferSize](_ => Sample(0, 0));
      headIdx, tailIdx, sum, count := 0, 0, 0, 0;
      history, lastTime := [], now;
      new;
      assert Holds(buffer[..], headIdx, 0, []);
    }

    method Record(val: int, now: int)
      requires Valid() && lastTime <= now
      modifies this, buffer
      ensures Valid() && history == old(history) + [Sample(val, now)] && lastTime == now
    {
      Append(val, now);
      if tailIdx == headIdx {
        DropOldest();
      }
    }

    /** Writes the sample at the tail and counts it; the ring may now be full. */
    method Append(val: int, now: int)
      requires Valid() && lastTime <= now
      modifies this, buffer
      ensures Consistent() && count == old(count) + 1
      ensures history == old(history) + [Sample(val, now)] && lastTime == now
    {
      ghost var x := Sample(val, now);
      PushSum(history, count, sum, x);
      RecordKeepsOrder(history, lastTime, x);
      StillOld(history, count, maxBufferSize - 1, windowSize, lastTime, x);
      WriteTail(Sample(val, now));
      Advance(tailIdx, maxBufferSize);
      tailIdx := (tailIdx + 1) % maxBufferSize;
      sum := Wrap64(sum + val);
      count := count + 1;
      history := history + [Sample(val, now)];
      lastTime := now;
    }

    method WriteTail(x: Sample)
      requires Valid()
      modifies buffer
      ensures Holds(buffer[..], headIdx, count + 1, history + [x])
    {
      PushHolds(buffer[..], headIdx, count, history, x);
      buffer[tailIdx] := x;
      assert buffer[..] == old(buffer[..])[tailIdx := x];
    }

    /** Takes the oldest sample out of the sum and moves the head past it. */
    method DropOldest()
      requires maxBufferSize >= 1 && buffer.Length == maxBufferSize
      requires count > 0 && Holds(buffer[..], headIdx, count, history)
      requires sum == Wrap64(SumFrom(history, |history| - count))
      modifies this`sum, this`count, this`headIdx
      ensures count == old(count) - 1 && headIdx == Slot(old(headIdx), 1, maxBufferSize)
      ensures Holds(buffer[..], headIdx, count, history)
      ensures sum == Wrap64(SumFrom(history, |history| - count))
    {
      PopHolds(buffer[..], headIdx, count, history);
      WrapAdd64(SumFrom(history, |history| - count), -buffer[headIdx].value);
      sum := Wrap64(sum - buffer[headIdx].value);
      count := count - 1;
      Advance(headIdx, maxBufferSize);
      headIdx := (headIdx + 1) % maxBufferSize;
    }

    /** The average at the time of the last clock reading the call makes (`at`). `clock` holds as many
        readings as a call can make, and they are taken in order. On a clock that stands still the
        time is simply that of the clock. */
    method Average(clock: seq<int>) returns (avg: real, ghost at: int)
      requires Valid()
      requires |clock| >= maxBufferSize && Ticks(clock, lastTime)
      modifies this
      ensures Valid() && history == old(history)
      ensures count <= old(count) <= |history| && at == lastTime
      ensures IsLastReading(clock, old(count), count, old(lastTime), at)
      ensures OldInTurn(history, |history| - old(count), old(count) - count, windowSize, clock)
      ensures avg == MeanAt(history, maxBufferSize - 1, windowSize, at)
      ensures IsMeanOfYoung(avg, history, maxBufferSize - 1, windowSize, at)
      ensures (forall i | 0 <= i < |clock| :: clock[i] == clock[0]) ==>
                avg == MeanAt(history, maxBufferSize - 1, windowSize, clock[0])
    {
      ghost var before := lastTime;
      ExpireOldValues(clock);
      MeanOfHeld(history, count, maxBufferSize - 1, windowSize, lastTime);
      if old(count) == 0 {
        TimePasses(history, 0, maxBufferSize - 1, windowSize, before, clock[0]);
        MeanOfHeld(history, 0, maxBufferSize - 1, windowSize, clock[0]);
      }
      MeanAtIsMean(history, maxBufferSize - 1, windowSize, lastTime);
      return Mean(sum, count), lastTime;
    }

    /** Drops samples from the head until one is younger than the window, reading the clock for each. */
    method ExpireOldValues(clock: seq<int>)
      requires Valid()
      requires |clock| >= maxBufferSize && Ticks(clock, lastTime)
      modifies this
      ensures Valid() && history == old(history) && count <= old(count) <= |history|
      ensures IsLastReading(clock, old(count), count, old(lastTime), lastTime)
      ensures OldInTurn(history, |history| - old(count), old(count) - count, windowSize, clock)
      ensures count > 0 ==> Young(history[|history| - count], windowSize, lastTime)
    {
      var tick: nat := 0;
      while headIdx != tailIdx
        invariant Valid() && history == old(history)
        invariant tick + count == old(count)
        invariant OldInTurn(history, |history| - old(count), tick, windowSize, clock)
        invariant lastTime == if tick == 0 then old(lastTime) else clock[tick - 1]
        decreases count
      {
        var young := ExpireHead(clock[tick]);
        if young {
          return;
        }
        assert OldAt(history, |history| - old(count), windowSize, clock, tick);
        tick := tick + 1;
      }
    }

    /** One round: the head is dropped unless it is younger than the window. */
    method ExpireHead(t: int) returns (young: bool)
      requires Valid() && count > 0 && lastTime <= t
      modifies this
      ensures Valid() && history == old(history) && lastTime == t
      ensures count == old(count) - if young then 0 else 1
      ensures young <==> Young(history[|history| - old(count)], windowSize, t)
    {
      PopHolds(buffer[..], headIdx, count, history);
      TimePasses(history, count, maxBufferSize - 1, windowSize, lastTime, t);
      young := t - buffer[headIdx].timestamp < windowSize;
      lastTime := t;
      if !young {
        DropOldest();
      }
    }
  }
}
