/** Mapping workflows to history shards, and shard IDs between clusters with different shard counts
    (common/util.go). Shard IDs start at 1; one count must divide the other. */
module ShardMapping {
  import opened GoInt

  datatype Mapping = Shards(ids: seq<int>) | Panics

  datatype Verdict = Accepted | Rejected | VerifyPanics

  /** The shard of a workflow, from the 32-bit hash of its namespace and ID. */
  function WorkflowIDToHistoryShard(hash: nat, numberOfShards: int): int
    requires numberOfShards > 0
  {
    hash % numberOfShards + 1
  }

  predicate Divides(a: int, b: int)
    requires a > 0
  {
    b % a == 0
  }

  predicate Compatible(m: int, n: int)
    requires m > 0 && n > 0
  {
    Divides(n, m) || Divides(m, n)
  }

  function Min(m: int, n: int): int {
    if m <= n then m else n
  }

  /** The meaning of a mapping: target shards whose workflows can come from the source shard are
      those in the same residue class modulo the smaller count. */
  ghost predicate Related(sourceCount: int, targetCount: int, source: int, target: int)
    requires sourceCount > 0 && targetCount > 0
  {
    && 1 <= target <= targetCount
    && (target - 1) % Min(sourceCount, targetCount) == (source - 1) % Min(sourceCount, targetCount)
  }

  // ----- arithmetic -----

  lemma ModSmall(x: int, m: int)
    requires 0 <= x < m
    ensures x % m == x
  {
    ModUnique(x, 0, x, m);
  }

  lemma ModPlusMultiple(x: int, k: int, m: int)
    requires m > 0
    ensures (x + k * m) % m == x % m
  {
    var q, r := x / m, x % m;
    assert x + k * m == (q + k) * m + r by { assert (q + k) * m == q * m + k * m; }
    ModUnique(x + k * m, q + k, r, m);
  }

  /** Reducing modulo a multiple first does not change a residue. */
  lemma ModMod(x: int, m: int, n: int)
    requires m > 0 && n > 0 && Divides(m, n)
    ensures (x % n) % m == x % m
  {
    var c, q := n / m, x / n;
    assert n == c * m;
    assert x == q * n + x % n;
    assert q * n == (q * c) * m;
    ModPlusMultiple(x % n, q * c, m);
  }

  // ----- the operations -----

  predicate IsInt32(x: int) {
    MIN_INT32 <= x <= MAX_INT32
  }

  /** The target shards of a source shard; incompatible counts panic. For a valid shard ID they are
      exactly the related shards. For any other one the arithmetic is the same and may wrap around. */
  method MapShardID(sourceCount: int, targetCount: int, sourceShardID: int) returns (r: Mapping)
    requires 0 < sourceCount <= MAX_INT32 && 0 < targetCount <= MAX_INT32 && IsInt32(sourceShardID)
    ensures r.Panics? <==> !Compatible(sourceCount, targetCount)
    ensures r.Shards? && 1 <= sourceShardID <= sourceCount ==>
              && (forall t :: t in r.ids <==> Related(sourceCount, targetCount, sourceShardID, t))
              && (forall i, j | 0 <= i < j < |r.ids| :: r.ids[i] < r.ids[j])
    ensures r.Shards? && sourceCount < targetCount ==>
              && |r.ids| == targetCount / sourceCount
              && forall i | 0 <= i < |r.ids| :: r.ids[i] == Wrap32(sourceShardID + i * sourceCount)
    ensures r.Shards? && sourceCount == targetCount ==> r.ids == [sourceShardID]
    ensures r.Shards? && sourceCount > targetCount ==>
              r.ids == [Rem(Wrap32(sourceShardID - 1), targetCount) + 1]
  {
    RemZero(sourceCount, targetCount);
    RemZero(targetCount, sourceCount);
    if Rem(sourceCount, targetCount) != 0 && Rem(targetCount, sourceCount) != 0 {
      return Panics;
    }
    var source := Wrap32(sourceShardID - 1);
    WrapAdd32(sourceShardID - 1, 1);
    if sourceCount < targetCount {
      ModSmall(sourceCount, targetCount);
      var ids := OneToMany(sourceCount, targetCount, source);
      OneToManyImages(sourceCount, targetCount, sourceShardID, ids);
      return Shards(ids);
    } else if sourceCount > targetCount {
      if 1 <= sourceShardID <= sourceCount { ManyToOne(sourceCount, targetCount, sourceShardID); }
      return Shards([Rem(source, targetCount) + 1]);
    } else {
      if 1 <= sourceShardID <= sourceCount { OneToOne(sourceCount, sourceShardID); }
      return Shards([Wrap32(source + 1)]);
    }
  }

  /** The loop of the one-to-many case. */
  method OneToMany(sourceCount: int, targetCount: int, source: int) returns (ids: seq<int>)
    requires 0 < sourceCount < targetCount <= MAX_INT32 && IsInt32(source)
    ensures |ids| == targetCount / sourceCount
    ensures forall i | 0 <= i < |ids| :: ids[i] == Wrap32(source + 1 + i * sourceCount)
  {
    var ratio := targetCount / sourceCount;
    ids := [];
    for i := 0 to ratio
      invariant |ids| == i
      invariant forall k | 0 <= k < i :: ids[k] == Wrap32(source + 1 + k * sourceCount)
    {
      WrapAdd32(source + Wrap32(i * sourceCount), 1);
      WrapAdd32(i * sourceCount, source + 1);
      ids := ids + [Wrap32(Wrap32(source + Wrap32(i * sourceCount)) + 1)];
    }
  }

  /** For a valid shard ID nothing wraps: the images are the related shards, in increasing order. */
  lemma OneToManyImages(sourceCount: int, targetCount: int, sourceShardID: int, ids: seq<int>)
    requires 0 < sourceCount < targetCount <= MAX_INT32 && Divides(sourceCount, targetCount) && IsInt32(sourceShardID)
    requires |ids| == targetCount / sourceCount
    requires forall i | 0 <= i < |ids| :: ids[i] == Wrap32(Wrap32(sourceShardID - 1) + 1 + i * sourceCount)
    ensures forall i | 0 <= i < |ids| :: ids[i] == Wrap32(sourceShardID + i * sourceCount)
    ensures 1 <= sourceShardID <= sourceCount ==>
              && (forall t :: t in ids <==> Related(sourceCount, targetCount, sourceShardID, t))
              && (forall i, j | 0 <= i < j < |ids| :: ids[i] < ids[j])
  {
    forall i | 0 <= i < |ids| ensures ids[i] == Wrap32(sourceShardID + i * sourceCount) {
      WrapAdd32(sourceShardID - 1, 1 + i * sourceCount);
    }
    if 1 <= sourceShardID <= sourceCount {
      var source := sourceShardID - 1;
      forall i | 0 <= i < |ids| ensures ids[i] == Image(sourceCount, source, i) {
        ImageIsRelated(sourceCount, targetCount, source, i);
      }
      ImagesInOrder(sourceCount, targetCount, source, ids);
    }
  }

  lemma ImagesInOrder(sourceCount: int, targetCount: int, source: int, ids: seq<int>)
    requires 0 < sourceCount < targetCount && Divides(sourceCount, targetCount) && 0 <= source < sourceCount
    requires |ids| == targetCount / sourceCount
    requires forall i | 0 <= i < |ids| :: ids[i] == Image(sourceCount, source, i)
    ensures forall t :: t in ids <==> Related(sourceCount, targetCount, source + 1, t)
    ensures forall i, j | 0 <= i < j < |ids| :: ids[i] < ids[j]
  {
    forall t
      ensures t in ids <==> Related(sourceCount, targetCount, source + 1, t)
    {
      ImagesAreRelated(sourceCount, targetCount, source, t);
      if t in ids {
        var k :| 0 <= k < |ids| && ids[k] == t;
        assert t == Image(sourceCount, source, k);
      }
      if k :| 0 <= k < |ids| && t == Image(sourceCount, source, k) {
        assert ids[k] == t;
      }
    }
    forall i, j | 0 <= i < j < |ids|
      ensures ids[i] < ids[j]
    {
      MulGap(j - i, sourceCount);
      assert (j - i) * sourceCount == j * sourceCount - i * sourceCount;
    }
  }

  /** The k-th target shard of a source shard (counted from zero) in the one-to-many case. */
  function Image(sourceCount: int, source: int, k: int): int {
    source + k * sourceCount + 1
  }

  lemma ImagesAreRelated(sourceCount: int, targetCount: int, source: int, t: int)
    requires 0 < sourceCount < targetCount && Divides(sourceCount, targetCount) && 0 <= source < sourceCount
    ensures Related(sourceCount, targetCount, source + 1, t) <==>
            exists k :: 0 <= k < targetCount / sourceCount && t == Image(sourceCount, source, k)
  {
    if Related(sourceCount, targetCount, source + 1, t) {
      RelatedIsImage(sourceCount, targetCount, source, t);
    }
    if k :| 0 <= k < targetCount / sourceCount && t == Image(sourceCount, source, k) {
      ImageIsRelated(sourceCount, targetCount, source, k);
    }
  }

  lemma RelatedIsImage(sourceCount: int, targetCount: int, source: int, t: int)
    requires 0 < sourceCount < targetCount && Divides(sourceCount, targetCount) && 0 <= source < sourceCount
    requires Related(sourceCount, targetCount, source + 1, t)
    ensures var k := (t - 1) / sourceCount;
            0 <= k < targetCount / sourceCount && t == Image(sourceCount, source, k)
  {
    var ratio := targetCount / sourceCount;
    var k := (t - 1) / sourceCount;
    ModSmall(source, sourceCount);
    assert targetCount == ratio * sourceCount;
    assert t - 1 == k * sourceCount + source;
    assert (k - ratio) * sourceCount == k * sourceCount - ratio * sourceCount;
    MulGap(k - ratio, sourceCount);
    MulGap(k, sourceCount);
  }

  lemma ImageIsRelated(sourceCount: int, targetCount: int, source: int, k: int)
    requires 0 < sourceCount < targetCount && Divides(sourceCount, targetCount) && 0 <= source < sourceCount
    requires 0 <= k < targetCount / sourceCount
    ensures Related(sourceCount, targetCount, source + 1, Image(sourceCount, source, k))
  {
    var ratio := targetCount / sourceCount;
    assert targetCount == ratio * sourceCount;
    ModPlusMultiple(source, k, sourceCount);
    assert (ratio - k) * sourceCount == ratio * sourceCount - k * sourceCount;
    MulGap(ratio - k, sourceCount);
    assert k * sourceCount >= 0;
  }

  lemma ManyToOne(sourceCount: int, targetCount: int, sourceShardID: int)
    requires 0 < targetCount < sourceCount && 1 <= sourceShardID <= sourceCount
    ensures forall t :: t == Rem(sourceShardID - 1, targetCount) + 1 <==> Related(sourceCount, targetCount, sourceShardID, t)
  {
    forall t
      ensures t == Rem(sourceShardID - 1, targetCount) + 1 <==> Related(sourceCount, targetCount, sourceShardID, t)
    {
      if 1 <= t <= targetCount { ModSmall(t - 1, targetCount); }
    }
  }

  lemma OneToOne(count: int, sourceShardID: int)
    requires count > 0 && 1 <= sourceShardID <= count
    ensures forall t :: t == sourceShardID <==> Related(count, count, sourceShardID, t)
  {
    forall t
      ensures t == sourceShardID <==> Related(count, count, sourceShardID, t)
    {
      ModSmall(sourceShardID - 1, count);
      if 1 <= t <= count { ModSmall(t - 1, count); }
    }
  }

  /** Accepts a pair of shard IDs when they leave the same remainder by the smaller count. */
  function VerifyShardIDMapping(thisCount: int, thatCount: int, thisID: int, thatID: int): Verdict
    requires thisCount > 0 && thatCount > 0
  {
    if Rem(thisCount, thatCount) != 0 && Rem(thatCount, thisCount) != 0 then VerifyPanics
    else
      var min := if thisCount > thatCount then thatCount else thisCount;
      if Rem(thisID, min) == Rem(thatID, min) then Accepted else Rejected
  }

  // ----- properties -----

  /** The target shard of any workflow is among the mapped shards of its source shard. */
  lemma MappingFollowsWorkflows(sourceCount: int, targetCount: int, hash: nat)
    requires sourceCount > 0 && targetCount > 0 && Compatible(sourceCount, targetCount)
    ensures Related(sourceCount, targetCount, WorkflowIDToHistoryShard(hash, sourceCount),
                    WorkflowIDToHistoryShard(hash, targetCount))
  {
    var m := Min(sourceCount, targetCount);
    MinDivides(sourceCount, targetCount);
    ModMod(hash, m, sourceCount);
    ModMod(hash, m, targetCount);
  }

  lemma MinDivides(m: int, n: int)
    requires m > 0 && n > 0 && Compatible(m, n)
    ensures Divides(Min(m, n), m) && Divides(Min(m, n), n)
  {
    ModUnique(m, 1, 0, m);
    ModUnique(n, 1, 0, n);
    if m < n { ModSmall(m, n); }
    if n < m { ModSmall(n, m); }
  }

  /** And conversely: every mapped pair is the pair of shards of some workflow hash below the larger
      count (and so within 32 bits), so the mapping is no larger than it has to be. */
  lemma MappedPairHasWorkflow(sourceCount: int, targetCount: int, source: int, target: int)
    requires sourceCount > 0 && targetCount > 0 && Compatible(sourceCount, targetCount)
    requires 1 <= source <= sourceCount && Related(sourceCount, targetCount, source, target)
    ensures exists hash: nat ::
              hash < (if sourceCount <= targetCount then targetCount else sourceCount) &&
              WorkflowIDToHistoryShard(hash, sourceCount) == source && WorkflowIDToHistoryShard(hash, targetCount) == target
  {
    var hash: nat := if sourceCount <= targetCount then target - 1 else source - 1;
    ModSmall(source - 1, sourceCount);
    ModSmall(target - 1, targetCount);
    assert WorkflowIDToHistoryShard(hash, sourceCount) == source && WorkflowIDToHistoryShard(hash, targetCount) == target;
  }

  /** Swapping the clusters inverts the relation. */
  lemma MappingIsSymmetric(m: int, n: int, a: int, b: int)
    requires m > 0 && n > 0 && 1 <= a <= m && 1 <= b <= n
    ensures Related(m, n, a, b) <==> Related(n, m, b, a)
  {
  }

  /** When the source count is not larger, every target shard comes from exactly one source shard. */
  lemma ImagesPartitionTargets(sourceCount: int, targetCount: int, target: int)
    requires 0 < sourceCount <= targetCount && 1 <= target <= targetCount
    ensures var source := (target - 1) % sourceCount + 1;
            && 1 <= source <= sourceCount && Related(sourceCount, targetCount, source, target)
            && forall other | 1 <= other <= sourceCount && Related(sourceCount, targetCount, other, target) :: other == source
  {
    var source := (target - 1) % sourceCount + 1;
    ModSmall(source - 1, sourceCount);
    forall other | 1 <= other <= sourceCount && Related(sourceCount, targetCount, other, target)
      ensures other == source
    {
      ModSmall(other - 1, sourceCount);
    }
  }

  /** Mapping through a third cluster whose count lies between is mapping directly. */
  lemma MappingComposes(a: int, b: int, c: int, x: int, z: int)
    requires 0 < a <= b <= c && Divides(a, b) && Divides(b, c)
    requires 1 <= x <= a && 1 <= z <= c
    ensures Related(a, c, x, z) <==> exists y :: 1 <= y <= b && Related(a, b, x, y) && Related(b, c, y, z)
  {
    var y0 := (z - 1) % b + 1;
    ModMod(z - 1, a, b);
    ModSmall(y0 - 1, b);
    if Related(a, c, x, z) {
      assert Related(a, b, x, y0) && Related(b, c, y0, z);
    }
    if y :| 1 <= y <= b && Related(a, b, x, y) && Related(b, c, y, z) {
      ModSmall(y - 1, b);
    }
  }

  /** The check accepts a pair of valid shard IDs exactly when one maps to the other. */
  lemma VerifyAcceptsExactlyMapped(m: int, n: int, a: int, b: int)
    requires m > 0 && n > 0 && 1 <= a <= m && 1 <= b <= n
    ensures VerifyShardIDMapping(m, n, a, b).VerifyPanics? <==> !Compatible(m, n)
    ensures Compatible(m, n) ==> (VerifyShardIDMapping(m, n, a, b) == Accepted <==> Related(m, n, a, b))
  {
    RemZero(m, n);
    RemZero(n, m);
    ShiftKeepsCongruence(a, b, Min(m, n));
  }

  lemma ShiftKeepsCongruence(a: int, b: int, m: int)
    requires m > 0
    ensures a % m == b % m <==> (a - 1) % m == (b - 1) % m
  {
    Succ(a - 1, m);
    Succ(b - 1, m);
  }

  lemma Succ(x: int, m: int)
    requires m > 0
    ensures (x + 1) % m == if x % m == m - 1 then 0 else x % m + 1
  {
    var q, r := x / m, x % m;
    if r == m - 1 {
      assert x + 1 == (q + 1) * m;
      ModUnique(x + 1, q + 1, 0, m);
    } else {
      ModUnique(x + 1, q, r + 1, m);
    }
  }
}
