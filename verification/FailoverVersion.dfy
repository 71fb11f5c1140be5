/** Failover-version arithmetic (common/cluster/metadata.go): every cluster owns one residue class
    of versions modulo the failover increment. Versions are 64-bit and wrap around. */
module FailoverVersion {
  import opened GoInt
  import opened Wrappers

  const EMPTY_VERSION := 0

  datatype ClusterInfo = ClusterInfo(
    enabled: bool, initialVersion: int, rpcAddress: string,
    clusterId: string, shardCount: int, version: int)

  type Clusters = map<string, ClusterInfo>

  /** What building the reverse index demands of one cluster. */
  predicate ValidCluster(increment: int, name: string, info: ClusterInfo) {
    && 0 < info.initialVersion < increment
    && name != ""
    && (info.enabled ==> info.rpcAddress != "")
  }

  ghost predicate ValidClusters(increment: int, clusters: Clusters) {
    forall name | name in clusters :: ValidCluster(increment, name, clusters[name])
  }

  ghost predicate DistinctVersions(clusters: Clusters) {
    forall a, b | a in clusters && b in clusters && a != b ::
      clusters[a].initialVersion != clusters[b].initialVersion
  }

  /** Every entry of the index leads back to a cluster with that initial version, and every
      cluster's initial version has an entry. */
  ghost predicate IsReverseIndex(clusters: Clusters, index: map<int, string>) {
    && (forall v | v in index :: index[v] in clusters && clusters[index[v]].initialVersion == v)
    && (forall name | name in clusters :: clusters[name].initialVersion in index)
  }

  // ----- the operations -----

  /** The next version of a cluster from a current version; `None` is the panic on an unknown name. */
  function GetNextFailoverVersion(clusters: Clusters, increment: int, name: string, current: int): (next: Option<int>)
    requires increment > 0
    ensures next.None? <==> name !in clusters
    ensures next.Some? ==> MIN_INT64 <= next.value <= MAX_INT64
  {
    if name !in clusters then None
    else
      var failoverVersion := Wrap64(Wrap64(Div(current, increment) * increment) + clusters[name].initialVersion);
      if failoverVersion < current then Some(Wrap64(failoverVersion + increment)) else Some(failoverVersion)
  }

  predicate IsVersionFromSameCluster(increment: int, version1: int, version2: int)
    requires increment > 0
  {
    Rem(Wrap64(version1 - version2), increment) == 0
  }

  /** The name for a version: a cluster's, or "unknown-cluster-" followed by a number, or a panic. */
  datatype ClusterName = Named(name: string) | UnknownCluster(version: int) | Panics

  function ClusterNameForFailoverVersion(index: map<int, string>, increment: int, currentCluster: string,
                                         isGlobalNamespace: bool, version: int): ClusterName
    requires increment > 0
  {
    if version == EMPTY_VERSION then
      if isGlobalNamespace then UnknownCluster(version) else Named(currentCluster)
    else if !isGlobalNamespace then Panics
    else
      var rem := Rem(version, increment);
      var initial := if rem == EMPTY_VERSION then increment else rem;
      if initial in index then Named(index[initial]) else UnknownCluster(initial)
  }

  // ----- ownership -----

  ghost predicate Owned(increment: int, info: ClusterInfo, version: int)
    requires increment > 0
  {
    version % increment == info.initialVersion
  }

  ghost predicate IsLeastOwned(increment: int, info: ClusterInfo, from: int, m: int)
    requires increment > 0
  {
    && from <= m && Owned(increment, info, m)
    && forall w | from <= w < m :: !Owned(increment, info, w)
  }

  /** The least owned version from `v` on, by the quotient and remainder of `v`. */
  function LeastFrom(increment: int, initial: int, v: int): int
    requires increment > 0
  {
    v / increment * increment + initial + if v % increment > initial then increment else 0
  }

  lemma LeastOwned(increment: int, info: ClusterInfo, v: int)
    requires increment > 0 && 0 < info.initialVersion < increment
    ensures var m := LeastFrom(increment, info.initialVersion, v);
            IsLeastOwned(increment, info, v, m) && m < v + increment
  {
    var q, r := v / increment, v % increment;
    var init := info.initialVersion;
    var base := q * increment;
    var m := base + init + if r > init then increment else 0;
    assert v == base + r;
    assert (q + 1) * increment == base + increment;
    ModUnique(base + init, q, init, increment);
    ModUnique(base + increment + init, q + 1, init, increment);
    forall w | v <= w < m
      ensures !Owned(increment, info, w)
    {
      if w < base + increment {
        ModUnique(w, q, w - base, increment);
      } else {
        ModUnique(w, q + 1, w - base - increment, increment);
      }
    }
  }

  lemma LeastOwnedUnique(increment: int, info: ClusterInfo, v: int, a: int, b: int)
    requires increment > 0
    requires IsLeastOwned(increment, info, v, a) && IsLeastOwned(increment, info, v, b)
    ensures a == b
  {
    assert Owned(increment, info, a) && Owned(increment, info, b);
  }

  /** From a version that is not negative, the least owned version is out of 64-bit range. */
  predicate Wraps(increment: int, initial: int, v: int)
    requires increment > 0
  {
    v >= 0 && LeastFrom(increment, initial, v) > MAX_INT64
  }

  /** For every current version in 0..MaxInt64, the next version is the least version from it on
      that the cluster owns, less than one increment away, exactly when that fits in 64 bits;
      otherwise the result has wrapped to a negative number. */
  lemma NextVersionIsLeastOwned(clusters: Clusters, increment: int, name: string, v: int, m: int)
    requires 0 < increment <= MAX_INT32
    requires name in clusters && ValidClusters(increment, clusters)
    requires 0 <= v <= MAX_INT64
    requires IsLeastOwned(increment, clusters[name], v, m)
    ensures v <= m < v + increment && (Wraps(increment, clusters[name].initialVersion, v) <==> m > MAX_INT64)
    ensures var next := GetNextFailoverVersion(clusters, increment, name, v).value;
            && (m <= MAX_INT64 ==> next == m)
            && (m > MAX_INT64 ==> next < 0)
  {
    var info := clusters[name];
    assert ValidCluster(increment, name, info);
    LeastOwned(increment, info, v);
    LeastOwnedUnique(increment, info, v, m, LeastFrom(increment, info.initialVersion, v));
    NextVersionForm(clusters, increment, name, v);
  }

  /** How far the next version is above the initial one, before wrap-around: a multiple of the
      increment, which truncation moves up from a negative version. */
  function Base(increment: int, initial: int, v: int): int
    requires increment > 0
  {
    if v < 0 then -(-v / increment * increment)
    else v / increment * increment + if Wraps(increment, initial, v) || v % increment > initial then increment else 0
  }

  /** The next version in each of the three cases: truncation from a negative version, the least
      owned version, and wrap-around. */
  lemma NextVersionForm(clusters: Clusters, increment: int, name: string, v: int)
    requires 0 < increment <= MAX_INT32
    requires name in clusters && ValidClusters(increment, clusters)
    requires MIN_INT64 <= v <= MAX_INT64
    ensures var init := clusters[name].initialVersion;
            var next := GetNextFailoverVersion(clusters, increment, name, v).value;
            && next == Base(increment, init, v) + init - (if Wraps(increment, init, v) then TWO_64 else 0)
            && (v < 0 ==> v <= next)
            && (v >= 0 ==> if Wraps(increment, init, v) then next < 0 else 0 <= next == LeastFrom(increment, init, v))
  {
    assert ValidCluster(increment, name, clusters[name]);
    if v < 0 {
      var q := -v / increment;
      assert -v == q * increment + -v % increment;
      assert Div(v, increment) * increment == -q * increment == -(q * increment);
    } else {
      assert v == v / increment * increment + v % increment;
    }
  }

  lemma BaseIsMultiple(increment: int, initial: int, v: int)
    requires increment > 0
    ensures Base(increment, initial, v) % increment == 0
  {
    var q := v / increment;
    assert (q + 1) * increment == q * increment + increment;
    ModUnique(q * increment, q, 0, increment);
    ModUnique(q * increment + increment, q + 1, 0, increment);
    var k := -v / increment;
    assert -k * increment == -(k * increment);
    ModUnique(-(k * increment), -k, 0, increment);
  }

  /** For negative current versions truncation moves the base up. The result is still owned and not
      below the current version; it is the least such exactly when the remainder leaves no room for
      an earlier one. */
  lemma NextVersionFromNegative(clusters: Clusters, increment: int, name: string, v: int)
    requires 0 < increment <= MAX_INT32
    requires name in clusters && ValidClusters(increment, clusters)
    requires MIN_INT64 <= v < 0
    ensures var info := clusters[name];
            var next := GetNextFailoverVersion(clusters, increment, name, v).value;
            && v <= next && Owned(increment, info, next)
            && (IsLeastOwned(increment, info, v, next) <==> -v % increment + info.initialVersion < increment)
  {
    var info := clusters[name];
    assert ValidCluster(increment, name, info);
    var init := info.initialVersion;
    var q, r := -v / increment, -v % increment;
    assert -v == q * increment + r;
    assert Div(v, increment) * increment == -q * increment == -(q * increment);
    var next := -(q * increment) + init;
    ModUnique(next, -q, init, increment);
    assert GetNextFailoverVersion(clusters, increment, name, v) == Some(next);
    assert (-q - 1) * increment == -(q * increment) - increment;
    ModUnique(next - increment, -q - 1, init, increment);
    if r + init < increment {
      forall w | v <= w < next
        ensures !Owned(increment, info, w)
      {
        if w < -(q * increment) {
          ModUnique(w, -q - 1, w + q * increment + increment, increment);
        } else {
          ModUnique(w, -q, w + q * increment, increment);
        }
      }
    } else {
      assert v <= next - increment < next;
      assert Owned(increment, info, next - increment);
    }
  }

  /** A version from which no owned version is left: the result wraps to a negative number that the
      cluster does not own. */
  lemma LastVersionWraps()
    ensures var info := ClusterInfo(false, 3, "", "", 0, 0);
            && GetNextFailoverVersion(map["a" := info], 10, "a", MAX_INT64) == Some(MIN_INT64 + 5)
            && MIN_INT64 + 5 < 0 && !Owned(10, info, MIN_INT64 + 5)
  {
    assert MAX_INT64 / 10 * 10 == MAX_INT64 - 7;
  }

  lemma TruncationOvershoots()
    ensures var info := ClusterInfo(false, 3, "", "", 0, 0);
            var clusters := map["a" := info];
            && GetNextFailoverVersion(clusters, 10, "a", -8) == Some(3)
            && Owned(10, info, -7)
  {
  }

  // ----- owners -----

  /** A cluster's index entry is the cluster itself when initial versions are distinct. */
  lemma IndexFindsOwner(increment: int, clusters: Clusters, index: map<int, string>, name: string)
    requires ValidClusters(increment, clusters) && DistinctVersions(clusters)
    requires IsReverseIndex(clusters, index) && name in clusters
    ensures clusters[name].initialVersion in index && index[clusters[name].initialVersion] == name
  {
    var v := clusters[name].initialVersion;
    assert index[v] in clusters && clusters[index[v]].initialVersion == v;
  }

  /** A local namespace knows only the empty version, which is the current cluster's; every other one
      panics. In a global namespace the empty version is unknown, and any other one is looked up by its
      remainder, which has its sign, or by the increment when that is zero; an unknown name carries
      that number. */
  lemma NameByNamespace(index: map<int, string>, increment: int, current: string, version: int)
    requires increment > 0
    ensures var local := ClusterNameForFailoverVersion(index, increment, current, false, version);
            local == if version == 0 then Named(current) else Panics
    ensures var global := ClusterNameForFailoverVersion(index, increment, current, true, version);
            && !global.Panics?
            && (version == 0 ==> global == UnknownCluster(0))
            && (version != 0 ==>
                  exists n :: && (if version % increment == 0 then n == increment
                                  else -increment < n < increment && n % increment == version % increment
                                       && (n > 0 <==> version > 0))
                              && global == if n in index then Named(index[n]) else UnknownCluster(n))
  {
    RemZero(version, increment);
    var n := Rem(version, increment);
    if version > 0 && n != 0 {
      ModUnique(n, 0, n, increment);
    } else if version < 0 && n != 0 {
      NegativeRem(version, increment);
    }
  }

  /** The remainder of a negative number is congruent to it. */
  lemma NegativeRem(x: int, y: int)
    requires x < 0 < y && Rem(x, y) != 0
    ensures -y < Rem(x, y) < 0 && Rem(x, y) % y == x % y
  {
    var q, r := -x / y, -x % y;
    assert -x == q * y + r;
    assert (-q - 1) * y == -(q * y) - y;
    ModUnique(x, -q - 1, y - r, y);
    ModUnique(-r, -1, y - r, y);
  }

  /** In a global namespace a positive version's name is the cluster that owns it, and is unknown when
      no cluster does; zero and negative versions are unknown. */
  lemma NameIsOwner(increment: int, clusters: Clusters, index: map<int, string>, current: string, version: int)
    requires increment > 0
    requires ValidClusters(increment, clusters) && DistinctVersions(clusters) && IsReverseIndex(clusters, index)
    ensures var result := ClusterNameForFailoverVersion(index, increment, current, true, version);
            && !result.Panics?
            && (forall name :: result == Named(name) <==>
                  version > 0 && name in clusters && Owned(increment, clusters[name], version))
            && (result.UnknownCluster? <==>
                  version <= 0 || forall name | name in clusters :: !Owned(increment, clusters[name], version))
  {
    var result := ClusterNameForFailoverVersion(index, increment, current, true, version);
    var r := version % increment;
    assert forall v | v in index :: ValidCluster(increment, index[v], clusters[index[v]]);
    if version > 0 {
      forall name | name in clusters && Owned(increment, clusters[name], version)
        ensures result == Named(name)
      {
        assert ValidCluster(increment, name, clusters[name]);
        IndexFindsOwner(increment, clusters, index, name);
      }
      if result.Named? {
        assert r in index && clusters[index[r]].initialVersion == r;
      }
    }
  }

  /** From any current version, the next version of a cluster maps back to that cluster exactly when
      the current version is above minus one increment and the result does not wrap; otherwise its
      name is unknown. */
  lemma NextVersionNamesItsCluster(clusters: Clusters, index: map<int, string>, increment: int, current: string,
                                   name: string, v: int)
    requires 0 < increment <= MAX_INT32
    requires ValidClusters(increment, clusters) && DistinctVersions(clusters) && IsReverseIndex(clusters, index)
    requires name in clusters && MIN_INT64 <= v <= MAX_INT64
    ensures var next := GetNextFailoverVersion(clusters, increment, name, v).value;
            var result := ClusterNameForFailoverVersion(index, increment, current, true, next);
            if -increment < v && !Wraps(increment, clusters[name].initialVersion, v)
            then result == Named(name) else result.UnknownCluster?
  {
    var info := clusters[name];
    var next := GetNextFailoverVersion(clusters, increment, name, v).value;
    assert ValidCluster(increment, name, info);
    NextVersionForm(clusters, increment, name, v);
    NameIsOwner(increment, clusters, index, current, next);
    if v < 0 {
      NegativeQuotient(v, increment);
      ModUnique(next, -(-v / increment), info.initialVersion, increment);
    } else {
      LeastOwned(increment, info, v);
    }
  }

  lemma NegativeQuotient(v: int, increment: int)
    requires increment > 0 && v < 0
    ensures -v < increment ==> -v / increment * increment == 0
    ensures -v >= increment ==> -v / increment * increment >= increment
    ensures -(-v / increment) * increment == -(-v / increment * increment)
  {
    var q := -v / increment;
    assert -v == q * increment + -v % increment;
    MulGap(q, increment);
    if -v < increment {
      ModUnique(-v, 0, -v, increment);
    }
  }

  /** `a` wraps around from `va` onto a version that `b` can reach: 2^64 separates their residue classes,
      and `b` starts within one increment below where `a` lands. */
  predicate WrapsOnto(increment: int, initialA: int, va: int, initialB: int, vb: int)
    requires increment > 0
  {
    var m := Base(increment, initialA, va) + initialA - initialB - TWO_64;
    && Wraps(increment, initialA, va) && vb < 0
    && (initialA - initialB - TWO_64) % increment == 0
    && m - increment < vb <= m
  }

  /** The multiple of the increment that a negative start is truncated to is the one just above it. */
  lemma NegativeBase(increment: int, initial: int, v: int, m: int)
    requires increment > 0 && v < 0
    ensures m == Base(increment, initial, v) <==> m % increment == 0 && m - increment < v <= m
  {
    var b := Base(increment, initial, v);
    var q := -v / increment;
    assert -v == q * increment + -v % increment;
    BaseIsMultiple(increment, initial, v);
    if m % increment == 0 && m - increment < v <= m {
      SameResidue(increment, m, b);
      ModUnique(0, 0, 0, increment);
      var d := (m - b) / increment;
      assert m - b == d * increment;
      MulGap(d, increment);
    }
  }

  /** Adding a multiple of the increment changes no residue. */
  lemma LandingIsMultiple(increment: int, base: int, d: int)
    requires increment > 0 && base % increment == 0
    ensures (base + d) % increment == 0 <==> d % increment == 0
  {
    SameResidue(increment, base + d, d);
    ModUnique(0, 0, 0, increment);
  }

  /** Two clusters mint the same version exactly when one wraps around onto a negative version of the
      other. */
  lemma ClustersCollideExactly(clusters: Clusters, increment: int, a: string, b: string, va: int, vb: int)
    requires 0 < increment <= MAX_INT32
    requires ValidClusters(increment, clusters) && DistinctVersions(clusters)
    requires a in clusters && b in clusters && a != b
    requires MIN_INT64 <= va <= MAX_INT64 && MIN_INT64 <= vb <= MAX_INT64
    ensures var ia, ib := clusters[a].initialVersion, clusters[b].initialVersion;
            GetNextFailoverVersion(clusters, increment, a, va) == GetNextFailoverVersion(clusters, increment, b, vb)
            <==> WrapsOnto(increment, ia, va, ib, vb) || WrapsOnto(increment, ib, vb, ia, va)
  {
    var ia, ib := clusters[a].initialVersion, clusters[b].initialVersion;
    assert ValidCluster(increment, a, clusters[a]) && ValidCluster(increment, b, clusters[b]);
    NextVersionForm(clusters, increment, a, va);
    NextVersionForm(clusters, increment, b, vb);
    BaseIsMultiple(increment, ia, va);
    BaseIsMultiple(increment, ib, vb);
    DifferentResidues(increment, Base(increment, ia, va), ia, Base(increment, ib, vb), ib);
    LandsExactly(increment, ia, va, ib, vb);
    LandsExactly(increment, ib, vb, ia, va);
  }

  lemma LandsExactly(increment: int, ia: int, va: int, ib: int, vb: int)
    requires increment > 0
    ensures WrapsOnto(increment, ia, va, ib, vb) <==>
            && Wraps(increment, ia, va) && vb < 0
            && Base(increment, ia, va) + ia - TWO_64 == Base(increment, ib, vb) + ib
  {
    BaseIsMultiple(increment, ia, va);
    LandingIsMultiple(increment, Base(increment, ia, va), ia - ib - TWO_64);
    if vb < 0 {
      NegativeBase(increment, ib, vb, Base(increment, ia, va) + ia - ib - TWO_64);
    }
  }

  /** With an increment that divides 2^64 two clusters never collide, from any versions at all. */
  lemma DividingIncrementNeverCollides(clusters: Clusters, increment: int, a: string, b: string, va: int, vb: int)
    requires 0 < increment <= MAX_INT32 && TWO_64 % increment == 0
    requires ValidClusters(increment, clusters) && DistinctVersions(clusters)
    requires a in clusters && b in clusters && a != b
    requires MIN_INT64 <= va <= MAX_INT64 && MIN_INT64 <= vb <= MAX_INT64
    ensures GetNextFailoverVersion(clusters, increment, a, va) != GetNextFailoverVersion(clusters, increment, b, vb)
  {
    var ia, ib := clusters[a].initialVersion, clusters[b].initialVersion;
    assert ValidCluster(increment, a, clusters[a]) && ValidCluster(increment, b, clusters[b]);
    ClustersCollideExactly(clusters, increment, a, b, va, vb);
    ApartBy(increment, ia, ib);
    ApartBy(increment, ib, ia);
  }

  lemma ApartBy(increment: int, ia: int, ib: int)
    requires increment > 0 && TWO_64 % increment == 0
    requires 0 < ia < increment && 0 < ib < increment && ia != ib
    ensures (ia - ib - TWO_64) % increment != 0
  {
    SameResidue(increment, ia - ib - TWO_64, ia - ib);
    SameResidue(increment, -TWO_64, 0);
    SameResidue(increment, 0, TWO_64);
    SameResidue(increment, ia, ib);
    ModUnique(0, 0, 0, increment);
    ModUnique(ia, 0, ia, increment);
    ModUnique(ib, 0, ib, increment);
  }

  lemma DifferentResidues(increment: int, pa: int, ia: int, pb: int, ib: int)
    requires increment > 0 && 0 < ia < increment && 0 < ib < increment && ia != ib
    requires pa % increment == 0 && pb % increment == 0
    ensures pa + ia != pb + ib
  {
    ModUnique(pa + ia, pa / increment, ia, increment);
    ModUnique(pb + ib, pb / increment, ib, increment);
  }

  /** So they never collide from versions that are both not negative, or when neither wraps. */
  lemma ClustersNeverCollide(clusters: Clusters, increment: int, a: string, b: string, va: int, vb: int)
    requires 0 < increment <= MAX_INT32
    requires ValidClusters(increment, clusters) && DistinctVersions(clusters)
    requires a in clusters && b in clusters && a != b
    requires MIN_INT64 <= va <= MAX_INT64 && MIN_INT64 <= vb <= MAX_INT64
    ensures || GetNextFailoverVersion(clusters, increment, a, va) != GetNextFailoverVersion(clusters, increment, b, vb)
            || (Wraps(increment, clusters[a].initialVersion, va) && vb < 0)
            || (Wraps(increment, clusters[b].initialVersion, vb) && va < 0)
  {
    ClustersCollideExactly(clusters, increment, a, b, va, vb);
  }

  lemma WrapCanCollide()
    ensures var clusters := map["a" := ClusterInfo(false, 8, "", "", 0, 0), "b" := ClusterInfo(false, 2, "", "", 0, 0)];
            && GetNextFailoverVersion(clusters, 10, "a", 9223372036854775800) == Some(-9223372036854775798)
            && GetNextFailoverVersion(clusters, 10, "b", -9223372036854775800) == Some(-9223372036854775798)
  {
    assert 9223372036854775800 / 10 * 10 == 9223372036854775800;
    assert "a"[0] != "b"[0];
  }

  /** The same-cluster test compares residues, as long as the difference fits in 64 bits or the
      increment divides 2^64. Otherwise the two never both hold. */
  lemma SameClusterIsSameResidue(increment: int, v1: int, v2: int)
    requires increment > 0
    requires MIN_INT64 <= v1 <= MAX_INT64 && MIN_INT64 <= v2 <= MAX_INT64
    ensures var same := v1 % increment == v2 % increment;
            if MIN_INT64 <= v1 - v2 <= MAX_INT64 || TWO_64 % increment == 0
            then IsVersionFromSameCluster(increment, v1, v2) <==> same
            else !(IsVersionFromSameCluster(increment, v1, v2) && same)
  {
    var d := Wrap64(v1 - v2);
    RemZero(d, increment);
    SameResidue(increment, v1, v2);
    SameResidue(increment, v1 - v2, d);
    SameResidue(increment, v1 - v2, 0);
    SameResidue(increment, d, 0);
    ModUnique(0, 0, 0, increment);
    if v1 - v2 > MAX_INT64 {
      assert v1 - v2 - d == TWO_64;
    } else if v1 - v2 < MIN_INT64 {
      assert d - (v1 - v2) == TWO_64;
      SameResidue(increment, d, v1 - v2);
    }
  }

  lemma WrappedDifferenceMisleads()
    ensures MAX_INT64 % 10 == -3 % 10 && !IsVersionFromSameCluster(10, MAX_INT64, -3)
  {
    assert Wrap64(MAX_INT64 + 3) == MIN_INT64 + 2;
  }

  lemma SameResidue(increment: int, v1: int, v2: int)
    requires increment > 0
    ensures v1 % increment == v2 % increment <==> (v1 - v2) % increment == 0
  {
    var q1, q2 := v1 / increment, v2 / increment;
    var r1, r2 := v1 % increment, v2 % increment;
    assert v1 - v2 == (q1 - q2) * increment + (r1 - r2);
    if r1 >= r2 {
      ModUnique(v1 - v2, q1 - q2, r1 - r2, increment);
    } else {
      assert (q1 - q2 - 1) * increment == (q1 - q2) * increment - increment;
      ModUnique(v1 - v2, q1 - q2 - 1, r1 - r2 + increment, increment);
    }
  }

  /** For versions with known owners, the test holds exactly when the owners are the same. */
  lemma SameClusterIsSameOwner(clusters: Clusters, index: map<int, string>, increment: int, current: string, v1: int, v2: int)
    requires increment > 0 && 0 < v1 <= MAX_INT64 && 0 < v2 <= MAX_INT64
    requires ValidClusters(increment, clusters) && DistinctVersions(clusters) && IsReverseIndex(clusters, index)
    requires ClusterNameForFailoverVersion(index, increment, current, true, v1).Named?
    requires ClusterNameForFailoverVersion(index, increment, current, true, v2).Named?
    ensures IsVersionFromSameCluster(increment, v1, v2) <==>
            ClusterNameForFailoverVersion(index, increment, current, true, v1)
            == ClusterNameForFailoverVersion(index, increment, current, true, v2)
  {
    SameClusterIsSameResidue(increment, v1, v2);
    NameIsOwner(increment, clusters, index, current, v1);
    NameIsOwner(increment, clusters, index, current, v2);
    var n1 := ClusterNameForFailoverVersion(index, increment, current, true, v1).name;
    var n2 := ClusterNameForFailoverVersion(index, increment, current, true, v2).name;
    assert Owned(increment, clusters[n1], v1) && Owned(increment, clusters[n2], v2);
  }
}
