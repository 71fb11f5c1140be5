/** The LRU cache with time-to-live and pinning (common/cache/lru.go), as functions on its access
    list: entries from most to least recently used. The class in LruCache is proved to follow them. */
module LruSpec {
  import opened Wrappers

  /** One cached entry. A stored `None` is Go's nil; `created == None` is the zero time. */
  datatype Entry<K, V> = Entry(key: K, value: Option<V>, created: Option<int>, refs: int)

  datatype Config = Config(maxSize: int, ttl: int, pin: bool)

  // ----- list operations -----

  /** The first position of the key from `from` on, or the length of the list when there is none. */
  function IndexFrom<K(==), V>(s: seq<Entry<K, V>>, k: K, from: nat): (i: nat)
    requires from <= |s|
    ensures from <= i <= |s|
    ensures i < |s| ==> s[i].key == k
    ensures forall j | from <= j < i :: s[j].key != k
    decreases |s| - from
  {
    if from == |s| || s[from].key == k then from else IndexFrom(s, k, from + 1)
  }

  /** The position of the key, or the length of the list when it is absent. */
  function IndexOf<K(==), V>(s: seq<Entry<K, V>>, k: K): (i: nat)
    ensures i <= |s|
    ensures i < |s| ==> s[i].key == k
    ensures forall j | 0 <= j < i :: s[j].key != k
  {
    IndexFrom(s, k, 0)
  }

  predicate Resident<K(==), V>(s: seq<Entry<K, V>>, k: K) {
    IndexOf(s, k) < |s|
  }

  function Lookup<K(==), V>(s: seq<Entry<K, V>>, k: K): Option<Entry<K, V>> {
    if Resident(s, k) then Some(s[IndexOf(s, k)]) else None
  }

  function RemoveAt<T>(s: seq<T>, i: nat): (r: seq<T>)
    requires i < |s|
    ensures |r| == |s| - 1
    ensures forall j {:trigger r[j]} | 0 <= j < i :: r[j] == s[j]
    ensures forall j {:trigger r[j]} | i <= j < |r| :: r[j] == s[j + 1]
  {
    s[..i] + s[i + 1..]
  }

  ghost predicate Differ<K, V>(s: seq<Entry<K, V>>, i: nat, j: nat)
    requires i < |s| && j < |s|
  {
    s[i].key != s[j].key
  }

  ghost predicate DistinctKeys<K, V>(s: seq<Entry<K, V>>) {
    forall i: nat, j: nat | i < j < |s| :: Differ(s, i, j)
  }

  lemma DistinctMeans<K, V>(s: seq<Entry<K, V>>)
    requires DistinctKeys(s)
    ensures forall i, j | 0 <= i < j < |s| :: s[i].key != s[j].key
  {
    forall i, j | 0 <= i < j < |s|
      ensures s[i].key != s[j].key
    {
      assert Differ(s, i, j);
    }
  }

  predicate Expired<K, V>(cfg: Config, e: Entry<K, V>, now: int) {
    e.refs == 0 && e.created.Some? && now > e.created.value + cfg.ttl
  }

  /** The position of the last entry of s[..n] with no references, or -1. */
  function VictimBelow<K, V>(s: seq<Entry<K, V>>, n: nat): (v: int)
    requires n <= |s|
    ensures -1 <= v < n
    ensures v >= 0 ==> s[v].refs == 0
    ensures forall j | v < j < n :: s[j].refs != 0
  {
    if n == 0 then -1 else if s[n - 1].refs == 0 then n - 1 else VictimBelow(s, n - 1)
  }

  function Evicted<K, V>(s: seq<Entry<K, V>>): seq<Entry<K, V>> {
    var v := VictimBelow(s, |s|);
    if v < 0 then s else RemoveAt(s, v)
  }

  /** The entries that are not expired, in order. */
  function Live<K, V>(cfg: Config, s: seq<Entry<K, V>>, now: int): seq<Entry<K, V>> {
    if s == [] then []
    else (if Expired(cfg, s[0], now) then [] else [s[0]]) + Live(cfg, s[1..], now)
  }

  // ----- the operations -----

  datatype Op<K, V> =
    | Get(key: K, now: int)
    | Put(key: K, value: Option<V>, now: int, stamp: int)
    | PutIfNotExist(key: K, value: Option<V>, now: int, stamp: int)
    | Delete(key: K)
    | Release(key: K)
    | Iterate(now: int, upTo: nat)  // an iteration that has examined the first `upTo` entries

  datatype Answer<V> = Value(value: Option<V>) | CacheFull | Panic | Done

  datatype Outcome<K, V> = Outcome(entries: seq<Entry<K, V>>, answer: Answer<V>)

  function ApplyGet<K(==), V>(cfg: Config, s: seq<Entry<K, V>>, k: K, now: int): Outcome<K, V> {
    if cfg.maxSize == 0 || !Resident(s, k) then Outcome(s, Value(None))
    else
      var i := IndexOf(s, k);
      if Expired(cfg, s[i], now) then Outcome(RemoveAt(s, i), Value(None))
      else
        Outcome([Retained(cfg, s[i])] + RemoveAt(s, i), Value(s[i].value))
  }

  /** An entry handed out: one more reference in pin mode. */
  function Retained<K, V>(cfg: Config, e: Entry<K, V>): Entry<K, V> {
    if cfg.pin then e.(refs := e.refs + 1) else e
  }

  /** A new entry is stamped only when entries can expire, and starts referenced in pin mode. */
  function NewEntry<K, V>(cfg: Config, k: K, v: Option<V>, stamp: int): Entry<K, V> {
    Entry(k, v, if cfg.ttl != 0 then Some(stamp) else None, if cfg.pin then 1 else 0)
  }

  /** Inserting a key that is not in the list: evict one entry if full, give up if still full. */
  function Insert<K, V>(cfg: Config, s: seq<Entry<K, V>>, k: K, v: Option<V>, stamp: int): Outcome<K, V> {
    var e := NewEntry(cfg, k, v, stamp);
    var s' := MadeRoom(cfg, s);
    if |s'| >= cfg.maxSize then Outcome(s', CacheFull) else Outcome([e] + s', Value(None))
  }

  function MadeRoom<K, V>(cfg: Config, s: seq<Entry<K, V>>): seq<Entry<K, V>> {
    if |s| >= cfg.maxSize then Evicted(s) else s
  }

  function ApplyPutInternal<K(==), V>(cfg: Config, s: seq<Entry<K, V>>, k: K, v: Option<V>, allowUpdate: bool,
                                      now: int, stamp: int): Outcome<K, V> {
    if cfg.maxSize == 0 then Outcome(s, Value(None))
    else
      var i := IndexOf(s, k);
      if i == |s| then Insert(cfg, s, k, v, stamp)
      else if Expired(cfg, s[i], now) then Insert(cfg, RemoveAt(s, i), k, v, stamp)
      else Outcome([Refreshed(cfg, s[i], v, allowUpdate, stamp)] + RemoveAt(s, i), Value(s[i].value))
  }

  /** A live entry after a put: overwritten and restamped only when updates are allowed. */
  function Refreshed<K, V>(cfg: Config, e: Entry<K, V>, v: Option<V>, allowUpdate: bool, stamp: int): (r: Entry<K, V>)
    ensures r.key == e.key && r.refs == if cfg.pin then e.refs + 1 else e.refs
  {
    var updated := if allowUpdate
                   then e.(value := v, created := if cfg.ttl != 0 then Some(stamp) else e.created)
                   else e;
    Retained(cfg, updated)
  }

  function Apply<K(==), V>(cfg: Config, s: seq<Entry<K, V>>, op: Op<K, V>): Outcome<K, V> {
    match op
    case Get(k, now) => ApplyGet(cfg, s, k, now)
    case Put(k, v, now, stamp) =>
      if cfg.pin then Outcome(s, Panic)
      else
        // the error is dropped, so a failed Put looks like a Put over nothing
        var o := ApplyPutInternal(cfg, s, k, v, true, now, stamp);
        if o.answer.CacheFull? then Outcome(o.entries, Value(None)) else o
    case PutIfNotExist(k, v, now, stamp) =>
      var o := ApplyPutInternal(cfg, s, k, v, false, now, stamp);
      if o.answer == Value(None) then Outcome(o.entries, Value(v)) else o
    case Delete(k) =>
      if cfg.maxSize == 0 || !Resident(s, k) then Outcome(s, Done)
      else Outcome(RemoveAt(s, IndexOf(s, k)), Done)
    case Release(k) =>
      if cfg.maxSize == 0 || !cfg.pin || !Resident(s, k) then Outcome(s, Done)
      else
        var i := IndexOf(s, k);
        Outcome(s[i := s[i].(refs := s[i].refs - 1)], Done)
    case Iterate(now, upTo) =>
      var n := if upTo > |s| then |s| else upTo;
      Outcome(Live(cfg, s[..n], now) + s[n..], Done)
  }

  function Run<K(==), V>(cfg: Config, s: seq<Entry<K, V>>, ops: seq<Op<K, V>>): seq<Entry<K, V>> {
    if ops == [] then s else Apply(cfg, Run(cfg, s, ops[..|ops| - 1]), ops[|ops| - 1]).entries
  }

  // ----- the structural invariant -----

  ghost predicate Inv<K, V>(cfg: Config, s: seq<Entry<K, V>>) {
    DistinctKeys(s) && Bounded(cfg, s)
  }

  ghost predicate Bounded<K, V>(cfg: Config, s: seq<Entry<K, V>>) {
    && |s| <= (if cfg.maxSize > 0 then cfg.maxSize else 0)
    && (!cfg.pin ==> forall i | 0 <= i < |s| :: s[i].refs == 0)
  }

  lemma TailDistinct<K, V>(s: seq<Entry<K, V>>)
    requires s != [] && DistinctKeys(s)
    ensures DistinctKeys(s[1..])
    ensures forall e | e in s[1..] :: e.key != s[0].key
  {
    DistinctMeans(s);
  }

  lemma {:induction false} LiveFacts<K, V>(cfg: Config, s: seq<Entry<K, V>>, now: int)
    ensures |Live(cfg, s, now)| <= |s|
    ensures forall e | e in Live(cfg, s, now) :: e in s && !Expired(cfg, e, now)
    ensures forall e | e in s && !Expired(cfg, e, now) :: e in Live(cfg, s, now)
    ensures DistinctKeys(s) ==> DistinctKeys(Live(cfg, s, now))
  {
    if s != [] {
      LiveFacts(cfg, s[1..], now);
      var rest := Live(cfg, s[1..], now);
      assert s == [s[0]] + s[1..];
      if DistinctKeys(s) {
        TailDistinct(s);
        assert forall i | 0 <= i < |rest| :: rest[i] in rest;
        if Expired(cfg, s[0], now) {
          assert Live(cfg, s, now) == rest;
        } else {
          PushKeepsDistinct(rest, s[0]);
        }
      }
    }
  }

  lemma {:induction false} LiveSnoc<K, V>(cfg: Config, s: seq<Entry<K, V>>, e: Entry<K, V>, now: int)
    ensures Live(cfg, s + [e], now) == Live(cfg, s, now) + if Expired(cfg, e, now) then [] else [e]
  {
    if s == [] {
      assert [e][1..] == [];
      assert s + [e] == [e];
    } else {
      LiveSnoc(cfg, s[1..], e, now);
      assert (s + [e])[1..] == s[1..] + [e];
    }
  }

  lemma LiveSplit<K, V>(cfg: Config, s: seq<Entry<K, V>>, n: nat, now: int)
    requires n <= |s|
    requires DistinctKeys(s)
    ensures DistinctKeys(Live(cfg, s[..n], now) + s[n..])
    ensures forall e | e in Live(cfg, s[..n], now) + s[n..] :: e in s
  {
    var a, b := Live(cfg, s[..n], now), s[n..];
    DistinctMeans(s);
    LiveFacts(cfg, s[..n], now);
    DistinctMeans(a);
    forall i, j | 0 <= i < |a| && 0 <= j < |b|
      ensures a[i].key != b[j].key
    {
      assert a[i] in a;
      assert a[i] in s[..n];
    }
  }

  lemma UpdateKeepsDistinct<K, V>(s: seq<Entry<K, V>>, i: nat, e: Entry<K, V>)
    requires DistinctKeys(s) && i < |s| && e.key == s[i].key
    ensures DistinctKeys(s[i := e])
  {
    DistinctMeans(s);
  }

  lemma RemoveKeepsDistinct<K, V>(s: seq<Entry<K, V>>, i: nat)
    requires DistinctKeys(s) && i < |s|
    ensures DistinctKeys(RemoveAt(s, i))
    ensures forall e | e in RemoveAt(s, i) :: e in s && e.key != s[i].key
    ensures forall e | e in s && e.key != s[i].key :: e in RemoveAt(s, i)
  {
    DistinctMeans(s);
    var r := RemoveAt(s, i);
    forall e | e in s && e.key != s[i].key
      ensures e in r
    {
      var j :| 0 <= j < |s| && s[j] == e;
      assert r[if j < i then j else j - 1] == e;
    }
  }

  lemma RemoveKeepsBounded<K, V>(cfg: Config, s: seq<Entry<K, V>>, i: nat)
    requires Bounded(cfg, s) && i < |s|
    ensures Bounded(cfg, RemoveAt(s, i))
  {
  }

  lemma PushKeepsBounded<K, V>(cfg: Config, s: seq<Entry<K, V>>, e: Entry<K, V>)
    requires Bounded(cfg, s) && |s| < cfg.maxSize && (cfg.pin || e.refs == 0)
    ensures Bounded(cfg, [e] + s)
  {
  }

  lemma RemoveKeepsInv<K, V>(cfg: Config, s: seq<Entry<K, V>>, i: nat)
    requires Inv(cfg, s) && i < |s|
    ensures Inv(cfg, RemoveAt(s, i))
  {
    RemoveKeepsDistinct(s, i);
  }

  lemma InsertKeepsInv<K, V>(cfg: Config, s: seq<Entry<K, V>>, k: K, v: Option<V>, stamp: int)
    requires Inv(cfg, s) && cfg.maxSize != 0
    requires forall i | 0 <= i < |s| :: s[i].key != k
    ensures Inv(cfg, Insert(cfg, s, k, v, stamp).entries)
  {
    EvictedFacts(s);
    var s' := if |s| >= cfg.maxSize then Evicted(s) else s;
    PushKeepsDistinct(s', NewEntry(cfg, k, v, stamp));
    assert forall i | 0 <= i < |s'| :: s'[i] in s;
  }

  lemma EvictedFacts<K, V>(s: seq<Entry<K, V>>)
    requires DistinctKeys(s)
    ensures DistinctKeys(Evicted(s))
    ensures forall i | 0 <= i < |Evicted(s)| :: Evicted(s)[i] in s
    ensures |Evicted(s)| == if exists i :: 0 <= i < |s| && s[i].refs == 0 then |s| - 1 else |s|
  {
    var x := VictimBelow(s, |s|);
    if x >= 0 {
      RemoveKeepsDistinct(s, x);
    }
  }

  lemma PushKeepsDistinct<K, V>(s: seq<Entry<K, V>>, e: Entry<K, V>)
    requires DistinctKeys(s)
    requires forall i | 0 <= i < |s| :: s[i].key != e.key
    ensures DistinctKeys([e] + s)
  {
    DistinctMeans(s);
  }

  lemma GetKeepsInv<K, V>(cfg: Config, s: seq<Entry<K, V>>, k: K, now: int)
    requires Inv(cfg, s)
    ensures Inv(cfg, ApplyGet(cfg, s, k, now).entries)
  {
    if Resident(s, k) {
      var i := IndexOf(s, k);
      RemoveKeepsInv(cfg, s, i);
      RemoveKeepsDistinct(s, i);
      PushKeepsDistinct(RemoveAt(s, i), Retained(cfg, s[i]));
    }
  }

  lemma IterateKeepsInv<K, V>(cfg: Config, s: seq<Entry<K, V>>, now: int, n: nat)
    requires Inv(cfg, s) && n <= |s|
    ensures Inv(cfg, Live(cfg, s[..n], now) + s[n..])
  {
    LiveFacts(cfg, s[..n], now);
    LiveSplit(cfg, s, n, now);
    var r := Live(cfg, s[..n], now) + s[n..];
    assert forall i | 0 <= i < |r| :: r[i] in r;
  }

  /** Every operation keeps the keys distinct, the size within bounds and unpinned counts at zero. */
  lemma ApplyKeepsInv<K, V>(cfg: Config, s: seq<Entry<K, V>>, op: Op<K, V>)
    requires Inv(cfg, s)
    ensures Inv(cfg, Apply(cfg, s, op).entries)
  {
    match op
    case Get(k, now) => GetKeepsInv(cfg, s, k, now);
    case Put(k, v, now, stamp) => PutKeepsInv(cfg, s, k, v, true, now, stamp);
    case PutIfNotExist(k, v, now, stamp) => PutKeepsInv(cfg, s, k, v, false, now, stamp);
    case Delete(k) =>
      if Resident(s, k) { RemoveKeepsInv(cfg, s, IndexOf(s, k)); }
    case Release(k) =>
      if Resident(s, k) { UpdateKeepsDistinct(s, IndexOf(s, k), s[IndexOf(s, k)].(refs := s[IndexOf(s, k)].refs - 1)); }
    case Iterate(now, upTo) => IterateKeepsInv(cfg, s, now, if upTo > |s| then |s| else upTo);
  }

  lemma PutKeepsInv<K, V>(cfg: Config, s: seq<Entry<K, V>>, k: K, v: Option<V>, allowUpdate: bool, now: int, stamp: int)
    requires Inv(cfg, s)
    ensures Inv(cfg, ApplyPutInternal(cfg, s, k, v, allowUpdate, now, stamp).entries)
  {
    if cfg.maxSize != 0 {
      var i := IndexOf(s, k);
      if i == |s| {
        InsertKeepsInv(cfg, s, k, v, stamp);
      } else {
        RemoveKeepsInv(cfg, s, i);
        RemoveKeepsDistinct(s, i);
        if Expired(cfg, s[i], now) {
          InsertKeepsInv(cfg, RemoveAt(s, i), k, v, stamp);
        } else {
          PushKeepsDistinct(RemoveAt(s, i), Refreshed(cfg, s[i], v, allowUpdate, stamp));
        }
      }
    }
  }

  lemma {:induction false} RunKeepsInv<K, V>(cfg: Config, s: seq<Entry<K, V>>, ops: seq<Op<K, V>>)
    requires Inv(cfg, s)
    ensures Inv(cfg, Run(cfg, s, ops))
  {
    if ops != [] {
      RunKeepsInv(cfg, s, ops[..|ops| - 1]);
      ApplyKeepsInv(cfg, Run(cfg, s, ops[..|ops| - 1]), ops[|ops| - 1]);
    }
  }

  // ----- when the cache is full -----

  /** ErrCacheFull is returned exactly when a key that is not in the cache meets a full cache whose
      every entry is referenced. */
  lemma CacheFullExactly<K, V>(cfg: Config, s: seq<Entry<K, V>>, k: K, v: Option<V>, now: int, stamp: int)
    requires Inv(cfg, s)
    ensures Apply(cfg, s, PutIfNotExist(k, v, now, stamp)).answer.CacheFull?
            <==> && cfg.maxSize != 0 && !Resident(s, k) && |s| >= cfg.maxSize
                 && forall i | 0 <= i < |s| :: s[i].refs != 0
  {
    PutFullExactly(cfg, s, k, v, false, now, stamp);
  }

  lemma PutFullExactly<K, V>(cfg: Config, s: seq<Entry<K, V>>, k: K, v: Option<V>, allowUpdate: bool, now: int, stamp: int)
    requires Inv(cfg, s)
    ensures ApplyPutInternal(cfg, s, k, v, allowUpdate, now, stamp).answer.CacheFull?
            <==> && cfg.maxSize != 0 && !Resident(s, k) && |s| >= cfg.maxSize
                 && forall i | 0 <= i < |s| :: s[i].refs != 0
  {
    if cfg.maxSize != 0 {
      if Resident(s, k) {
        RemoveKeepsDistinct(s, IndexOf(s, k));
        InsertFullExactly(cfg, RemoveAt(s, IndexOf(s, k)), k, v, stamp);
      } else {
        InsertFullExactly(cfg, s, k, v, stamp);
      }
    }
  }

  lemma InsertFullExactly<K, V>(cfg: Config, s: seq<Entry<K, V>>, k: K, v: Option<V>, stamp: int)
    requires DistinctKeys(s) && cfg.maxSize != 0
    requires |s| <= (if cfg.maxSize > 0 then cfg.maxSize else 0)
    ensures Insert(cfg, s, k, v, stamp).answer.CacheFull?
            <==> |s| >= cfg.maxSize && forall i | 0 <= i < |s| :: s[i].refs != 0
  {
    EvictedFacts(s);
  }

  /** In unpinned mode with a positive bound, an insertion never fails. */
  lemma UnpinnedNeverFull<K, V>(cfg: Config, s: seq<Entry<K, V>>, k: K, v: Option<V>, allowUpdate: bool, now: int, stamp: int)
    requires Inv(cfg, s) && !cfg.pin && cfg.maxSize > 0
    ensures !ApplyPutInternal(cfg, s, k, v, allowUpdate, now, stamp).answer.CacheFull?
  {
    PutFullExactly(cfg, s, k, v, allowUpdate, now, stamp);
    if s != [] {
      assert s[0].refs == 0;
    }
  }

  // ----- what each operation does to the contents -----

  lemma LookupAfterRemove<K, V>(s: seq<Entry<K, V>>, i: nat, k: K)
    requires DistinctKeys(s) && i < |s|
    ensures Lookup(RemoveAt(s, i), k) == if k == s[i].key then None else Lookup(s, k)
  {
    RemoveKeepsDistinct(s, i);
    LookupIsMembership(s, k);
    LookupIsMembership(RemoveAt(s, i), k);
  }

  lemma LookupIsMembership<K, V>(s: seq<Entry<K, V>>, k: K)
    requires DistinctKeys(s)
    ensures Resident(s, k) <==> exists e :: e in s && e.key == k
    ensures forall e | e in s && e.key == k :: Lookup(s, k) == Some(e)
  {
    DistinctMeans(s);
    forall e | e in s && e.key == k
      ensures Lookup(s, k) == Some(e)
    {
      var j :| 0 <= j < |s| && s[j] == e;
    }
  }

  lemma LookupAfterPush<K, V>(s: seq<Entry<K, V>>, e: Entry<K, V>, k: K)
    ensures Lookup([e] + s, k) == if k == e.key then Some(e) else Lookup(s, k)
  {
    var r := [e] + s;
    var i, j := IndexOf(r, k), IndexOf(s, k);
    assert r[0] == e;
    if k != e.key {
      assert i > 0 && (i < |r| ==> s[i - 1].key == k);
      assert j < |s| ==> r[j + 1].key == k;
      assert i == j + 1;
    }
  }

  /** Get: a hit returns the stored value, counts a reference in pin mode and keeps every other
      entry; a miss changes nothing but the removal of the key's own expired entry. */
  lemma GetMeaning<K, V>(cfg: Config, s: seq<Entry<K, V>>, k: K, now: int)
    requires Inv(cfg, s)
    ensures var o := Apply(cfg, s, Get(k, now));
            var hit := Resident(s, k) && !Expired(cfg, s[IndexOf(s, k)], now);
            && (forall k' | k' != k :: Lookup(o.entries, k') == Lookup(s, k'))
            && (hit ==>
                  var e := Lookup(s, k).value;
                  && o.answer == Value(e.value)
                  && o.entries[..1] == [e.(refs := e.refs + if cfg.pin then 1 else 0)]
                  && Lookup(o.entries, k) == Some(o.entries[0]))
            && (!hit ==> o.answer == Value(None) && Lookup(o.entries, k) == None)
  {
    if Resident(s, k) {
      var i := IndexOf(s, k);
      var r := RemoveAt(s, i);
      var o := Apply(cfg, s, Get(k, now));
      forall k': K
        ensures Lookup(r, k') == if k' == k then None else Lookup(s, k')
      {
        LookupAfterRemove(s, i, k');
      }
      if !Expired(cfg, s[i], now) {
        forall k': K
          ensures Lookup(o.entries, k') == if k' == k then Some(o.entries[0]) else Lookup(r, k')
        {
          LookupAfterPush(r, o.entries[0], k');
        }
      }
    }
  }

  /** Delete takes out its key and nothing else. */
  lemma DeleteMeaning<K, V>(cfg: Config, s: seq<Entry<K, V>>, k: K, k': K)
    requires Inv(cfg, s)
    ensures Lookup(Apply(cfg, s, Delete(k)).entries, k') == if k' == k then None else Lookup(s, k')
  {
    if Resident(s, k) {
      LookupAfterRemove(s, IndexOf(s, k), k');
    }
  }

  /** The entry an insertion removes: the least recently used unreferenced one, if the cache is full. */
  function EvictedKey<K, V>(cfg: Config, s: seq<Entry<K, V>>): Option<K> {
    var v := VictimBelow(s, |s|);
    if |s| >= cfg.maxSize && v >= 0 then Some(s[v].key) else None
  }

  lemma MadeRoomMeaning<K, V>(cfg: Config, s: seq<Entry<K, V>>, k: K)
    requires DistinctKeys(s)
    ensures Lookup(MadeRoom(cfg, s), k) == if EvictedKey(cfg, s) == Some(k) then None else Lookup(s, k)
  {
    var x := VictimBelow(s, |s|);
    if |s| >= cfg.maxSize && x >= 0 {
      LookupAfterRemove(s, x, k);
    }
  }

  lemma InsertMeaning<K, V>(cfg: Config, s: seq<Entry<K, V>>, k: K, v: Option<V>, stamp: int, k': K)
    requires DistinctKeys(s) && !Resident(s, k)
    ensures var o := Insert(cfg, s, k, v, stamp);
            Lookup(o.entries, k') ==
            if k' == k && !o.answer.CacheFull?
            then Some(Entry(k, v, if cfg.ttl != 0 then Some(stamp) else None, if cfg.pin then 1 else 0))
            else if EvictedKey(cfg, s) == Some(k') then None
            else Lookup(s, k')
  {
    MadeRoomMeaning(cfg, s, k');
    var room := MadeRoom(cfg, s);
    if |room| < cfg.maxSize {
      LookupAfterPush(room, NewEntry(cfg, k, v, stamp), k');
    }
  }

  /** Put and PutIfNotExist: over a live entry the value changes only when updates are allowed and
      nothing else does; otherwise a new entry is stored, and at most one other key is lost: the
      eviction victim of a full cache. A cache of size zero stores nothing. */
  lemma PutMeaning<K, V>(cfg: Config, s: seq<Entry<K, V>>, k: K, v: Option<V>, allowUpdate: bool, now: int, stamp: int, k': K)
    requires Inv(cfg, s)
    ensures var o := ApplyPutInternal(cfg, s, k, v, allowUpdate, now, stamp);
            var live := Resident(s, k) && !Expired(cfg, s[IndexOf(s, k)], now);
            var base := if Resident(s, k) then RemoveAt(s, IndexOf(s, k)) else s;
            if cfg.maxSize == 0 then o == Outcome(s, Value(None))
            else if live then
              && o.answer == Value(Lookup(s, k).value.value)
              && o.entries[0].key == k
              && o.entries[0].value == (if allowUpdate then v else Lookup(s, k).value.value)
              && o.entries[0].created == (if allowUpdate && cfg.ttl != 0 then Some(stamp) else Lookup(s, k).value.created)
              && o.entries[0].refs == Lookup(s, k).value.refs + (if cfg.pin then 1 else 0)
              && Lookup(o.entries, k') == (if k' == k then Some(o.entries[0]) else Lookup(s, k'))
            else
              && (k' != k ==> Lookup(o.entries, k') ==
                                if EvictedKey(cfg, base) == Some(k') then None else Lookup(s, k'))
              && (o.answer.CacheFull? || (Resident(o.entries, k) && IndexOf(o.entries, k) == 0
                                          && o.answer == Value(None)
                                          && o.entries[0] == Entry(k, v, if cfg.ttl != 0 then Some(stamp) else None,
                                                                   if cfg.pin then 1 else 0)))
  {
    var i := IndexOf(s, k);
    if cfg.maxSize == 0 {
    } else if i == |s| {
      InsertMeaning(cfg, s, k, v, stamp, k');
      InsertMeaning(cfg, s, k, v, stamp, k);
    } else {
      var r := RemoveAt(s, i);
      LookupAfterRemove(s, i, k');
      LookupAfterRemove(s, i, k);
      var o := ApplyPutInternal(cfg, s, k, v, allowUpdate, now, stamp);
      if Expired(cfg, s[i], now) {
        RemoveKeepsDistinct(s, i);
        InsertMeaning(cfg, r, k, v, stamp, k');
        InsertMeaning(cfg, r, k, v, stamp, k);
      } else {
        LookupAfterPush(r, o.entries[0], k');
      }
    }
  }

  /** Unless the cache is full, the value PutIfNotExist hands out is the one stored under the key
      exactly when the cache can hold something and no live nil is met by a new value: over a live nil
      it hands out the new value and keeps the nil. */
  lemma HandedOutIsStored<K, V>(cfg: Config, s: seq<Entry<K, V>>, k: K, v: Option<V>, now: int, stamp: int)
    requires Inv(cfg, s) && !Apply(cfg, s, PutIfNotExist(k, v, now, stamp)).answer.CacheFull?
    ensures var o := Apply(cfg, s, PutIfNotExist(k, v, now, stamp));
            var nil := Resident(s, k) && !Expired(cfg, s[IndexOf(s, k)], now) && s[IndexOf(s, k)].value.None?;
            && o.answer.Value?
            && ((Resident(o.entries, k) && o.entries[IndexOf(o.entries, k)].value == o.answer.value)
                <==> cfg.maxSize != 0 && !(nil && v.Some?))
  {
    PutMeaning(cfg, s, k, v, false, now, stamp, k);
  }
}
