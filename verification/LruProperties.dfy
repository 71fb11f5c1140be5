/** Whole-run properties of the LRU cache: recency order, inclusion of a smaller cache in a larger
    one, and when the two hold the same values. */
module LruProperties {
  import opened LruSpec
  import opened Wrappers

  // ----- subsequences -----

  predicate Subseq<T(==)>(a: seq<T>, b: seq<T>) {
    if a == [] then true
    else if b == [] then false
    else if a[0] == b[0] then Subseq(a[1..], b[1..])
    else Subseq(a, b[1..])
  }

  lemma {:induction false} SubseqRefl<T>(a: seq<T>)
    ensures Subseq(a, a)
  {
    if a != [] { SubseqRefl(a[1..]); }
  }

  lemma {:induction false} SubseqMembers<T>(a: seq<T>, b: seq<T>)
    requires Subseq(a, b)
    ensures |a| <= |b|
    ensures forall x | x in a :: x in b
    decreases |b|
  {
    if a != [] {
      if a[0] == b[0] {
        SubseqMembers(a[1..], b[1..]);
      } else {
        SubseqMembers(a, b[1..]);
      }
      assert b == [b[0]] + b[1..];
    }
  }

  lemma {:induction false} SubseqSkip<T>(a: seq<T>, b: seq<T>)
    requires a != [] && Subseq(a, b)
    ensures Subseq(a[1..], b)
    decreases |b|
  {
    if a[0] == b[0] {
      if a[1..] != [] && a[1] != b[0] {
      } else if a[1..] != [] {
        SubseqSkip(a[1..], b[1..]);
      }
    } else {
      SubseqSkip(a, b[1..]);
      if a[1..] != [] && a[1] == b[0] {
        SubseqSkip(a[1..], b[1..]);
      }
    }
  }

  /** Growing the longer side keeps a subsequence. */
  lemma SubseqGrow<T>(a: seq<T>, x: T, b: seq<T>)
    requires Subseq(a, b)
    ensures Subseq(a, [x] + b)
  {
    assert ([x] + b)[1..] == b;
    if a != [] { SubseqSkip(a, b); }
  }

  lemma SubseqCons<T>(a: seq<T>, x: T, b: seq<T>)
    requires Subseq(a, b)
    ensures Subseq([x] + a, [x] + b)
  {
    assert ([x] + b)[1..] == b && ([x] + a)[1..] == a;
  }

  lemma {:induction false} SubseqTrans<T>(a: seq<T>, b: seq<T>, c: seq<T>)
    requires Subseq(a, b) && Subseq(b, c)
    ensures Subseq(a, c)
    decreases |c|
  {
    if a != [] {
      if b[0] != c[0] {
        SubseqTrans(a, b, c[1..]);
        assert c == [c[0]] + c[1..];
        SubseqGrow(a, c[0], c[1..]);
      } else if a[0] == b[0] {
        SubseqTrans(a[1..], b[1..], c[1..]);
      } else {
        SubseqTrans(a, b[1..], c[1..]);
      }
    }
  }

  ghost predicate Unequal<T>(a: seq<T>, i: nat, j: nat)
    requires i < |a| && j < |a|
  {
    a[i] != a[j]
  }

  ghost predicate Distinct<T>(a: seq<T>) {
    forall i: nat, j: nat | i < j < |a| :: Unequal(a, i, j)
  }

  lemma DistinctTail<T>(a: seq<T>)
    requires a != [] && Distinct(a)
    ensures Distinct(a[1..]) && a[0] !in a[1..]
  {
    forall j | 0 <= j < |a| - 1
      ensures a[1..][j] != a[0]
    {
      assert Unequal(a, 0, j + 1);
    }
    forall i: nat, j: nat | i < j < |a| - 1
      ensures Unequal(a[1..], i, j)
    {
      assert Unequal(a, i + 1, j + 1);
    }
  }

  /** The list without every occurrence of `k`. */
  function Drop<T(==)>(a: seq<T>, k: T): (r: seq<T>)
    ensures k !in r
    ensures k !in a ==> r == a
  {
    if |a| == 0 then []
    else if a[0] == k then Drop(a[1..], k)
    else [a[0]] + Drop(a[1..], k)
  }

  lemma {:induction false} DropIsSubseq<T>(a: seq<T>, k: T)
    ensures Subseq(Drop(a, k), a)
  {
    if a != [] {
      DropIsSubseq(a[1..], k);
      assert a == [a[0]] + a[1..];
      if a[0] == k {
        SubseqGrow(Drop(a[1..], k), k, a[1..]);
      } else {
        SubseqCons(Drop(a[1..], k), a[0], a[1..]);
      }
    }
  }

  lemma {:induction false} DropKeepsSubseq<T>(a: seq<T>, b: seq<T>, k: T)
    requires Subseq(a, b)
    ensures Subseq(Drop(a, k), Drop(b, k))
    decreases |b|
  {
    if a != [] {
      if a[0] == b[0] {
        DropKeepsSubseq(a[1..], b[1..], k);
        if a[0] != k { SubseqCons(Drop(a[1..], k), a[0], Drop(b[1..], k)); }
      } else {
        DropKeepsSubseq(a, b[1..], k);
        if b[0] != k { SubseqGrow(Drop(a, k), b[0], Drop(b[1..], k)); }
      }
    }
  }

  /** Cutting the last element off both sides, or off the shorter side only, keeps a subsequence. */
  lemma {:induction false} SubseqInit<T>(a: seq<T>, b: seq<T>)
    requires a != [] && Subseq(a, b)
    ensures Subseq(a[..|a| - 1], b[..|b| - 1])
    ensures Subseq(a[..|a| - 1], b)
    decreases |b|
  {
    var a', b' := a[..|a| - 1], b[..|b| - 1];
    if a[0] == b[0] {
      if |a| > 1 {
        SubseqMembers(a[1..], b[1..]);
        SubseqInit(a[1..], b[1..]);
        assert a'[1..] == a[1..][..|a| - 2] && b'[1..] == b[1..][..|b| - 2];
      }
    } else {
      SubseqMembers(a, b[1..]);
      SubseqInit(a, b[1..]);
      assert b'[1..] == b[1..][..|b| - 2];
      assert b == [b[0]] + b[1..];
      SubseqGrow(a', b[0], b[1..]);
    }
  }

  // ----- keys of the access list -----

  function KeysOf<K, V>(s: seq<Entry<K, V>>): (r: seq<K>)
    ensures |r| == |s|
    ensures forall i | 0 <= i < |s| :: r[i] == s[i].key
  {
    seq(|s|, i requires 0 <= i < |s| => s[i].key)
  }

  lemma KeysCons<K, V>(e: Entry<K, V>, s: seq<Entry<K, V>>)
    ensures KeysOf([e] + s) == [e.key] + KeysOf(s)
  {
  }

  lemma RemoveAtTail<T>(a: seq<T>, i: nat)
    requires 0 < i < |a|
    ensures RemoveAt(a, i) == [a[0]] + RemoveAt(a[1..], i - 1)
  {
  }

  lemma {:induction false} DropAt<T>(a: seq<T>, i: nat)
    requires Distinct(a) && i < |a|
    ensures Drop(a, a[i]) == RemoveAt(a, i)
    decreases i
  {
    var rest := a[1..];
    DistinctTail(a);
    if i == 0 {
      assert RemoveAt(a, 0) == rest;
    } else {
      assert Unequal(a, 0, i);
      assert rest[i - 1] == a[i];
      DropAt(rest, i - 1);
      RemoveAtTail(a, i);
    }
  }

  lemma KeysAreDistinct<K, V>(s: seq<Entry<K, V>>)
    requires DistinctKeys(s)
    ensures Distinct(KeysOf(s))
  {
    DistinctMeans(s);
  }

  lemma KeysAfterRemove<K, V>(s: seq<Entry<K, V>>, i: nat)
    requires DistinctKeys(s) && i < |s|
    ensures KeysOf(RemoveAt(s, i)) == Drop(KeysOf(s), s[i].key)
  {
    KeysAreDistinct(s);
    DropAt(KeysOf(s), i);
    assert KeysOf(RemoveAt(s, i)) == RemoveAt(KeysOf(s), i);
  }

  lemma {:induction false} LiveKeysSubseq<K, V>(cfg: Config, s: seq<Entry<K, V>>, n: nat, now: int)
    requires n <= |s|
    ensures Subseq(KeysOf(Live(cfg, s[..n], now) + s[n..]), KeysOf(s))
    decreases n
  {
    if n == 0 {
      assert Live(cfg, s[..0], now) + s[0..] == s;
      SubseqRefl(KeysOf(s));
    } else {
      var tail := s[1..];
      var rest := Live(cfg, tail[..n - 1], now) + tail[n - 1..];
      LiveKeysSubseq(cfg, tail, n - 1, now);
      LiveHead(cfg, s, n, now);
      assert s == [s[0]] + tail;
      KeysCons(s[0], tail);
      if Expired(cfg, s[0], now) {
        assert Live(cfg, s[..n], now) + s[n..] == rest;
        SubseqGrow(KeysOf(rest), s[0].key, KeysOf(tail));
      } else {
        KeysCons(s[0], rest);
        SubseqCons(KeysOf(rest), s[0].key, KeysOf(tail));
      }
    }
  }

  lemma LiveHead<K, V>(cfg: Config, s: seq<Entry<K, V>>, n: nat, now: int)
    requires 0 < n <= |s|
    ensures Live(cfg, s[..n], now) + s[n..] ==
            (if Expired(cfg, s[0], now) then [] else [s[0]]) + (Live(cfg, s[1..][..n - 1], now) + s[1..][n - 1..])
  {
    assert s[..n][1..] == s[1..][..n - 1] && s[1..][n - 1..] == s[n..];
  }

  // ----- recency -----

  /** The key an operation touches: a hit, or a successful store. */
  function Touched<K(==), V>(cfg: Config, s: seq<Entry<K, V>>, op: Op<K, V>): Option<K> {
    if cfg.maxSize == 0 then None
    else
      match op
      case Get(k, now) => if Resident(s, k) && !Expired(cfg, s[IndexOf(s, k)], now) then Some(k) else None
      case Put(k, v, now, stamp) =>
        if cfg.pin || ApplyPutInternal(cfg, s, k, v, true, now, stamp).answer.CacheFull? then None else Some(k)
      case PutIfNotExist(k, v, now, stamp) =>
        if ApplyPutInternal(cfg, s, k, v, false, now, stamp).answer.CacheFull? then None else Some(k)
      case _ => None
  }

  /** An operation moves at most the key it touches, to the front; all others keep their order. */
  ghost predicate MovesOnly<K>(before: seq<K>, after: seq<K>, touched: Option<K>) {
    match touched
    case None => Subseq(after, before)
    case Some(k) => after != [] && after[0] == k && k !in after[1..] && Subseq(after[1..], before)
  }

  lemma ToFrontMoves<K, V>(s: seq<Entry<K, V>>, i: nat, e: Entry<K, V>)
    requires DistinctKeys(s) && i < |s| && e.key == s[i].key
    ensures MovesOnly(KeysOf(s), KeysOf([e] + RemoveAt(s, i)), Some(e.key))
    ensures Subseq(KeysOf(RemoveAt(s, i)), KeysOf(s))
  {
    KeysAfterRemove(s, i);
    DropIsSubseq(KeysOf(s), e.key);
    assert KeysOf([e] + RemoveAt(s, i))[1..] == KeysOf(RemoveAt(s, i));
  }

  lemma InsertMoves<K, V>(cfg: Config, s: seq<Entry<K, V>>, k: K, v: Option<V>, stamp: int)
    requires DistinctKeys(s) && !Resident(s, k)
    ensures var o := Insert(cfg, s, k, v, stamp);
            if o.answer.CacheFull? then Subseq(KeysOf(o.entries), KeysOf(s))
            else MovesOnly(KeysOf(s), KeysOf(o.entries), Some(k))
  {
    var s' := MadeRoom(cfg, s);
    EvictionMoves(s);
    if |s'| < cfg.maxSize {
      PushMoves(s, s', NewEntry(cfg, k, v, stamp));
      assert Insert(cfg, s, k, v, stamp) == Outcome([NewEntry(cfg, k, v, stamp)] + s', Value(None));
    } else {
      assert Insert(cfg, s, k, v, stamp) == Outcome(s', CacheFull);
    }
  }

  lemma EvictionMoves<K, V>(s: seq<Entry<K, V>>)
    requires DistinctKeys(s)
    ensures Subseq(KeysOf(Evicted(s)), KeysOf(s)) && Subseq(KeysOf(s), KeysOf(s))
  {
    SubseqRefl(KeysOf(s));
    var x := VictimBelow(s, |s|);
    if x >= 0 {
      ToFrontMoves(s, x, s[x]);
    }
  }

  lemma PushMoves<K, V>(s: seq<Entry<K, V>>, s': seq<Entry<K, V>>, e: Entry<K, V>)
    requires Subseq(KeysOf(s'), KeysOf(s)) && !Resident(s, e.key)
    ensures MovesOnly(KeysOf(s), KeysOf([e] + s'), Some(e.key))
  {
    KeysCons(e, s');
    assert ([e.key] + KeysOf(s'))[1..] == KeysOf(s');
    SubseqMembers(KeysOf(s'), KeysOf(s));
    ResidentIsMember(s, e.key);
  }

  lemma PutMoves<K, V>(cfg: Config, s: seq<Entry<K, V>>, k: K, v: Option<V>, allowUpdate: bool, now: int, stamp: int)
    requires DistinctKeys(s) && cfg.maxSize != 0
    ensures var o := ApplyPutInternal(cfg, s, k, v, allowUpdate, now, stamp);
            MovesOnly(KeysOf(s), KeysOf(o.entries), if o.answer.CacheFull? then None else Some(k))
  {
    var o := ApplyPutInternal(cfg, s, k, v, allowUpdate, now, stamp);
    var i := IndexOf(s, k);
    if i == |s| {
      InsertMoves(cfg, s, k, v, stamp);
    } else if Expired(cfg, s[i], now) {
      var r := RemoveAt(s, i);
      RemoveKeepsDistinct(s, i);
      InsertMoves(cfg, r, k, v, stamp);
      ToFrontMoves(s, i, s[i]);
      var after := KeysOf(o.entries);
      SubseqTrans(if o.answer.CacheFull? then after else after[1..], KeysOf(r), KeysOf(s));
    } else {
      ToFrontMoves(s, i, o.entries[0]);
    }
  }

  lemma ApplyMovesOnly<K, V>(cfg: Config, s: seq<Entry<K, V>>, op: Op<K, V>)
    requires DistinctKeys(s)
    ensures MovesOnly(KeysOf(s), KeysOf(Apply(cfg, s, op).entries), Touched(cfg, s, op))
  {
    SubseqRefl(KeysOf(s));
    match op
    case Get(k, now) =>
      if cfg.maxSize != 0 && Resident(s, k) {
        ToFrontMoves(s, IndexOf(s, k), s[IndexOf(s, k)].(refs := s[IndexOf(s, k)].refs + if cfg.pin then 1 else 0));
      }
    case Put(k, v, now, stamp) =>
      if cfg.maxSize != 0 { PutMoves(cfg, s, k, v, true, now, stamp); }
    case PutIfNotExist(k, v, now, stamp) =>
      if cfg.maxSize != 0 { PutMoves(cfg, s, k, v, false, now, stamp); }
    case Delete(k) =>
      if Resident(s, k) { ToFrontMoves(s, IndexOf(s, k), s[IndexOf(s, k)]); }
    case Release(k) =>
      assert KeysOf(Apply(cfg, s, op).entries) == KeysOf(s);
    case Iterate(now, upTo) =>
      LiveKeysSubseq(cfg, s, if upTo > |s| then |s| else upTo, now);
  }

  /** The keys touched so far by a run, oldest first. */
  function TouchLog<K(==), V>(cfg: Config, s: seq<Entry<K, V>>, ops: seq<Op<K, V>>): seq<K> {
    if ops == [] then []
    else
      var before := ops[..|ops| - 1];
      TouchLog(cfg, s, before) +
      (match Touched(cfg, Run(cfg, s, before), ops[|ops| - 1])
       case None => []
       case Some(k) => [k])
  }

  /** The position of the latest touch of a key in the log, or -1. */
  function LastTouch<K(==)>(log: seq<K>, k: K): (n: int)
    ensures -1 <= n < |log|
    ensures n >= 0 <==> k in log
    ensures n >= 0 ==> log[n] == k
    ensures forall j | n < j < |log| :: log[j] != k
  {
    if log == [] then -1
    else if log[|log| - 1] == k then |log| - 1
    else LastTouch(log[..|log| - 1], k)
  }

  ghost predicate MostRecentFirst<K>(ks: seq<K>, log: seq<K>) {
    && (forall i | 0 <= i < |ks| :: LastTouch(log, ks[i]) >= 0)
    && (forall i, j | 0 <= i < j < |ks| :: LastTouch(log, ks[i]) > LastTouch(log, ks[j]))
  }

  lemma {:induction false} SubseqKeepsRecency<K>(a: seq<K>, b: seq<K>, log: seq<K>)
    requires Subseq(a, b) && MostRecentFirst(b, log)
    ensures MostRecentFirst(a, log)
    decreases |b|
  {
    if a != [] {
      if a[0] == b[0] {
        SubseqKeepsRecency(a[1..], b[1..], log);
        SubseqMembers(a[1..], b[1..]);
        forall j | 0 < j < |a|
          ensures LastTouch(log, a[0]) > LastTouch(log, a[j])
        {
          assert a[j] == a[1..][j - 1];
          assert a[1..][j - 1] in b[1..];
        }
        forall i, j | 0 <= i < j < |a|
          ensures LastTouch(log, a[i]) > LastTouch(log, a[j])
        {
          if i > 0 { assert a[i] == a[1..][i - 1] && a[j] == a[1..][j - 1]; }
        }
      } else {
        SubseqKeepsRecency(a, b[1..], log);
      }
    }
  }

  lemma TouchKeepsRecency<K>(after: seq<K>, before: seq<K>, log: seq<K>, k: K)
    requires MovesOnly(before, after, Some(k)) && MostRecentFirst(before, log)
    ensures MostRecentFirst(after, log + [k])
  {
    var t := after[1..];
    SubseqKeepsRecency(t, before, log);
    assert (log + [k])[..|log|] == log;
    forall i | 0 <= i < |t|
      ensures LastTouch(log + [k], t[i]) == LastTouch(log, t[i])
    {
      assert t[i] in t;
    }
    assert forall i | 0 < i < |after| :: after[i] == t[i - 1];
  }

  /** In every run from an empty cache the access list is ordered by latest touch. */
  lemma {:induction false} RunOrderedByRecency<K, V>(cfg: Config, ops: seq<Op<K, V>>)
    ensures MostRecentFirst(KeysOf(Run(cfg, [], ops)), TouchLog(cfg, [], ops))
    decreases |ops|
  {
    if ops != [] {
      var before := ops[..|ops| - 1];
      var op := ops[|ops| - 1];
      var s := Run(cfg, [], before);
      RunOrderedByRecency(cfg, before);
      RunKeepsInv(cfg, [], before);
      ApplyMovesOnly(cfg, s, op);
      var after := KeysOf(Apply(cfg, s, op).entries);
      match Touched(cfg, s, op)
      case None =>
        SubseqKeepsRecency(after, KeysOf(s), TouchLog(cfg, [], before));
        assert TouchLog(cfg, [], ops) == TouchLog(cfg, [], before);
      case Some(k) =>
        TouchKeepsRecency(after, KeysOf(s), TouchLog(cfg, [], before), k);
    }
  }

  /** The victim is the unreferenced entry touched longest ago. */
  lemma VictimIsLeastRecent<K, V>(cfg: Config, ops: seq<Op<K, V>>)
    ensures var s := Run(cfg, [], ops);
            var log := TouchLog(cfg, [], ops);
            var v := VictimBelow(s, |s|);
            && (v < 0 <==> forall i | 0 <= i < |s| :: s[i].refs != 0)
            && (v >= 0 ==> s[v].refs == 0)
            && (v >= 0 ==> forall i | 0 <= i < |s| && s[i].refs == 0 && i != v ::
                             LastTouch(log, s[i].key) > LastTouch(log, s[v].key))
  {
    RunOrderedByRecency(cfg, ops);
    var s := Run(cfg, [], ops);
    var ks := KeysOf(s);
    assert forall i | 0 <= i < |s| :: ks[i] == s[i].key;
  }

  // ----- inclusion: a larger cache never misses where a smaller one hits -----

  ghost predicate PlainOp<K, V>(op: Op<K, V>) {
    op.Get? || op.Put? || op.PutIfNotExist? || op.Delete?
  }

  ghost predicate Plain<K, V>(s: seq<Entry<K, V>>) {
    && DistinctKeys(s)
    && forall i | 0 <= i < |s| :: s[i].refs == 0 && s[i].created == None
  }

  /** The cache without pinning or expiry, on keys alone. */
  function KeyStep<K(==), V>(max: int, ks: seq<K>, op: Op<K, V>): seq<K> {
    if max == 0 then ks
    else
      match op
      case Get(k, _) => if k in ks then [k] + Drop(ks, k) else ks
      case Put(k, _, _, _) => KeyPut(max, ks, k)
      case PutIfNotExist(k, _, _, _) => KeyPut(max, ks, k)
      case Delete(k) => Drop(ks, k)
      case _ => ks
  }

  function KeyPut<K(==)>(max: int, ks: seq<K>, k: K): seq<K> {
    if k in ks then [k] + Drop(ks, k)
    else if |ks| < max then [k] + ks
    else if |ks| == 0 then ks
    else if |ks| - 1 < max then [k] + ks[..|ks| - 1]
    else ks[..|ks| - 1]
  }

  lemma ResidentIsMember<K, V>(s: seq<Entry<K, V>>, k: K)
    ensures Resident(s, k) <==> k in KeysOf(s)
  {
    var ks := KeysOf(s);
    if k in ks {
      var i :| 0 <= i < |ks| && ks[i] == k;
      assert s[i].key == k;
    }
  }

  lemma PlainInsert<K, V>(max: int, s: seq<Entry<K, V>>, k: K, v: Option<V>, stamp: int)
    requires Plain(s) && !Resident(s, k) && max != 0
    ensures var s' := Insert(Config(max, 0, false), s, k, v, stamp).entries;
            Plain(s') && KeysOf(s') == KeyPut(max, KeysOf(s), k)
  {
    ResidentIsMember(s, k);
    var e := NewEntry(Config(max, 0, false), k, v, stamp);
    if |s| >= max && |s| > 0 {
      PlainInit(s);
      if |s| - 1 < max {
        PlainPush(s[..|s| - 1], e);
      }
    } else if |s| < max {
      PlainPush(s, e);
    }
  }

  /** The victim of a plain cache is its last entry. */
  lemma PlainInit<K, V>(s: seq<Entry<K, V>>)
    requires Plain(s) && |s| > 0
    ensures Evicted(s) == s[..|s| - 1] && Plain(s[..|s| - 1])
    ensures KeysOf(s[..|s| - 1]) == KeysOf(s)[..|s| - 1]
  {
    assert s[|s| - 1].refs == 0;
    assert RemoveAt(s, |s| - 1) == s[..|s| - 1];
    RemoveKeepsDistinct(s, |s| - 1);
  }

  lemma PlainPush<K, V>(s: seq<Entry<K, V>>, e: Entry<K, V>)
    requires Plain(s) && e.refs == 0 && e.created == None
    requires e.key !in KeysOf(s)
    ensures Plain([e] + s) && KeysOf([e] + s) == [e.key] + KeysOf(s)
  {
    KeysCons(e, s);
    assert forall i | 0 <= i < |s| :: s[i].key == KeysOf(s)[i];
    PushKeepsDistinct(s, e);
  }

  lemma PlainToFront<K, V>(s: seq<Entry<K, V>>, i: nat, e: Entry<K, V>)
    requires Plain(s) && i < |s| && e.key == s[i].key && e.refs == 0 && e.created == None
    ensures Plain([e] + RemoveAt(s, i)) && Plain(RemoveAt(s, i))
    ensures KeysOf([e] + RemoveAt(s, i)) == [e.key] + Drop(KeysOf(s), e.key)
    ensures KeysOf(RemoveAt(s, i)) == Drop(KeysOf(s), e.key)
  {
    RemoveKeepsDistinct(s, i);
    KeysAfterRemove(s, i);
    var r := RemoveAt(s, i);
    PlainRest(s, i);
    PushKeepsDistinct(r, e);
    KeysCons(e, r);
  }

  lemma PlainRest<K, V>(s: seq<Entry<K, V>>, i: nat)
    requires Plain(s) && i < |s|
    ensures forall j | 0 <= j < |s| - 1 :: RemoveAt(s, i)[j].refs == 0 && RemoveAt(s, i)[j].created == None
    ensures forall j | 0 <= j < |s| - 1 :: RemoveAt(s, i)[j].key != s[i].key
  {
    DistinctMeans(s);
  }

  lemma PlainStep<K, V>(max: int, s: seq<Entry<K, V>>, op: Op<K, V>)
    requires Plain(s) && PlainOp(op)
    ensures var s' := Apply(Config(max, 0, false), s, op).entries;
            Plain(s') && KeysOf(s') == KeyStep(max, KeysOf(s), op)
  {
    var cfg := Config(max, 0, false);
    var k := op.key;
    ResidentIsMember(s, k);
    if max != 0 {
      if Resident(s, k) {
        var i := IndexOf(s, k);
        PlainToFront(s, i, if op.Put? then s[i].(value := op.value) else s[i]);
      } else if op.Put? || op.PutIfNotExist? {
        PlainInsert(max, s, k, op.value, op.stamp);
      }
    }
  }

  /** The relation kept between the key lists of caches of sizes n <= m. */
  ghost predicate Included<K>(n: int, m: int, small: seq<K>, large: seq<K>) {
    && Subseq(small, large)
    && |large| - |small| <= m - n
    && (n <= 0 ==> small == [])
    && |small| <= (if n > 0 then n else 0)
    && |large| <= (if m > 0 then m else 0)
  }

  lemma {:induction false} DropLength<T>(a: seq<T>, k: T)
    requires Distinct(a)
    ensures |Drop(a, k)| == if k in a then |a| - 1 else |a|
  {
    if a != [] {
      DistinctTail(a);
      DropLength(a[1..], k);
      assert a == [a[0]] + a[1..];
    }
  }

  lemma DropInclusion<K>(n: int, m: int, small: seq<K>, large: seq<K>, k: K)
    requires Included(n, m, small, large) && Distinct(small) && Distinct(large)
    ensures Subseq(Drop(small, k), Drop(large, k))
    ensures k in small ==> k in large
    ensures |Drop(small, k)| == |small| - (if k in small then 1 else 0)
    ensures |Drop(large, k)| == |large| - (if k in large then 1 else 0)
  {
    DropKeepsSubseq(small, large, k);
    SubseqMembers(small, large);
    DropLength(small, k);
    DropLength(large, k);
  }

  lemma PutKeepsInclusion<K>(n: int, m: int, small: seq<K>, large: seq<K>, k: K)
    requires n <= m && m != 0
    requires Included(n, m, small, large) && Distinct(small) && Distinct(large)
    ensures Included(n, m, if n == 0 then small else KeyPut(n, small, k), KeyPut(m, large, k))
  {
    DropInclusion(n, m, small, large, k);
    var a := if n == 0 then small else KeyPut(n, small, k);
    if k in large {
      var rest := Drop(large, k);
      SubseqCons(Drop(small, k), k, rest);
      SubseqGrow(Drop(small, k), k, rest);
      if k !in small && small != [] {
        SubseqInit(small, rest);
        SubseqCons(small[..|small| - 1], k, rest);
        SubseqGrow(small[..|small| - 1], k, rest);
      }
    } else {
      SubseqGrow(small, k, large);
      SubseqCons(small, k, large);
      if small != [] {
        SubseqInit(small, large);
        var a0, b0 := small[..|small| - 1], large[..|large| - 1];
        SubseqCons(a0, k, b0);
        SubseqCons(a0, k, large);
      }
    }
  }

  lemma StepKeepsInclusion<K, V>(n: int, m: int, small: seq<K>, large: seq<K>, op: Op<K, V>)
    requires n <= m && PlainOp(op)
    requires Included(n, m, small, large) && Distinct(small) && Distinct(large)
    ensures Included(n, m, KeyStep(n, small, op), KeyStep(m, large, op))
  {
    var k := op.key;
    DropInclusion(n, m, small, large, k);
    if m != 0 {
      if op.Put? || op.PutIfNotExist? {
        PutKeepsInclusion(n, m, small, large, k);
      } else if op.Get? && k in large {
        SubseqCons(Drop(small, k), k, Drop(large, k));
        SubseqGrow(Drop(small, k), k, Drop(large, k));
      }
    }
  }

  /** For any trace of plain operations on two caches without pinning or expiry, of sizes n <= m,
      the smaller one's access list is a subsequence of the larger one's. */
  lemma {:induction false} SmallerIncludedInLarger<K, V>(n: int, m: int, ops: seq<Op<K, V>>)
    requires n <= m
    requires forall op | op in ops :: PlainOp(op)
    ensures var small := Run(Config(n, 0, false), [], ops);
            var large := Run(Config(m, 0, false), [], ops);
            && Plain(small) && Plain(large)
            && Included(n, m, KeysOf(small), KeysOf(large))
    decreases |ops|
  {
    if ops != [] {
      var before := ops[..|ops| - 1];
      var op := ops[|ops| - 1];
      assert op in ops;
      SmallerIncludedInLarger(n, m, before);
      var small := Run(Config(n, 0, false), [], before);
      var large := Run(Config(m, 0, false), [], before);
      PlainStep(n, small, op);
      PlainStep(m, large, op);
      KeysAreDistinct(small);
      KeysAreDistinct(large);
      StepKeepsInclusion(n, m, KeysOf(small), KeysOf(large), op);
    }
  }

  /** Hence a hit in the smaller cache is a hit in the larger one. */
  lemma LargerNeverMisses<K, V>(n: int, m: int, ops: seq<Op<K, V>>, k: K)
    requires n <= m
    requires forall op | op in ops :: PlainOp(op)
    requires Resident(Run(Config(n, 0, false), [], ops), k)
    ensures Resident(Run(Config(m, 0, false), [], ops), k)
  {
    SmallerIncludedInLarger(n, m, ops);
    var small := Run(Config(n, 0, false), [], ops);
    var large := Run(Config(m, 0, false), [], ops);
    ResidentIsMember(small, k);
    ResidentIsMember(large, k);
    SubseqMembers(KeysOf(small), KeysOf(large));
  }

  function ValueIn<K(==), V>(s: seq<Entry<K, V>>, k: K): Option<Option<V>> {
    match Lookup(s, k)
    case None => None
    case Some(e) => Some(e.value)
  }

  /** What one operation on a plain cache can do to the value stored under a key. */
  lemma ValueAfterStep<K, V>(max: int, s: seq<Entry<K, V>>, op: Op<K, V>, k: K)
    requires Plain(s) && Inv(Config(max, 0, false), s) && max > 0 && PlainOp(op)
    ensures var after := ValueIn(Apply(Config(max, 0, false), s, op).entries, k);
            if op.Put? && op.key == k then after == Some(op.value)
            else if op.PutIfNotExist? && op.key == k then
              after == if Resident(s, k) then ValueIn(s, k) else Some(op.value)
            else after == None || after == ValueIn(s, k)
  {
    var cfg := Config(max, 0, false);
    match op
    case Get(k0, now) => GetMeaning(cfg, s, k0, now);
    case Put(k0, v, now, stamp) =>
      PutMeaning(cfg, s, k0, v, true, now, stamp, k);
      UnpinnedNeverFull(cfg, s, k0, v, true, now, stamp);
    case PutIfNotExist(k0, v, now, stamp) =>
      PutMeaning(cfg, s, k0, v, false, now, stamp, k);
      UnpinnedNeverFull(cfg, s, k0, v, false, now, stamp);
    case Delete(k0) =>
      if Resident(s, k0) { LookupAfterRemove(s, IndexOf(s, k0), k); }
  }

  function PlainRun<K(==), V>(max: int, ops: seq<Op<K, V>>): seq<Entry<K, V>> {
    Run(Config(max, 0, false), [], ops)
  }

  /** What the smaller cache holds under `k` after a trace, the larger one holds too. */
  ghost predicate AgreesAt<K, V>(n: int, m: int, ops: seq<Op<K, V>>, k: K) {
    Resident(PlainRun(n, ops), k) ==> ValueIn(PlainRun(n, ops), k) == ValueIn(PlainRun(m, ops), k)
  }

  ghost predicate ValuesAgree<K(!new), V>(n: int, m: int, ops: seq<Op<K, V>>) {
    forall k: K :: AgreesAt(n, m, ops, k)
  }

  /** After a trace, a PutIfNotExist meets a key that the smaller cache does not have and the larger
      one has under another value. */
  ghost predicate Parts<K, V>(n: int, m: int, before: seq<Op<K, V>>, op: Op<K, V>) {
    && op.PutIfNotExist?
    && !Resident(PlainRun(n, before), op.key) && Resident(PlainRun(m, before), op.key)
    && ValueIn(PlainRun(m, before), op.key) != Some(op.value)
  }

  /** One step of both caches keeps a key's agreement unless it parts the caches at that key. */
  lemma StepAgreesExactly<K, V>(n: int, m: int, ops: seq<Op<K, V>>, k: K)
    requires 0 < n <= m && ops != [] && forall op | op in ops :: PlainOp(op)
    requires AgreesAt(n, m, ops[..|ops| - 1], k)
    ensures var before, op := ops[..|ops| - 1], ops[|ops| - 1];
            AgreesAt(n, m, ops, k) <==> !(Parts(n, m, before, op) && op.key == k)
  {
    var before, op := ops[..|ops| - 1], ops[|ops| - 1];
    var small, large := PlainRun(n, before), PlainRun(m, before);
    assert op in ops;
    SmallerIncludedInLarger(n, m, before);
    RunKeepsInv(Config(n, 0, false), [], before);
    RunKeepsInv(Config(m, 0, false), [], before);
    ValueAfterStep(n, small, op, k);
    ValueAfterStep(m, large, op, k);
    if Resident(PlainRun(n, ops), k) {
      LargerNeverMisses(n, m, ops, k);
    }
    if Resident(small, k) {
      LargerNeverMisses(n, m, before, k);
    }
  }

  /** Over every trace, the values of the smaller cache are those of the larger one after every
      prefix exactly when no PutIfNotExist of the trace parts the caches (or the smaller cache can
      hold nothing at all). */
  lemma {:induction false} ValuesAgreeExactly<K(!new), V>(n: int, m: int, ops: seq<Op<K, V>>)
    requires n <= m && forall op | op in ops :: PlainOp(op)
    ensures (forall j | 0 <= j <= |ops| :: ValuesAgree(n, m, ops[..j])) <==>
            n <= 0 || forall i | 0 <= i < |ops| :: !Parts(n, m, ops[..i], ops[i])
  {
    if n <= 0 {
      forall j | 0 <= j <= |ops| ensures ValuesAgree(n, m, ops[..j]) {
        RunKeepsInv(Config(n, 0, false), [], ops[..j]);
      }
    } else if forall i | 0 <= i < |ops| :: !Parts(n, m, ops[..i], ops[i]) {
      forall j | 0 <= j <= |ops| ensures ValuesAgree(n, m, ops[..j]) {
        AgreeWithoutParting(n, m, ops, j);
      }
    } else {
      var i :| 0 <= i < |ops| && Parts(n, m, ops[..i], ops[i]);
      PartingParts(n, m, ops, i);
    }
  }

  lemma {:induction false} AgreeWithoutParting<K(!new), V>(n: int, m: int, ops: seq<Op<K, V>>, j: nat)
    requires 0 < n <= m && j <= |ops| && forall op | op in ops :: PlainOp(op)
    requires forall i | 0 <= i < j :: !Parts(n, m, ops[..i], ops[i])
    ensures ValuesAgree(n, m, ops[..j])
  {
    if j > 0 {
      AgreeWithoutParting(n, m, ops, j - 1);
      var upTo := ops[..j];
      assert upTo[..j - 1] == ops[..j - 1] && upTo[j - 1] == ops[j - 1];
      forall k: K ensures AgreesAt(n, m, upTo, k) {
        assert AgreesAt(n, m, ops[..j - 1], k);
        StepAgreesExactly(n, m, upTo, k);
      }
    }
  }

  lemma PartingParts<K(!new), V>(n: int, m: int, ops: seq<Op<K, V>>, i: nat)
    requires 0 < n <= m && i < |ops| && forall op | op in ops :: PlainOp(op)
    requires Parts(n, m, ops[..i], ops[i])
    ensures !ValuesAgree(n, m, ops[..i]) || !ValuesAgree(n, m, ops[..i + 1])
  {
    var upTo, k := ops[..i + 1], ops[i].key;
    assert upTo[..i] == ops[..i] && upTo[i] == ops[i];
    if AgreesAt(n, m, ops[..i], k) {
      StepAgreesExactly(n, m, upTo, k);
    }
  }

  /** Without PutIfNotExist the values always agree. */
  lemma SameValueInLarger<K(!new), V>(n: int, m: int, ops: seq<Op<K, V>>, k: K)
    requires n <= m
    requires forall op | op in ops :: op.Get? || op.Put? || op.Delete?
    requires Resident(PlainRun(n, ops), k)
    ensures ValueIn(PlainRun(n, ops), k) == ValueIn(PlainRun(m, ops), k)
  {
    RunKeepsInv(Config(n, 0, false), [], ops);
    forall i | 0 <= i < |ops| ensures !Parts(n, m, ops[..i], ops[i]) {
      assert ops[i] in ops;
    }
    AgreeWithoutParting(n, m, ops, |ops|);
    assert ops[..|ops|] == ops;
    assert AgreesAt(n, m, ops, k);
  }

  /** One more operation on a plain cache, on its keys and on the value under a key. */
  lemma PlainRunStep<K, V>(max: int, before: seq<Op<K, V>>, op: Op<K, V>, k: K)
    requires max > 0 && PlainOp(op) && Plain(PlainRun(max, before))
    ensures var s, after := PlainRun(max, before), PlainRun(max, before + [op]);
            && Plain(after) && KeysOf(after) == KeyStep(max, KeysOf(s), op)
            && (ValueIn(after, k).Some? <==> k in KeysOf(after))
            && (op.Put? && op.key == k ==> ValueIn(after, k) == Some(op.value))
            && (op.PutIfNotExist? && op.key == k ==>
                  ValueIn(after, k) == if k in KeysOf(s) then ValueIn(s, k) else Some(op.value))
            && (op.key != k && k in KeysOf(after) ==> ValueIn(after, k) == ValueIn(s, k))
  {
    var s, after := PlainRun(max, before), PlainRun(max, before + [op]);
    assert (before + [op])[..|before|] == before;
    RunKeepsInv(Config(max, 0, false), [], before);
    PlainStep(max, s, op);
    ValueAfterStep(max, s, op, k);
    ResidentIsMember(s, k);
    ResidentIsMember(after, k);
  }

  lemma OnePut<K, V>(max: int, none: seq<Op<K, V>>, first: Op<K, V>)
    requires max > 0 && |none| == 0 && first.Put?
    ensures var s := PlainRun(max, none + [first]);
            Plain(s) && KeysOf(s) == [first.key] && ValueIn(s, first.key) == Some(first.value)
  {
    PlainRunStep(max, none, first, first.key);
  }

  /** The keys after putting two different ones: a cache of size one has lost the first. */
  lemma TwoPuts<K, V>(max: int, first: Op<K, V>, second: Op<K, V>)
    requires 1 <= max <= 2 && first.Put? && second.Put? && first.key != second.key
    ensures var s := PlainRun(max, [first, second]);
            && Plain(s) && KeysOf(s) == (if max == 1 then [second.key] else [second.key, first.key])
            && (max == 2 ==> ValueIn(s, first.key) == Some(first.value))
  {
    var one := [first];
    OnePut(max, one[..0], first);
    assert one[..0] + [first] == one;
    PlainRunStep(max, one, second, first.key);
    assert one + [second] == [first, second];
    PutSecond(max, first.key, second.key);
  }

  lemma PutSecond<K>(max: int, a: K, b: K)
    requires 1 <= max <= 2 && a != b
    ensures KeyPut(max, [a], b) == if max == 1 then [b] else [b, a]
  {
    assert [a][..0] == [] && b !in [a];
  }

  /** Traces that part caches of sizes one and two, whatever the keys and values: the smaller cache
      has lost the first key to the second one when the first is put again. */
  lemma PutIfNotExistCanDisagree<K, V>(a: K, b: K, x: V, y: V, z: V, now: int, stamp: int)
    requires a != b
    ensures var ops := [Put(a, Some(x), now, stamp), Put(b, Some(y), now, stamp), PutIfNotExist(a, Some(z), now, stamp)];
            && ValueIn(PlainRun(1, ops), a) == Some(Some(z))
            && ValueIn(PlainRun(2, ops), a) == Some(Some(x))
  {
    var first: Op<K, V>, second: Op<K, V> := Put(a, Some(x), now, stamp), Put(b, Some(y), now, stamp);
    var third: Op<K, V> := PutIfNotExist(a, Some(z), now, stamp);
    forall max | 1 <= max <= 2
      ensures ValueIn(PlainRun(max, [first, second, third]), a) == Some(Some(if max == 1 then z else x))
    {
      TwoPuts(max, first, second);
      PlainRunStep(max, [first, second], third, a);
      assert [first, second] + [third] == [first, second, third];
    }
  }
}
