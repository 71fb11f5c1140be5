/** Pin mode: clients hold references to cached entries, and a held entry is never lost. */
module LruPinning {
  import opened LruSpec
  import opened Wrappers

  /** The references outstanding after an operation, as its callers see them: a non-nil answer to
      Get and a value from PutIfNotExist each hand out one, Release gives one back. */
  function HeldAfter<K(==), V>(cfg: Config, s: seq<Entry<K, V>>, held: multiset<K>, op: Op<K, V>): multiset<K> {
    var answer := Apply(cfg, s, op).answer;
    match op
    case Get(k, _) => if answer.Value? && answer.value.Some? then held + multiset{k} else held
    case PutIfNotExist(k, _, _, _) => if answer.Value? then held + multiset{k} else held
    case Release(k) => held - multiset{k}
    case _ => held
  }

  function Held<K(==), V>(cfg: Config, ops: seq<Op<K, V>>): multiset<K> {
    if ops == [] then multiset{}
    else
      var before := ops[..|ops| - 1];
      HeldAfter(cfg, Run(cfg, [], before), Held(cfg, before), ops[|ops| - 1])
  }

  /** The client's side: a Release matches an outstanding reference, and a held key is not deleted. */
  ghost predicate Disciplined<K, V>(held: multiset<K>, op: Op<K, V>) {
    match op
    case Release(k) => k in held
    case Delete(k) => k !in held
    case _ => true
  }

  ghost predicate DisciplinedAt<K, V>(cfg: Config, ops: seq<Op<K, V>>, i: nat)
    requires i < |ops|
  {
    Disciplined(Held(cfg, ops[..i]), ops[i])
  }

  ghost predicate DisciplinedRun<K, V>(cfg: Config, ops: seq<Op<K, V>>) {
    forall i | 0 <= i < |ops| :: DisciplinedAt(cfg, ops, i)
  }

  lemma PrefixIsDisciplined<K, V>(cfg: Config, ops: seq<Op<K, V>>, j: nat)
    requires DisciplinedRun(cfg, ops) && j <= |ops|
    ensures DisciplinedRun(cfg, ops[..j])
  {
    forall i | 0 <= i < j ensures DisciplinedAt(cfg, ops[..j], i) {
      assert ops[..j][..i] == ops[..i] && DisciplinedAt(cfg, ops, i);
    }
  }

  lemma SplitDiscipline<K, V>(cfg: Config, ops: seq<Op<K, V>>)
    requires DisciplinedRun(cfg, ops) && ops != []
    ensures DisciplinedRun(cfg, ops[..|ops| - 1]) && Disciplined(Held(cfg, ops[..|ops| - 1]), ops[|ops| - 1])
  {
    PrefixIsDisciplined(cfg, ops, |ops| - 1);
    assert DisciplinedAt(cfg, ops, |ops| - 1);
  }

  /** The operations after which a count is not the number of holders: a Get that hits a live entry
      whose value is nil counts a reference its caller is not told about, and a cache of size zero
      hands out values it does not keep. */
  ghost predicate Leaks<K, V>(cfg: Config, s: seq<Entry<K, V>>, op: Op<K, V>) {
    if cfg.maxSize == 0 then op.PutIfNotExist?
    else op.Get? && Resident(s, op.key) && !Expired(cfg, s[IndexOf(s, op.key)], op.now)
         && s[IndexOf(s, op.key)].value.None?
  }

  ghost predicate LeaksAt<K, V>(cfg: Config, ops: seq<Op<K, V>>, i: nat)
    requires i < |ops|
  {
    Leaks(cfg, Run(cfg, [], ops[..i]), ops[i])
  }

  ghost predicate NeverLeaks<K, V>(cfg: Config, ops: seq<Op<K, V>>) {
    forall i | 0 <= i < |ops| :: !LeaksAt(cfg, ops, i)
  }

  /** Reference counts are the numbers of holders, and every held key is in the cache. */
  ghost predicate CountsMatch<K, V>(s: seq<Entry<K, V>>, held: multiset<K>) {
    && (forall i | 0 <= i < |s| :: s[i].refs == held[s[i].key])
    && (forall k | k in held :: Resident(s, k))
  }

  ghost predicate MatchAt<K, V>(cfg: Config, ops: seq<Op<K, V>>, j: nat)
    requires j <= |ops|
  {
    CountsMatch(Run(cfg, [], ops[..j]), Held(cfg, ops[..j]))
  }

  /** The same, one key at a time. */
  ghost predicate CountOf<K, V>(s: seq<Entry<K, V>>, held: multiset<K>, k: K) {
    match Lookup(s, k)
    case None => k !in held
    case Some(e) => e.refs == held[k]
  }

  /** The counts are at least the numbers of holders, one key at a time. */
  ghost predicate CoverOf<K, V>(s: seq<Entry<K, V>>, held: multiset<K>, k: K) {
    match Lookup(s, k)
    case None => k !in held
    case Some(e) => e.refs >= held[k]
  }

  lemma CountsByKey<K(!new), V>(s: seq<Entry<K, V>>, held: multiset<K>)
    requires DistinctKeys(s)
    ensures CountsMatch(s, held) <==> forall k :: CountOf(s, held, k)
  {
    if forall k :: CountOf(s, held, k) {
      forall i | 0 <= i < |s|
        ensures s[i].refs == held[s[i].key]
      {
        assert CountOf(s, held, s[i].key);
        LookupIsMembership(s, s[i].key);
        assert s[i] in s;
      }
      forall k | k in held
        ensures Resident(s, k)
      {
        assert CountOf(s, held, k);
      }
    }
  }

  lemma VictimIsNotHeld<K(!new), V>(cfg: Config, s: seq<Entry<K, V>>, held: multiset<K>, base: seq<Entry<K, V>>, k: K)
    requires DistinctKeys(s) && CoverOf(s, held, k)
    requires forall e | e in base :: e in s
    requires EvictedKey(cfg, base) == Some(k)
    ensures k !in held
  {
    var x := VictimBelow(base, |base|);
    assert base[x] in s;
    LookupIsMembership(s, k);
  }

  /** How the count and the holders of a key move together: a key that is gone has no holders, a new
      one has as many as it counts, and otherwise both move alike unless the operation leaks. */
  ghost predicate MovesWith<K, V>(before: Option<Entry<K, V>>, after: Option<Entry<K, V>>, held: nat, held': nat, leak: bool) {
    match after
    case None => held' == 0 && !leak
    case Some(e) =>
      if before.None? then e.refs == held' && !leak
      else e.refs - before.value.refs == held' - held + if leak then 1 else 0
  }

  lemma PutMoves<K(!new), V>(cfg: Config, s: seq<Entry<K, V>>, held: multiset<K>, op: Op<K, V>, k': K)
    requires cfg.pin && cfg.maxSize != 0 && Inv(cfg, s)
    requires op.PutIfNotExist? && CoverOf(s, held, k') && CoverOf(s, held, op.key)
    ensures MovesWith(Lookup(s, k'), Lookup(Apply(cfg, s, op).entries, k'),
                      held[k'], HeldAfter(cfg, s, held, op)[k'], false)
  {
    var k := op.key;
    PutMeaning(cfg, s, k, op.value, false, op.now, op.stamp, k');
    FullPutLoses(cfg, s, op);
    var base := if Resident(s, k) then RemoveAt(s, IndexOf(s, k)) else s;
    if Resident(s, k) {
      RemoveKeepsDistinct(s, IndexOf(s, k));
    }
    if EvictedKey(cfg, base) == Some(k') {
      VictimIsNotHeld(cfg, s, held, base, k');
    }
  }

  /** A put that fails because the cache is full leaves its key without an entry, and the key had no
      entry or an expired one. */
  lemma FullPutLoses<K, V>(cfg: Config, s: seq<Entry<K, V>>, op: Op<K, V>)
    requires Inv(cfg, s) && op.PutIfNotExist? && cfg.maxSize != 0
    ensures Apply(cfg, s, op).answer.CacheFull? ==>
              !Resident(Apply(cfg, s, op).entries, op.key)
              && (Resident(s, op.key) ==> Expired(cfg, s[IndexOf(s, op.key)], op.now))
  {
    var k := op.key;
    if !Resident(s, k) {
      InsertMeaning(cfg, s, k, op.value, op.stamp, k);
    } else if Expired(cfg, s[IndexOf(s, k)], op.now) {
      RemoveKeepsDistinct(s, IndexOf(s, k));
      LookupAfterRemove(s, IndexOf(s, k), k);
      InsertMeaning(cfg, RemoveAt(s, IndexOf(s, k)), k, op.value, op.stamp, k);
    }
  }

  lemma IterateMoves<K(!new), V>(cfg: Config, s: seq<Entry<K, V>>, held: multiset<K>, now: int, n: nat, k: K)
    requires DistinctKeys(s) && n <= |s| && CoverOf(s, held, k)
    ensures MovesWith(Lookup(s, k), Lookup(Live(cfg, s[..n], now) + s[n..], k), held[k], held[k], false)
  {
    var r := Live(cfg, s[..n], now) + s[n..];
    LiveSplit(cfg, s, n, now);
    LiveFacts(cfg, s[..n], now);
    LookupIsMembership(s, k);
    LookupIsMembership(r, k);
    if Resident(s, k) && !Resident(r, k) {
      var e := s[IndexOf(s, k)];
      assert s == s[..n] + s[n..];
      assert Expired(cfg, e, now);
    }
  }

  /** Every disciplined operation moves counts and holders together, save for leaks. */
  lemma StepMoves<K(!new), V>(cfg: Config, s: seq<Entry<K, V>>, held: multiset<K>, op: Op<K, V>, k': K)
    requires cfg.pin && cfg.maxSize != 0 && Inv(cfg, s)
    requires forall k :: CoverOf(s, held, k)
    requires Disciplined(held, op)
    ensures MovesWith(Lookup(s, k'), Lookup(Apply(cfg, s, op).entries, k'),
                      held[k'], HeldAfter(cfg, s, held, op)[k'], Leaks(cfg, s, op) && op.key == k')
  {
    assert CoverOf(s, held, k');
    match op
    case Get(k, now) =>
      GetMeaning(cfg, s, k, now);
    case Put(k, v, now, stamp) =>
    case PutIfNotExist(k, v, now, stamp) =>
      assert CoverOf(s, held, k);
      PutMoves(cfg, s, held, op, k');
    case Delete(k) =>
      if Resident(s, k) { LookupAfterRemove(s, IndexOf(s, k), k'); }
    case Release(k) =>
      assert CoverOf(s, held, k);
      ReleaseMeaning(cfg, s, k, k');
    case Iterate(now, upTo) =>
      IterateMoves(cfg, s, held, now, if upTo > |s| then |s| else upTo, k');
  }

  /** One disciplined operation keeps a key's count equal to its holders exactly unless it leaks at
      that key. */
  lemma StepCountsExactly<K(!new), V>(cfg: Config, s: seq<Entry<K, V>>, held: multiset<K>, op: Op<K, V>, k': K)
    requires cfg.pin && Inv(cfg, s)
    requires forall k :: CountOf(s, held, k)
    requires Disciplined(held, op)
    ensures CountOf(Apply(cfg, s, op).entries, HeldAfter(cfg, s, held, op), k') <==>
            !(Leaks(cfg, s, op) && op.key == k')
  {
    assert CountOf(s, held, k');
    if cfg.maxSize != 0 {
      forall k ensures CoverOf(s, held, k) { assert CountOf(s, held, k); }
      StepMoves(cfg, s, held, op, k');
    } else {
      assert s == [];
      if op.Release? { assert CountOf(s, held, op.key); }
    }
  }

  /** One disciplined operation keeps the counts at least as high as the holders, leak or not. */
  lemma StepKeepsCover<K(!new), V>(cfg: Config, s: seq<Entry<K, V>>, held: multiset<K>, op: Op<K, V>, k: K)
    requires cfg.pin && cfg.maxSize != 0 && Inv(cfg, s)
    requires forall k :: CoverOf(s, held, k)
    requires Disciplined(held, op)
    ensures CoverOf(Apply(cfg, s, op).entries, HeldAfter(cfg, s, held, op), k)
  {
    assert CoverOf(s, held, k);
    StepMoves(cfg, s, held, op, k);
  }

  /** Release takes one reference off the key's entry and changes nothing else, not even the order. */
  lemma ReleaseMeaning<K, V>(cfg: Config, s: seq<Entry<K, V>>, k: K, k': K)
    requires Inv(cfg, s) && cfg.pin && cfg.maxSize != 0 && Resident(s, k)
    ensures var s' := Apply(cfg, s, Release(k)).entries;
            && |s'| == |s|
            && Lookup(s', k') ==
               if k' == k then Some(Lookup(s, k).value.(refs := Lookup(s, k).value.refs - 1)) else Lookup(s, k')
  {
    var i := IndexOf(s, k);
    var s' := Apply(cfg, s, Release(k)).entries;
    UpdateKeepsDistinct(s, i, s'[i]);
    LookupIsMembership(s, k');
    LookupIsMembership(s', k');
    if k' == k {
      assert s'[i] in s';
    } else if Resident(s, k') {
      assert s'[IndexOf(s, k')] in s';
    }
  }

  /** One more operation of a disciplined run whose counts match so far. */
  lemma LastStepCounts<K(!new), V>(cfg: Config, ops: seq<Op<K, V>>)
    requires cfg.pin && ops != [] && DisciplinedRun(cfg, ops)
    requires CountsMatch(Run(cfg, [], ops[..|ops| - 1]), Held(cfg, ops[..|ops| - 1]))
    ensures CountsMatch(Run(cfg, [], ops), Held(cfg, ops)) <==>
            !Leaks(cfg, Run(cfg, [], ops[..|ops| - 1]), ops[|ops| - 1])
  {
    var before, op := ops[..|ops| - 1], ops[|ops| - 1];
    var s, held := Run(cfg, [], before), Held(cfg, before);
    var s', held' := Apply(cfg, s, op).entries, HeldAfter(cfg, s, held, op);
    SplitDiscipline(cfg, ops);
    RunKeepsInv(cfg, [], before);
    RunKeepsInv(cfg, [], ops);
    CountsByKey(s, held);
    CountsByKey(s', held');
    forall k: K
      ensures CountOf(s', held', k) <==> !(Leaks(cfg, s, op) && op.key == k)
    {
      StepCountsExactly(cfg, s, held, op, k);
    }
    assert Leaks(cfg, s, op) ==> !CountOf(s', held', op.key);
  }

  /** Over every disciplined run in pin mode without a leak, reference counts equal the numbers of
      holders and every held key is in the cache. */
  lemma {:induction false} HeldEntriesStay<K(!new), V>(cfg: Config, ops: seq<Op<K, V>>)
    requires cfg.pin && DisciplinedRun(cfg, ops)
    requires NeverLeaks(cfg, ops)
    ensures Inv(cfg, Run(cfg, [], ops))
    ensures CountsMatch(Run(cfg, [], ops), Held(cfg, ops))
    decreases |ops|
  {
    RunKeepsInv(cfg, [], ops);
    if ops != [] {
      var before := ops[..|ops| - 1];
      NoLeakBefore(cfg, ops);
      SplitDiscipline(cfg, ops);
      HeldEntriesStay(cfg, before);
      assert !LeaksAt(cfg, ops, |ops| - 1);
      LastStepCounts(cfg, ops);
    }
  }

  lemma NoLeakBefore<K, V>(cfg: Config, ops: seq<Op<K, V>>)
    requires ops != [] && NeverLeaks(cfg, ops)
    ensures NeverLeaks(cfg, ops[..|ops| - 1])
  {
    var before := ops[..|ops| - 1];
    forall i | 0 <= i < |before| ensures !LeaksAt(cfg, before, i) {
      assert before[..i] == ops[..i] && !LeaksAt(cfg, ops, i);
    }
  }

  /** Over every disciplined run in pin mode, the counts are the numbers of holders after every prefix
      exactly when no operation of the run leaks. */
  lemma CountsMatchExactly<K(!new), V>(cfg: Config, ops: seq<Op<K, V>>)
    requires cfg.pin && DisciplinedRun(cfg, ops)
    ensures (forall j | 0 <= j <= |ops| :: MatchAt(cfg, ops, j)) <==> NeverLeaks(cfg, ops)
  {
    if NeverLeaks(cfg, ops) {
      forall j | 0 <= j <= |ops| ensures MatchAt(cfg, ops, j) {
        PrefixIsDisciplined(cfg, ops, j);
        forall i | 0 <= i < j ensures !LeaksAt(cfg, ops[..j], i) {
          assert ops[..j][..i] == ops[..i] && !LeaksAt(cfg, ops, i);
        }
        HeldEntriesStay(cfg, ops[..j]);
      }
    } else {
      var i :| 0 <= i < |ops| && LeaksAt(cfg, ops, i);
      LeakBreaksMatch(cfg, ops, i);
    }
  }

  lemma LeakBreaksMatch<K(!new), V>(cfg: Config, ops: seq<Op<K, V>>, i: nat)
    requires cfg.pin && DisciplinedRun(cfg, ops) && i < |ops| && LeaksAt(cfg, ops, i)
    ensures !MatchAt(cfg, ops, i) || !MatchAt(cfg, ops, i + 1)
  {
    var upTo := ops[..i + 1];
    assert upTo[..i] == ops[..i] && upTo[i] == ops[i];
    PrefixIsDisciplined(cfg, ops, i + 1);
    if MatchAt(cfg, ops, i) {
      LastStepCounts(cfg, upTo);
    }
  }

  ghost predicate NonNilAt<K, V>(s: seq<Entry<K, V>>, k: K) {
    Lookup(s, k).Some? ==> Lookup(s, k).value.value.Some?
  }

  /** A client that never puts nil into a cache that can hold something never meets a leak. */
  lemma {:induction false} NonNilNeverLeaks<K(!new), V>(cfg: Config, ops: seq<Op<K, V>>)
    requires cfg.pin && cfg.maxSize != 0
    requires forall op | op in ops :: op.PutIfNotExist? ==> op.value.Some?
    ensures NeverLeaks(cfg, ops)
  {
    forall i | 0 <= i < |ops| ensures !LeaksAt(cfg, ops, i) {
      var before := ops[..i];
      assert forall op | op in before :: op in ops;
      NonNilStays(cfg, before);
      if ops[i].Get? {
        assert NonNilAt(Run(cfg, [], before), ops[i].key);
      }
    }
  }

  lemma {:induction false} NonNilStays<K(!new), V>(cfg: Config, ops: seq<Op<K, V>>)
    requires cfg.pin && cfg.maxSize != 0
    requires forall op | op in ops :: op.PutIfNotExist? ==> op.value.Some?
    ensures forall k :: NonNilAt(Run(cfg, [], ops), k)
    decreases |ops|
  {
    if ops != [] {
      var before, op := ops[..|ops| - 1], ops[|ops| - 1];
      assert op in ops && forall o | o in before :: o in ops;
      NonNilStays(cfg, before);
      RunKeepsInv(cfg, [], before);
      forall k: K ensures NonNilAt(Run(cfg, [], ops), k) {
        StepKeepsNonNil(cfg, Run(cfg, [], before), op, k);
      }
    }
  }

  lemma StepKeepsNonNil<K(!new), V>(cfg: Config, s: seq<Entry<K, V>>, op: Op<K, V>, k: K)
    requires cfg.pin && cfg.maxSize != 0 && Inv(cfg, s)
    requires forall k :: NonNilAt(s, k)
    requires op.PutIfNotExist? ==> op.value.Some?
    ensures NonNilAt(Apply(cfg, s, op).entries, k)
  {
    assert NonNilAt(s, k);
    match op
    case Get(k0, now) =>
      GetMeaning(cfg, s, k0, now);
    case Put(k0, v, now, stamp) =>
    case PutIfNotExist(k0, v, now, stamp) =>
      assert NonNilAt(s, k0);
      PutMeaning(cfg, s, k0, v, false, now, stamp, k);
      NewKeyAfterPut(cfg, s, op);
    case Delete(k0) =>
      if Resident(s, k0) { LookupAfterRemove(s, IndexOf(s, k0), k); }
    case Release(k0) =>
      if Resident(s, k0) { ReleaseMeaning(cfg, s, k0, k); }
    case Iterate(now, upTo) =>
      var n := if upTo > |s| then |s| else upTo;
      var r := Live(cfg, s[..n], now) + s[n..];
      LiveSplit(cfg, s, n, now);
      LookupIsMembership(s, k);
      if Resident(r, k) { assert r[IndexOf(r, k)] in r; }
  }

  lemma NewKeyAfterPut<K, V>(cfg: Config, s: seq<Entry<K, V>>, op: Op<K, V>)
    requires cfg.maxSize != 0 && Inv(cfg, s) && op.PutIfNotExist?
    requires NonNilAt(s, op.key) && op.value.Some?
    ensures NonNilAt(Apply(cfg, s, op).entries, op.key)
  {
    var k := op.key;
    PutMeaning(cfg, s, k, op.value, false, op.now, op.stamp, k);
    if !Resident(s, k) {
      InsertMeaning(cfg, s, k, op.value, op.stamp, k);
    } else if Expired(cfg, s[IndexOf(s, k)], op.now) {
      var r := RemoveAt(s, IndexOf(s, k));
      RemoveKeepsDistinct(s, IndexOf(s, k));
      LookupAfterRemove(s, IndexOf(s, k), k);
      InsertMeaning(cfg, r, k, op.value, op.stamp, k);
    }
  }

  /** Over every disciplined run of a cache that can hold something, leaks or not, the counts are at
      least the numbers of holders. */
  lemma {:induction false} HeldIsCovered<K(!new), V>(cfg: Config, ops: seq<Op<K, V>>)
    requires cfg.pin && cfg.maxSize != 0 && DisciplinedRun(cfg, ops)
    ensures Inv(cfg, Run(cfg, [], ops))
    ensures forall k :: CoverOf(Run(cfg, [], ops), Held(cfg, ops), k)
    decreases |ops|
  {
    RunKeepsInv(cfg, [], ops);
    if ops != [] {
      var before := ops[..|ops| - 1];
      SplitDiscipline(cfg, ops);
      HeldIsCovered(cfg, before);
      forall k: K ensures CoverOf(Run(cfg, [], ops), Held(cfg, ops), k) {
        StepKeepsCover(cfg, Run(cfg, [], before), Held(cfg, before), ops[|ops| - 1], k);
      }
    }
  }

  /** A held entry is present, cannot be the eviction victim, and is not expired at any time; without
      a leak in the run its count is the number of its holders. */
  lemma HeldIsNeverEvictedOrExpired<K(!new), V>(cfg: Config, ops: seq<Op<K, V>>, k: K)
    requires cfg.pin && cfg.maxSize != 0
    requires DisciplinedRun(cfg, ops)
    requires k in Held(cfg, ops)
    ensures var s := Run(cfg, [], ops);
            && Resident(s, k)
            && s[IndexOf(s, k)].refs >= Held(cfg, ops)[k] > 0
            && (NeverLeaks(cfg, ops) ==> s[IndexOf(s, k)].refs == Held(cfg, ops)[k])
            && VictimBelow(s, |s|) != IndexOf(s, k)
            && forall now :: !Expired(cfg, s[IndexOf(s, k)], now)
  {
    HeldIsCovered(cfg, ops);
    assert CoverOf(Run(cfg, [], ops), Held(cfg, ops), k);
    if NeverLeaks(cfg, ops) {
      HeldEntriesStay(cfg, ops);
    }
  }

  /** One disciplined operation leaves a held entry's value and stamp alone. */
  lemma StepKeepsValue<K(!new), V>(cfg: Config, s: seq<Entry<K, V>>, held: multiset<K>, op: Op<K, V>, k: K)
    requires cfg.pin && cfg.maxSize != 0 && Inv(cfg, s)
    requires forall k :: CoverOf(s, held, k)
    requires Disciplined(held, op) && k in held
    ensures SameValue(s, Apply(cfg, s, op).entries, k)
  {
    assert CoverOf(s, held, k);
    match op
    case Get(k0, now) =>
      GetMeaning(cfg, s, k0, now);
    case Put(k0, v, now, stamp) =>
    case PutIfNotExist(k0, v, now, stamp) =>
      PutMeaning(cfg, s, k0, v, false, now, stamp, k);
      var base := if Resident(s, k0) then RemoveAt(s, IndexOf(s, k0)) else s;
      if Resident(s, k0) {
        RemoveKeepsDistinct(s, IndexOf(s, k0));
      }
      if EvictedKey(cfg, base) == Some(k) {
        VictimIsNotHeld(cfg, s, held, base, k);
      }
    case Delete(k0) =>
      if Resident(s, k0) { LookupAfterRemove(s, IndexOf(s, k0), k); }
    case Release(k0) =>
      assert CoverOf(s, held, k0);
      ReleaseMeaning(cfg, s, k0, k);
    case Iterate(now, upTo) =>
      IterateKeepsValue(cfg, s, now, if upTo > |s| then |s| else upTo, k);
  }

  ghost predicate SameValue<K, V>(s: seq<Entry<K, V>>, s': seq<Entry<K, V>>, k: K) {
    && Resident(s, k) && Resident(s', k)
    && s[IndexOf(s, k)].value == s'[IndexOf(s', k)].value
    && s[IndexOf(s, k)].created == s'[IndexOf(s', k)].created
  }

  lemma IterateKeepsValue<K, V>(cfg: Config, s: seq<Entry<K, V>>, now: int, n: nat, k: K)
    requires DistinctKeys(s) && n <= |s|
    requires Resident(s, k) && s[IndexOf(s, k)].refs != 0
    ensures SameValue(s, Live(cfg, s[..n], now) + s[n..], k)
  {
    var r := Live(cfg, s[..n], now) + s[n..];
    var e := s[IndexOf(s, k)];
    LiveSplit(cfg, s, n, now);
    LiveFacts(cfg, s[..n], now);
    assert s == s[..n] + s[n..];
    assert e in r;
    LookupIsMembership(r, k);
  }

  /** The key is held when the i-th operation of the run begins. */
  ghost predicate HeldBefore<K, V>(cfg: Config, ops: seq<Op<K, V>>, i: nat, k: K)
    requires i < |ops|
  {
    k in Held(cfg, ops[..i])
  }

  /** Over every disciplined run, while a key stays held its value and stamp stay the same. */
  lemma {:induction false} HeldValueStays<K(!new), V>(cfg: Config, ops: seq<Op<K, V>>, a: nat, k: K)
    requires cfg.pin && cfg.maxSize != 0
    requires DisciplinedRun(cfg, ops) && a < |ops|
    requires forall i | a <= i < |ops| :: HeldBefore(cfg, ops, i, k)
    ensures SameValue(Run(cfg, [], ops[..a]), Run(cfg, [], ops), k)
    decreases |ops|
  {
    var before := ops[..|ops| - 1];
    assert HeldBefore(cfg, ops, |ops| - 1, k);
    LastStepKeepsValue(cfg, ops, k);
    if a < |before| {
      forall i | a <= i < |before| ensures HeldBefore(cfg, before, i, k) {
        assert HeldBefore(cfg, ops, i, k) && before[..i] == ops[..i];
      }
      SplitDiscipline(cfg, ops);
      HeldValueStays(cfg, before, a, k);
      assert before[..a] == ops[..a];
    }
  }

  lemma LastStepKeepsValue<K(!new), V>(cfg: Config, ops: seq<Op<K, V>>, k: K)
    requires cfg.pin && cfg.maxSize != 0
    requires ops != [] && DisciplinedRun(cfg, ops) && k in Held(cfg, ops[..|ops| - 1])
    ensures SameValue(Run(cfg, [], ops[..|ops| - 1]), Run(cfg, [], ops), k)
  {
    var before := ops[..|ops| - 1];
    SplitDiscipline(cfg, ops);
    HeldIsCovered(cfg, before);
    StepKeepsValue(cfg, Run(cfg, [], before), Held(cfg, before), ops[|ops| - 1], k);
  }

  /** A cache of size zero hands out what it does not keep, so there a held key is not resident. */
  lemma ZeroSizeKeepsNothing<K(!new), V>(cfg: Config, k: K, v: V, now: int, stamp: int)
    requires cfg.maxSize == 0
    ensures var ops := [PutIfNotExist(k, Some(v), now, stamp)];
            DisciplinedRun(cfg, ops) && k in Held(cfg, ops) && Run(cfg, [], ops) == []
  {
    var ops: seq<Op<K, V>> := [PutIfNotExist(k, Some(v), now, stamp)];
    assert ops[..0] == [];
  }

  /** Without holders every entry is evictable again: a full cache then accepts a new key. */
  lemma ReleasedCacheAccepts<K(!new), V>(cfg: Config, ops: seq<Op<K, V>>, k: K, v: Option<V>, now: int, stamp: int)
    requires cfg.pin && cfg.maxSize > 0
    requires DisciplinedRun(cfg, ops) && NeverLeaks(cfg, ops)
    requires Held(cfg, ops) == multiset{}
    ensures !Apply(cfg, Run(cfg, [], ops), PutIfNotExist(k, v, now, stamp)).answer.CacheFull?
  {
    HeldEntriesStay(cfg, ops);
    var s := Run(cfg, [], ops);
    CacheFullExactly(cfg, s, k, v, now, stamp);
    if s != [] { assert s[0].refs == 0; }
  }

  lemma {:induction false} OneMoreOp<K, V>(cfg: Config, before: seq<Op<K, V>>, op: Op<K, V>)
    requires DisciplinedRun(cfg, before) && Disciplined(Held(cfg, before), op)
    ensures var ops := before + [op];
            && DisciplinedRun(cfg, ops)
            && Run(cfg, [], ops) == Apply(cfg, Run(cfg, [], before), op).entries
            && Held(cfg, ops) == HeldAfter(cfg, Run(cfg, [], before), Held(cfg, before), op)
  {
    var ops := before + [op];
    assert ops[..|before|] == before;
    forall i | 0 <= i < |ops| ensures DisciplinedAt(cfg, ops, i) {
      assert i < |before| ==> ops[..i] == before[..i] && DisciplinedAt(cfg, before, i);
    }
  }

  lemma PutIntoEmpty<K, V>(cfg: Config, s: seq<Entry<K, V>>, held: multiset<K>, put: Op<K, V>)
    requires cfg.pin && cfg.maxSize > 0 && cfg.ttl == 0 && put.PutIfNotExist? && |s| == 0
    ensures Apply(cfg, s, put).entries == [Entry(put.key, put.value, None, 1)]
    ensures HeldAfter(cfg, s, held, put) == held + multiset{put.key}
  {
    assert IndexOf(s, put.key) == 0;
    assert [NewEntry(cfg, put.key, put.value, put.stamp)] + s == [NewEntry(cfg, put.key, put.value, put.stamp)];
  }

  lemma ReleaseOnly<K, V>(cfg: Config, s: seq<Entry<K, V>>)
    requires cfg.pin && cfg.maxSize > 0 && |s| == 1
    ensures Apply(cfg, s, Release(s[0].key)).entries == [s[0].(refs := s[0].refs - 1)]
  {
    assert IndexOf(s, s[0].key) == 0;
  }

  lemma {:induction false} PutAndRelease<K(!new), V>(cfg: Config, put: Op<K, V>)
    requires cfg.pin && cfg.maxSize > 0 && cfg.ttl == 0 && put.PutIfNotExist?
    ensures var ops := [put, Release(put.key)];
            && DisciplinedRun(cfg, ops) && Held(cfg, ops) == multiset{}
            && Run(cfg, [], ops) == [Entry(put.key, put.value, None, 0)]
  {
    var one := [put];
    var none := one[..0];
    OneMoreOp(cfg, none, put);
    assert none + [put] == one;
    PutIntoEmpty(cfg, Run(cfg, [], none), Held(cfg, none), put);
    OneMoreOp(cfg, one, Release(put.key));
    ReleaseOnly(cfg, Run(cfg, [], one));
    assert one + [Op<K, V>.Release(put.key)] == [put, Release(put.key)];
  }

  /** Runs that leak, for any key: nil is put and released, and the Get that follows counts a reference
      its caller, who sees a miss, will never release. */
  lemma {:induction false} NilValueLeaksReference<K(!new), V>(cfg: Config, k: K, now: int, stamp: int)
    requires cfg.pin && cfg.maxSize > 0 && cfg.ttl == 0
    ensures var ops: seq<Op<K, V>> := [PutIfNotExist(k, None, now, stamp), Release(k), Get(k, now)];
            && DisciplinedRun(cfg, ops) && Held(cfg, ops) == multiset{}
            && Run(cfg, [], ops) == [Entry(k, None, None, 1)]
  {
    var put: Op<K, V>, get: Op<K, V> := PutIfNotExist(k, None, now, stamp), Get(k, now);
    PutAndRelease(cfg, put);
    OneMoreOp(cfg, [put, Release(k)], get);
    assert [put, Release(k)] + [get] == [put, Release(k), get];
    var none: seq<Entry<K, V>> := [];
    assert RemoveAt([Entry<K, V>.Entry(k, None, None, 0)], 0) == none;
  }
}
