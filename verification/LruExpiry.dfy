/** When entries of the LRU cache expire, with the times written out: for one operation and over
    whole runs from the put that stored the entry. */
module LruExpiry {
  import opened LruSpec
  import opened Wrappers

  // ----- one operation -----

  /** Get finds an entry that is referenced, never stamped, or not older than the time to live, and
      keeps it; any other entry is not found and is lost. */
  lemma GetByTime<K, V>(cfg: Config, s: seq<Entry<K, V>>, k: K, now: int)
    requires Inv(cfg, s) && Resident(s, k) && cfg.maxSize != 0
    ensures var o, e := Apply(cfg, s, Get(k, now)), s[IndexOf(s, k)];
            if e.refs != 0 || e.created.None? || now <= e.created.value + cfg.ttl
            then o.answer == Value(e.value) && Resident(o.entries, k)
            else o.answer == Value(None) && !Resident(o.entries, k)
  {
    GetMeaning(cfg, s, k, now);
  }

  /** What a Get answers, over all cases. */
  ghost function FoundAt<K, V>(cfg: Config, s: seq<Entry<K, V>>, k: K, now: int): Option<V> {
    if cfg.maxSize == 0 || !Resident(s, k) then None
    else
      var e := s[IndexOf(s, k)];
      if e.refs != 0 || e.created.None? || now <= e.created.value + cfg.ttl then e.value else None
  }

  /** A put meets the old value of such an entry, and any other entry as if it were absent. */
  lemma PutByTime<K, V>(cfg: Config, s: seq<Entry<K, V>>, k: K, v: Option<V>, allowUpdate: bool, now: int, stamp: int)
    requires Inv(cfg, s) && Resident(s, k) && cfg.maxSize != 0
    ensures var o, e := ApplyPutInternal(cfg, s, k, v, allowUpdate, now, stamp), s[IndexOf(s, k)];
            && Resident(o.entries, k)
            && var e' := o.entries[IndexOf(o.entries, k)];
               if e.refs != 0 || e.created.None? || now <= e.created.value + cfg.ttl
               then && o.answer == Value(e.value) && e'.value == (if allowUpdate then v else e.value)
                    && e'.created == (if allowUpdate && cfg.ttl != 0 then Some(stamp) else e.created)
               else o.answer == Value(None) && e'.value == v && e'.created == if cfg.ttl != 0 then Some(stamp) else None
  {
    PutMeaning(cfg, s, k, v, allowUpdate, now, stamp, k);
    PutFullExactly(cfg, s, k, v, allowUpdate, now, stamp);
  }

  /** An iteration yields exactly those entries. */
  lemma IterationByTime<K, V>(cfg: Config, s: seq<Entry<K, V>>, now: int, e: Entry<K, V>)
    ensures e in Live(cfg, s, now) <==>
            e in s && (e.refs != 0 || e.created.None? || now <= e.created.value + cfg.ttl)
  {
    LiveFacts(cfg, s, now);
  }

  // ----- stamps -----

  ghost predicate Stamped<K, V>(cfg: Config, s: seq<Entry<K, V>>) {
    forall i | 0 <= i < |s| :: s[i].created.Some? <==> cfg.ttl != 0
  }

  lemma PutStamps<K, V>(cfg: Config, s: seq<Entry<K, V>>, k: K, v: Option<V>, allowUpdate: bool, now: int, stamp: int)
    requires Stamped(cfg, s)
    ensures Stamped(cfg, ApplyPutInternal(cfg, s, k, v, allowUpdate, now, stamp).entries)
  {
    if Resident(s, k) {
      InsertStamps(cfg, RemoveAt(s, IndexOf(s, k)), k, v, stamp);
    } else {
      InsertStamps(cfg, s, k, v, stamp);
    }
  }

  lemma InsertStamps<K, V>(cfg: Config, s: seq<Entry<K, V>>, k: K, v: Option<V>, stamp: int)
    requires Stamped(cfg, s)
    ensures Stamped(cfg, Insert(cfg, s, k, v, stamp).entries)
  {
    assert Stamped(cfg, MadeRoom(cfg, s));
  }

  lemma StepStamps<K, V>(cfg: Config, s: seq<Entry<K, V>>, op: Op<K, V>)
    requires Stamped(cfg, s)
    ensures Stamped(cfg, Apply(cfg, s, op).entries)
  {
    match op
    case Put(k, v, now, stamp) => PutStamps(cfg, s, k, v, true, now, stamp);
    case PutIfNotExist(k, v, now, stamp) => PutStamps(cfg, s, k, v, false, now, stamp);
    case Iterate(now, upTo) =>
      var n := if upTo > |s| then |s| else upTo;
      LiveFacts(cfg, s[..n], now);
      var live := Live(cfg, s[..n], now);
      assert forall i | 0 <= i < |live| :: live[i] in live;
    case _ =>
  }

  lemma {:induction false} RunStamps<K, V>(cfg: Config, ops: seq<Op<K, V>>)
    ensures Stamped(cfg, Run(cfg, [], ops))
  {
    if ops != [] {
      RunStamps(cfg, ops[..|ops| - 1]);
      StepStamps(cfg, Run(cfg, [], ops[..|ops| - 1]), ops[|ops| - 1]);
    }
  }

  // ----- runs -----

  predicate IsPut<K, V>(op: Op<K, V>) {
    op.Put? || op.PutIfNotExist?
  }

  /** The operation does not put or delete the key, and no put of another key evicts it. */
  ghost predicate Spares<K, V>(cfg: Config, s: seq<Entry<K, V>>, op: Op<K, V>, k: K) {
    && (IsPut(op) || op.Delete? ==> op.key != k)
    && (IsPut(op) && Resident(s, k) ==> Resident(Apply(cfg, s, op).entries, k))
  }

  ghost predicate SparesAt<K, V>(cfg: Config, s: seq<Entry<K, V>>, ops: seq<Op<K, V>>, k: K, i: nat)
    requires i < |ops|
  {
    Spares(cfg, Run(cfg, s, ops[..i]), ops[i], k)
  }

  /** None of the operations puts, deletes or evicts the key, and none reads a clock later than `now`. */
  ghost predicate LeftAlone<K, V>(cfg: Config, s: seq<Entry<K, V>>, ops: seq<Op<K, V>>, k: K, now: int) {
    && (forall i | 0 <= i < |ops| :: SparesAt(cfg, s, ops, k, i))
    && (forall i | 0 <= i < |ops| :: NotAfter(ops[i], now))
  }

  predicate NotAfter<K, V>(op: Op<K, V>, now: int) {
    op.Get? || IsPut(op) || op.Iterate? ==> op.now <= now
  }

  /** How an entry stands after operations that left it alone: there with its value and stamp, or gone
      because its time had passed. */
  ghost predicate Stands<K, V>(cfg: Config, e: Entry<K, V>, s: seq<Entry<K, V>>, now: int) {
    match Lookup(s, e.key)
    case Some(e') => e'.value == e.value && e'.created == e.created
    case None => e.created.Some? && now > e.created.value + cfg.ttl
  }

  lemma OtherPutStands<K, V>(cfg: Config, s: seq<Entry<K, V>>, op: Op<K, V>, e: Entry<K, V>, now: int)
    requires Inv(cfg, s) && Stands(cfg, e, s, now) && IsPut(op) && Spares(cfg, s, op, e.key)
    ensures Stands(cfg, e, Apply(cfg, s, op).entries, now)
  {
    PutMeaning(cfg, s, op.key, op.value, op.Put?, op.now, op.stamp, e.key);
  }

  lemma IterateStands<K, V>(cfg: Config, s: seq<Entry<K, V>>, op: Op<K, V>, e: Entry<K, V>, now: int)
    requires Inv(cfg, s) && Stands(cfg, e, s, now) && op.Iterate? && op.now <= now
    ensures Stands(cfg, e, Apply(cfg, s, op).entries, now)
  {
    var n := if op.upTo > |s| then |s| else op.upTo;
    var s' := Apply(cfg, s, op).entries;
    LiveSplit(cfg, s, n, op.now);
    LookupIsMembership(s, e.key);
    LookupIsMembership(s', e.key);
    LiveFacts(cfg, s[..n], op.now);
    if Resident(s, e.key) {
      var e' := s[IndexOf(s, e.key)];
      assert e' in s[..n] || e' in s[n..];
      IterationByTime(cfg, s[..n], op.now, e');
    }
  }

  lemma StepStands<K, V>(cfg: Config, s: seq<Entry<K, V>>, op: Op<K, V>, e: Entry<K, V>, now: int)
    requires Inv(cfg, s) && Stands(cfg, e, s, now) && Spares(cfg, s, op, e.key) && NotAfter(op, now)
    ensures Stands(cfg, e, Apply(cfg, s, op).entries, now)
  {
    match op
    case Get(k, t) => GetMeaning(cfg, s, k, t);
    case Put(_, _, _, _) => OtherPutStands(cfg, s, op, e, now);
    case PutIfNotExist(_, _, _, _) => OtherPutStands(cfg, s, op, e, now);
    case Delete(k) => if Resident(s, k) { LookupAfterRemove(s, IndexOf(s, k), e.key); }
    case Release(k) => ReleaseStands(cfg, s, k, e, now);
    case Iterate(_, _) => IterateStands(cfg, s, op, e, now);
  }

  lemma ReleaseStands<K, V>(cfg: Config, s: seq<Entry<K, V>>, k: K, e: Entry<K, V>, now: int)
    requires Inv(cfg, s) && Stands(cfg, e, s, now)
    ensures Stands(cfg, e, Apply(cfg, s, Release(k)).entries, now)
  {
    var s' := Apply(cfg, s, Release(k)).entries;
    assert |s'| == |s| && forall i | 0 <= i < |s| ::
      s'[i].key == s[i].key && s'[i].value == s[i].value && s'[i].created == s[i].created;
    assert IndexOf(s', e.key) == IndexOf(s, e.key);
  }

  lemma {:induction false} RunStands<K, V>(cfg: Config, s: seq<Entry<K, V>>, ops: seq<Op<K, V>>, e: Entry<K, V>, now: int)
    requires Inv(cfg, s) && Lookup(s, e.key) == Some(e) && LeftAlone(cfg, s, ops, e.key, now)
    ensures Inv(cfg, Run(cfg, s, ops)) && Stands(cfg, e, Run(cfg, s, ops), now)
  {
    RunKeepsInv(cfg, s, ops);
    if ops != [] {
      var n := |ops| - 1;
      var before := ops[..n];
      forall i | 0 <= i < |before| ensures SparesAt(cfg, s, before, e.key, i) {
        assert SparesAt(cfg, s, ops, e.key, i) && before[..i] == ops[..i];
      }
      RunStands(cfg, s, before, e, now);
      assert SparesAt(cfg, s, ops, e.key, n);
      StepStands(cfg, Run(cfg, s, before), ops[n], e, now);
    }
  }

  /** The entry under the key is referenced. */
  predicate Held<K(==), V>(s: seq<Entry<K, V>>, k: K) {
    Resident(s, k) && s[IndexOf(s, k)].refs != 0
  }

  /** A stored entry that nothing puts, deletes or evicts is found, and yielded by an iteration, until
      its stamp plus the time to live, and after that only while it is referenced. */
  lemma EntryLives<K, V>(cfg: Config, s: seq<Entry<K, V>>, ops: seq<Op<K, V>>, e: Entry<K, V>, now: int)
    requires Inv(cfg, s) && Lookup(s, e.key) == Some(e) && cfg.maxSize != 0
    requires LeftAlone(cfg, s, ops, e.key, now)
    ensures var s' := Run(cfg, s, ops);
            var lives := e.created.None? || now <= e.created.value + cfg.ttl || Held(s', e.key);
            && Apply(cfg, s', Get(e.key, now)).answer == Value(if lives then e.value else None)
            && (lives <==> exists x :: x in Live(cfg, s', now) && x.key == e.key)
            && forall x | x in Live(cfg, s', now) && x.key == e.key :: x.value == e.value && x.created == e.created
  {
    RunStands(cfg, s, ops, e, now);
    var s' := Run(cfg, s, ops);
    LookupIsMembership(s', e.key);
    LiveFacts(cfg, s', now);
    GetMeaning(cfg, s', e.key, now);
    if Resident(s', e.key) {
      GetByTime(cfg, s', e.key, now);
      IterationByTime(cfg, s', now, s'[IndexOf(s', e.key)]);
    }
  }

  /** The put stores its value: an updating put does, and so does one that finds no entry or an
      expired one, unless the cache is full. */
  ghost predicate StoresValue<K, V>(cfg: Config, s: seq<Entry<K, V>>, op: Op<K, V>) {
    || (op.Put? && !cfg.pin)
    || (&& op.PutIfNotExist? && !Apply(cfg, s, op).answer.CacheFull?
        && (Resident(s, op.key) ==>
              var e := s[IndexOf(s, op.key)];
              e.refs == 0 && e.created.Some? && op.now > e.created.value + cfg.ttl))
  }

  lemma PutStores<K, V>(cfg: Config, s: seq<Entry<K, V>>, op: Op<K, V>)
    requires Inv(cfg, s) && Stamped(cfg, s) && cfg.maxSize > 0 && StoresValue(cfg, s, op)
    ensures var e := Lookup(Apply(cfg, s, op).entries, op.key);
            && e.Some? && e.value.key == op.key && e.value.value == op.value
            && e.value.created == if cfg.ttl == 0 then None else Some(op.stamp)
  {
    PutMeaning(cfg, s, op.key, op.value, op.Put?, op.now, op.stamp, op.key);
    if op.Put? {
      UnpinnedNeverFull(cfg, s, op.key, op.value, true, op.now, op.stamp);
    }
  }

  /** Over every run: a value put at a time is found by every later Get of its key up to that time plus
      the time to live, as long as nothing puts, deletes or evicts the key, and by no Get after it
      unless the entry is referenced. The same holds of what an iteration yields. Without a time to
      live it is found for good. */
  lemma PutLives<K, V>(cfg: Config, before: seq<Op<K, V>>, put: Op<K, V>, ops: seq<Op<K, V>>, now: int)
    requires cfg.maxSize > 0
    requires var s := Run(cfg, [], before);
             && StoresValue(cfg, s, put)
             && LeftAlone(cfg, Apply(cfg, s, put).entries, ops, put.key, now)
    ensures var s' := Run(cfg, Apply(cfg, Run(cfg, [], before), put).entries, ops);
            var lives := cfg.ttl == 0 || now <= put.stamp + cfg.ttl || Held(s', put.key);
            && Apply(cfg, s', Get(put.key, now)).answer == Value(if lives then put.value else None)
            && (lives <==> exists x :: x in Live(cfg, s', now) && x.key == put.key)
            && (forall x | x in Live(cfg, s', now) && x.key == put.key :: x.value == put.value)
            && (!cfg.pin ==> !Held(s', put.key))
  {
    var s := Run<K, V>(cfg, [], before);
    RunKeepsInv<K, V>(cfg, [], before);
    RunStamps(cfg, before);
    PutStores(cfg, s, put);
    ApplyKeepsInv(cfg, s, put);
    var s1 := Apply(cfg, s, put).entries;
    EntryLives(cfg, s1, ops, Lookup(s1, put.key).value, now);
    RunKeepsInv(cfg, s1, ops);
  }
}
