/** The LRU cache as an object (common/cache/lru.go): an access list, a key index and the list's
    elements, each identified by a handle. Every method is proved to follow the functions of
    LruSpec. Clock readings are parameters; the mutex serialises calls, so a method runs alone. */
module LruCache {
  import opened LruExpiry
  import opened LruSpec
  import opened Wrappers

  /** A list element's handle; it stays with the element when the element moves. */
  type Handle = nat

  /** The three structures of the cache, as one value. */
  datatype Store<K, V> = Store(byAccess: seq<Handle>, byKey: map<K, Handle>, elements: map<Handle, Entry<K, V>>)

  /** The i-th element of the list is the one the index has for its key. */
  ghost predicate Linked<K, V>(t: Store<K, V>, i: nat) {
    && i < |t.byAccess| && t.byAccess[i] in t.elements
    && var k := t.elements[t.byAccess[i]].key;
       k in t.byKey && t.byKey[k] == t.byAccess[i]
  }

  /** The element the index has for a key is in the list and carries that key. */
  ghost predicate Indexed<K, V>(t: Store<K, V>, k: K) {
    && k in t.byKey && t.byKey[k] in t.byAccess
    && t.byKey[k] in t.elements && t.elements[t.byKey[k]].key == k
  }

  ghost predicate NoRepeats(hs: seq<Handle>) {
    hs != [] ==> hs[0] !in hs[1..] && NoRepeats(hs[1..])
  }

  lemma {:induction false} NoRepeatsMeans(hs: seq<Handle>)
    ensures NoRepeats(hs) <==> forall i, j | 0 <= i < j < |hs| :: hs[i] != hs[j]
  {
    if hs != [] {
      var rest := hs[1..];
      NoRepeatsMeans(rest);
      assert forall j | 0 < j < |hs| :: hs[j] == rest[j - 1];
      assert forall j | 0 <= j < |rest| :: rest[j] == hs[j + 1];
    }
  }

  ghost predicate Backed<K, V>(hs: seq<Handle>, elements: map<Handle, Entry<K, V>>) {
    forall h | h in hs :: h in elements
  }

  ghost predicate AllLinked<K, V>(t: Store<K, V>) {
    forall i: nat | i < |t.byAccess| :: Linked(t, i)
  }

  ghost predicate AllIndexed<K, V>(t: Store<K, V>) {
    forall k | k in t.byKey :: Indexed(t, k)
  }

  /** List and index agree one to one. */
  ghost predicate Agree<K, V>(t: Store<K, V>) {
    && NoRepeats(t.byAccess) && Backed(t.byAccess, t.elements)
    && AllLinked(t) && AllIndexed(t)
    && |t.byKey| == |t.byAccess|
  }

  function Entries<K, V>(hs: seq<Handle>, elements: map<Handle, Entry<K, V>>): (s: seq<Entry<K, V>>)
    requires Backed(hs, elements)
    ensures |s| == |hs|
  {
    if hs == [] then [] else [elements[hs[0]]] + Entries(hs[1..], elements)
  }

  /** The entries in access order. */
  function Contents<K, V>(t: Store<K, V>): (s: seq<Entry<K, V>>)
    requires Backed(t.byAccess, t.elements)
    ensures |s| == |t.byAccess|
  {
    Entries(t.byAccess, t.elements)
  }

  lemma {:induction false} EntriesAt<K, V>(hs: seq<Handle>, elements: map<Handle, Entry<K, V>>)
    requires Backed(hs, elements)
    ensures forall i | 0 <= i < |hs| :: Entries(hs, elements)[i] == elements[hs[i]]
  {
    if hs != [] {
      EntriesAt(hs[1..], elements);
    }
  }

  function PositionFrom(hs: seq<Handle>, h: Handle, from: nat): (i: nat)
    requires from <= |hs| && h in hs[from..]
    ensures i < |hs| && hs[i] == h
    decreases |hs| - from
  {
    if hs[from] == h then from else PositionFrom(hs, h, from + 1)
  }

  function Position(hs: seq<Handle>, h: Handle): (i: nat)
    requires h in hs
    ensures i < |hs| && hs[i] == h
  {
    PositionFrom(hs, h, 0)
  }

  /** Looking a key up in the index finds its place in the access list. */
  lemma IndexAgrees<K, V>(t: Store<K, V>, k: K)
    requires Agree(t)
    ensures k in t.byKey <==> Resident(Contents(t), k)
    ensures k in t.byKey ==> && Indexed(t, k)
                             && IndexOf(Contents(t), k) == Position(t.byAccess, t.byKey[k])
                             && Contents(t)[IndexOf(Contents(t), k)] == t.elements[t.byKey[k]]
  {
    var s := Contents(t);
    EntriesAt(t.byAccess, t.elements);
    KeysDistinct(t);
    DistinctMeans(s);
    if k in t.byKey {
      assert Indexed(t, k);
      var j := Position(t.byAccess, t.byKey[k]);
      assert s[j].key == k;
    }
    if Resident(s, k) {
      assert Linked(t, IndexOf(s, k));
    }
  }

  lemma KeysDistinct<K, V>(t: Store<K, V>)
    requires Agree(t)
    ensures DistinctKeys(Contents(t))
  {
    var s := Contents(t);
    EntriesAt(t.byAccess, t.elements);
    NoRepeatsMeans(t.byAccess);
    forall i, j | 0 <= i < j < |s|
      ensures s[i].key != s[j].key
    {
      assert Linked(t, i) && Linked(t, j);
    }
  }

  /** The store without one element, in the list and in the index; the element itself is left over. */
  function Remove<K, V>(t: Store<K, V>, h: Handle): Store<K, V>
    requires h in t.byAccess && h in t.elements
  {
    t.(byAccess := RemoveAt(t.byAccess, Position(t.byAccess, h)), byKey := t.byKey - {t.elements[h].key})
  }

  /** The store with one element moved to the front of the list. */
  function Front<K, V>(t: Store<K, V>, h: Handle): Store<K, V>
    requires h in t.byAccess
  {
    t.(byAccess := [h] + RemoveAt(t.byAccess, Position(t.byAccess, h)))
  }

  function Push<K, V>(t: Store<K, V>, h: Handle, e: Entry<K, V>): Store<K, V> {
    Store([h] + t.byAccess, t.byKey[e.key := h], t.elements[h := e])
  }

  function Update<K, V>(t: Store<K, V>, h: Handle, e: Entry<K, V>): Store<K, V> {
    t.(elements := t.elements[h := e])
  }

  // The list alone.

  lemma RemovedHandles(hs: seq<Handle>, i: nat)
    requires NoRepeats(hs) && i < |hs|
    ensures NoRepeats(RemoveAt(hs, i))
    ensures hs[i] !in RemoveAt(hs, i)
    ensures forall h | h in RemoveAt(hs, i) :: h in hs
    ensures forall h | h in hs && h != hs[i] :: h in RemoveAt(hs, i)
  {
    NoRepeatsMeans(hs);
    NoRepeatsMeans(RemoveAt(hs, i));
    KeptHandles(hs, i);
  }

  lemma KeptHandles(hs: seq<Handle>, i: nat)
    requires i < |hs|
    ensures forall h | h in hs && h != hs[i] :: h in RemoveAt(hs, i)
  {
    forall h | h in hs && h != hs[i]
      ensures h in RemoveAt(hs, i)
    {
      var j := Position(hs, h);
      assert RemoveAt(hs, i)[if j < i then j else j - 1] == h;
    }
  }

  lemma PushedHandles(hs: seq<Handle>, h: Handle)
    requires NoRepeats(hs) && h !in hs
    ensures NoRepeats([h] + hs)
  {
    assert ([h] + hs)[1..] == hs;
  }

  lemma ContentsRemoved<K, V>(t: Store<K, V>, i: nat, t': Store<K, V>)
    requires i < |t.byAccess| && Backed(t.byAccess, t.elements) && Backed(t'.byAccess, t'.elements)
    requires t'.byAccess == RemoveAt(t.byAccess, i) && t'.elements == t.elements
    ensures Contents(t') == RemoveAt(Contents(t), i)
  {
    EntriesAt(t.byAccess, t.elements);
    EntriesAt(t'.byAccess, t'.elements);
  }

  lemma RemoveUpdated<T>(s: seq<T>, i: nat, x: T)
    requires i < |s|
    ensures RemoveAt(s[i := x], i) == RemoveAt(s, i)
  {
  }

  lemma ContentsPushed<K, V>(t: Store<K, V>, h: Handle, t': Store<K, V>)
    requires Backed(t.byAccess, t.elements) && Backed(t'.byAccess, t'.elements) && h in t'.elements
    requires t'.byAccess == [h] + t.byAccess
    requires forall g | g in t.byAccess :: g in t'.elements && t'.elements[g] == t.elements[g]
    ensures Contents(t') == [t'.elements[h]] + Contents(t)
  {
    EntriesAt(t.byAccess, t.elements);
    EntriesAt(t'.byAccess, t'.elements);
  }

  lemma PositionOf(hs: seq<Handle>, n: nat)
    requires NoRepeats(hs) && n < |hs|
    ensures Position(hs, hs[n]) == n
  {
    NoRepeatsMeans(hs);
  }

  // List and index together.

  lemma LinkedAfterRemove<K, V>(t: Store<K, V>, h: Handle, j: nat)
    requires NoRepeats(t.byAccess) && AllLinked(t) && h in t.byAccess && h in t.elements
    requires j < |t.byAccess| - 1
    ensures Linked(Remove(t, h), j)
  {
    var i := Position(t.byAccess, h);
    NoRepeatsMeans(t.byAccess);
    assert Linked(t, i);
    assert Linked(t, if j < i then j else j + 1);
  }

  lemma IndexedAfterRemove<K, V>(t: Store<K, V>, h: Handle, k: K)
    requires NoRepeats(t.byAccess) && AllIndexed(t) && h in t.byAccess && h in t.elements
    requires k in t.byKey && k != t.elements[h].key
    ensures Indexed(Remove(t, h), k)
  {
    assert Indexed(t, k);
    RemovedHandles(t.byAccess, Position(t.byAccess, h));
  }

  lemma RemoveKeepsIndex<K, V>(t: Store<K, V>, h: Handle)
    requires Agree(t) && h in t.byAccess && h in t.elements
    ensures AllIndexed(Remove(t, h)) && AllLinked(Remove(t, h))
    ensures |Remove(t, h).byKey| == |t.byKey| - 1
  {
    var t' := Remove(t, h);
    assert Linked(t, Position(t.byAccess, h));
    assert t'.byKey.Keys == t.byKey.Keys - {t.elements[h].key};
    forall k | k in t'.byKey
      ensures Indexed(t', k)
    {
      IndexedAfterRemove(t, h, k);
    }
    forall j: nat | j < |t'.byAccess|
      ensures Linked(t', j)
    {
      LinkedAfterRemove(t, h, j);
    }
  }

  lemma RemoveAgrees<K, V>(t: Store<K, V>, h: Handle)
    requires Agree(t) && h in t.byAccess && h in t.elements
    ensures Agree(Remove(t, h))
    ensures Contents(Remove(t, h)) == RemoveAt(Contents(t), Position(t.byAccess, h))
  {
    RemovedHandles(t.byAccess, Position(t.byAccess, h));
    RemoveKeepsIndex(t, h);
    ContentsRemoved(t, Position(t.byAccess, h), Remove(t, h));
  }

  lemma LinkedAfterFront<K, V>(t: Store<K, V>, h: Handle, j: nat)
    requires AllLinked(t) && h in t.byAccess && j < |t.byAccess|
    ensures Linked(Front(t, h), j)
  {
    var i := Position(t.byAccess, h);
    assert Linked(t, if j == 0 then i else if j <= i then j - 1 else j);
  }

  lemma FrontAgrees<K, V>(t: Store<K, V>, h: Handle)
    requires Agree(t) && h in t.byAccess && h in t.elements
    ensures Agree(Front(t, h))
    ensures Contents(Front(t, h)) == [t.elements[h]] + RemoveAt(Contents(t), Position(t.byAccess, h))
  {
    var i := Position(t.byAccess, h);
    var t' := Front(t, h);
    RemovedHandles(t.byAccess, i);
    PushedHandles(RemoveAt(t.byAccess, i), h);
    var mid := t.(byAccess := RemoveAt(t.byAccess, i));
    ContentsRemoved(t, i, mid);
    ContentsPushed(mid, h, t');
    forall k | k in t'.byKey
      ensures Indexed(t', k)
    {
      assert Indexed(t, k);
    }
    forall j: nat | j < |t'.byAccess|
      ensures Linked(t', j)
    {
      LinkedAfterFront(t, h, j);
    }
  }

  lemma PushAgrees<K, V>(t: Store<K, V>, h: Handle, e: Entry<K, V>)
    requires Agree(t) && h !in t.elements && e.key !in t.byKey
    ensures Agree(Push(t, h, e)) && Contents(Push(t, h, e)) == [e] + Contents(t)
  {
    var t' := Push(t, h, e);
    PushedHandles(t.byAccess, h);
    ContentsPushed(t, h, t');
    forall k | k in t'.byKey
      ensures Indexed(t', k)
    {
      assert k != e.key ==> Indexed(t, k);
    }
    forall j: nat | j < |t'.byAccess|
      ensures Linked(t', j)
    {
      assert j > 0 ==> Linked(t, j - 1);
    }
  }

  lemma UpdateAgrees<K, V>(t: Store<K, V>, h: Handle, e: Entry<K, V>)
    requires Agree(t) && h in t.byAccess && h in t.elements && e.key == t.elements[h].key
    ensures Agree(Update(t, h, e))
    ensures Contents(Update(t, h, e)) == Contents(t)[Position(t.byAccess, h) := e]
  {
    var t' := Update(t, h, e);
    NoRepeatsMeans(t.byAccess);
    EntriesAt(t.byAccess, t.elements);
    EntriesAt(t'.byAccess, t'.elements);
    forall k | k in t'.byKey
      ensures Indexed(t', k)
    {
      assert Indexed(t, k);
    }
    forall j: nat | j < |t'.byAccess|
      ensures Linked(t', j)
    {
      assert Linked(t, j);
    }
  }

  /** Changing an element, short of its key, and moving it to the front. */
  lemma TouchAgrees<K, V>(t: Store<K, V>, h: Handle, e: Entry<K, V>)
    requires Agree(t) && h in t.byAccess && h in t.elements && e.key == t.elements[h].key
    ensures Agree(Front(Update(t, h, e), h))
    ensures Contents(Front(Update(t, h, e), h)) == [e] + RemoveAt(Contents(t), Position(t.byAccess, h))
  {
    UpdateAgrees(t, h, e);
    FrontAgrees(Update(t, h, e), h);
    RemoveUpdated(Contents(t), Position(t.byAccess, h), e);
  }

  /** The invariant of the cache as a whole; handles from `next` on are unused. */
  ghost predicate Sound<K, V>(cfg: Config, t: Store<K, V>, next: Handle) {
    && Agree(t)
    && (forall h | h in t.elements :: h < next)
    && Bounded(cfg, Contents(t))
  }

  /** A touch of the element indexed under `k`, and its removal, as the contents show them. */
  lemma TouchShows<K, V>(cfg: Config, t: Store<K, V>, next: Handle, h: Handle, e: Entry<K, V>)
    requires Sound(cfg, t, next) && h in t.byAccess && h in t.elements
    requires e.key == t.elements[h].key && (cfg.pin || e.refs == 0)
    ensures Sound(cfg, Front(Update(t, h, e), h), next)
    ensures Contents(Front(Update(t, h, e), h)) == [e] + RemoveAt(Contents(t), Position(t.byAccess, h))
  {
    TouchAgrees(t, h, e);
  }

  lemma RemovalShows<K, V>(cfg: Config, t: Store<K, V>, next: Handle, h: Handle)
    requires Sound(cfg, t, next) && h in t.byAccess && h in t.elements
    ensures Sound(cfg, Remove(t, h), next)
    ensures Contents(Remove(t, h)) == RemoveAt(Contents(t), Position(t.byAccess, h))
  {
    RemoveAgrees(t, h);
    RemoveKeepsBounded(cfg, Contents(t), Position(t.byAccess, h));
  }

  /** Making room for a new key: evict if full. */
  lemma MakingRoomShows<K, V>(cfg: Config, t: Store<K, V>, next: Handle, k: K, v: Option<V>, stamp: int)
    requires Sound(cfg, t, next) && k !in t.byKey && cfg.maxSize != 0
    ensures var t1 := if |t.byKey| >= cfg.maxSize then Evict(t) else t;
            && Sound(cfg, t1, next) && k !in t1.byKey
            && Insert(cfg, Contents(t), k, v, stamp)
               == if |t1.byKey| >= cfg.maxSize then Outcome(Contents(t1), CacheFull)
                  else Outcome([NewEntry(cfg, k, v, stamp)] + Contents(t1), Value(None))
  {
    EvictAgrees(t);
    EvictedStaysBounded(cfg, t);
  }

  lemma EvictedStaysBounded<K, V>(cfg: Config, t: Store<K, V>)
    requires Backed(t.byAccess, t.elements) && Bounded(cfg, Contents(t))
    ensures Bounded(cfg, Evicted(Contents(t)))
  {
    var v := VictimBelow(Contents(t), |t.byAccess|);
    if v >= 0 {
      RemoveKeepsBounded(cfg, Contents(t), v);
    }
  }

  lemma PushShows<K, V>(cfg: Config, t: Store<K, V>, next: Handle, e: Entry<K, V>)
    requires Sound(cfg, t, next) && e.key !in t.byKey && |t.byKey| < cfg.maxSize
    requires cfg.pin || e.refs == 0
    ensures Sound(cfg, Push(t, next, e), next + 1)
    ensures Contents(Push(t, next, e)) == [e] + Contents(t)
  {
    PushAgrees(t, next, e);
    PushKeepsBounded(cfg, Contents(t), e);
  }

  /** What Get does, read off the index instead of the list. */
  lemma GetCases<K, V>(cfg: Config, t: Store<K, V>, k: K, now: int)
    requires Agree(t) && Bounded(cfg, Contents(t))
    ensures k in t.byKey ==> Indexed(t, k) && (cfg.pin || t.elements[t.byKey[k]].refs == 0)
    ensures var s := Contents(t);
            ApplyGet(cfg, s, k, now) ==
            if cfg.maxSize == 0 || k !in t.byKey then Outcome(s, Value(None))
            else
              var e := t.elements[t.byKey[k]];
              var rest := RemoveAt(s, Position(t.byAccess, t.byKey[k]));
              if Expired(cfg, e, now) then Outcome(rest, Value(None))
              else Outcome([Retained(cfg, e)] + rest, Value(e.value))
  {
    IndexAgrees(t, k);
  }

  /** What a put does, read off the index. */
  lemma PutCases<K, V>(cfg: Config, t: Store<K, V>, k: K, v: Option<V>, allowUpdate: bool, now: int, stamp: int)
    requires Agree(t) && Bounded(cfg, Contents(t)) && cfg.maxSize != 0
    ensures k in t.byKey ==> Indexed(t, k) && (cfg.pin || t.elements[t.byKey[k]].refs == 0)
    ensures var s := Contents(t);
            ApplyPutInternal(cfg, s, k, v, allowUpdate, now, stamp) ==
            if k !in t.byKey then Insert(cfg, s, k, v, stamp)
            else
              var e := t.elements[t.byKey[k]];
              var rest := RemoveAt(s, Position(t.byAccess, t.byKey[k]));
              if Expired(cfg, e, now) then Insert(cfg, rest, k, v, stamp)
              else Outcome([Refreshed(cfg, e, v, allowUpdate, stamp)] + rest, Value(e.value))
  {
    IndexAgrees(t, k);
  }

  /** The store after one eviction. */
  function Evict<K, V>(t: Store<K, V>): Store<K, V>
    requires Backed(t.byAccess, t.elements)
  {
    var v := VictimBelow(Contents(t), |t.byAccess|);
    if v < 0 then t else Remove(t, t.byAccess[v])
  }

  lemma EvictAgrees<K, V>(t: Store<K, V>)
    requires Agree(t)
    ensures Agree(Evict(t)) && Contents(Evict(t)) == Evicted(Contents(t))
    ensures Evict(t).byKey.Keys <= t.byKey.Keys && Evict(t).elements == t.elements
  {
    var v := VictimBelow(Contents(t), |t.byAccess|);
    if v >= 0 {
      PositionOf(t.byAccess, v);
      RemoveAgrees(t, t.byAccess[v]);
    }
  }

  class Lru<K(==), V> {
    const cfg: Config
    var store: Store<K, V>
    var nextHandle: Handle

    ghost predicate Valid()
      reads this
    {
      Sound(cfg, store, nextHandle)
    }

    constructor (cfg: Config)
      ensures Valid() && Contents(store) == [] && this.cfg == cfg
    {
      this.cfg := cfg;
      store := Store([], map[], map[]);
      nextHandle := 0;
    }

    method Get(k: K, now: int) returns (r: Option<V>)
      requires Valid()
      modifies this
      ensures Valid()
      ensures Outcome(Contents(store), Value(r)) == ApplyGet(cfg, old(Contents(store)), k, now)
      ensures r == FoundAt(cfg, old(Contents(store)), k, now)
    {
      GetCases(cfg, store, k, now);
      if cfg.maxSize == 0 {
        return None;
      }
      if k !in store.byKey {
        return None;
      }
      var element := store.byKey[k];
      if Expired(cfg, store.elements[element], now) {
        DeleteInternal(element);
        return None;
      }
      var entry := Retained(cfg, store.elements[element]);
      UpdateAndMoveToFront(element, entry);
      return entry.value;
    }

    /** Changes the fields of an element, short of its key, and moves it to the front of the list. */
    method UpdateAndMoveToFront(h: Handle, entry: Entry<K, V>)
      requires Valid() && h in store.byAccess && h in store.elements
      requires entry.key == store.elements[h].key && (cfg.pin || entry.refs == 0)
      modifies this`store
      ensures Valid() && store == Front(Update(old(store), h, entry), h)
      ensures Contents(store) == [entry] + RemoveAt(old(Contents(store)), Position(old(store).byAccess, h))
    {
      TouchShows(cfg, store, nextHandle, h, entry);
      store := store.(elements := store.elements[h := entry]);
      store := store.(byAccess := [h] + RemoveAt(store.byAccess, Position(store.byAccess, h)));
    }

    /** Removes the element from the list and its key from the index. */
    method DeleteInternal(h: Handle)
      requires Valid() && h in store.byAccess && h in store.elements
      modifies this`store
      ensures Valid() && store == Remove(old(store), h)
      ensures Contents(store) == RemoveAt(old(Contents(store)), Position(old(store).byAccess, h))
    {
      RemovalShows(cfg, store, nextHandle, h);
      var key := store.elements[h].key;
      store := store.(byAccess := RemoveAt(store.byAccess, Position(store.byAccess, h)));
      store := store.(byKey := store.byKey - {key});
    }

    /** Put is refused in pin mode; the error of a full cache is dropped. */
    method Put(k: K, v: Option<V>, now: int, stamp: int) returns (r: Answer<V>)
      requires Valid()
      modifies this
      ensures Valid()
      ensures Outcome(Contents(store), r) == Apply(cfg, old(Contents(store)), Op.Put(k, v, now, stamp))
      ensures !r.CacheFull? && (r.Panic? <==> cfg.pin)
    {
      if cfg.pin {
        return Panic;
      }
      var existing, full := PutInternal(k, v, true, now, stamp);
      return Value(if full then None else existing);
    }

    method PutIfNotExist(k: K, v: Option<V>, now: int, stamp: int) returns (r: Answer<V>)
      requires Valid()
      modifies this
      ensures Valid()
      ensures Outcome(Contents(store), r) == Apply(cfg, old(Contents(store)), Op.PutIfNotExist(k, v, now, stamp))
    {
      var existing, full := PutInternal(k, v, false, now, stamp);
      if full {
        return CacheFull;
      }
      if existing.None? {
        return Value(v);
      }
      return Value(existing);
    }

    method PutInternal(k: K, v: Option<V>, allowUpdate: bool, now: int, stamp: int)
      returns (existing: Option<V>, full: bool)
      requires Valid()
      modifies this
      ensures Valid()
      ensures full ==> existing == None
      ensures Outcome(Contents(store), if full then CacheFull else Value(existing))
              == ApplyPutInternal(cfg, old(Contents(store)), k, v, allowUpdate, now, stamp)
    {
      if cfg.maxSize == 0 {
        return None, false;
      }
      PutCases(cfg, store, k, v, allowUpdate, now, stamp);
      if k in store.byKey {
        var element := store.byKey[k];
        var entry := store.elements[element];
        if Expired(cfg, entry, now) {
          DeleteInternal(element);
        } else {
          var refreshed := Refresh(entry, v, allowUpdate, stamp);
          UpdateAndMoveToFront(element, refreshed);
          return entry.value, false;
        }
      }
      full := InsertNew(k, v, stamp);
      return None, full;
    }

    /** The changes a put makes to the fields of a live entry. */
    method Refresh(e: Entry<K, V>, v: Option<V>, allowUpdate: bool, stamp: int) returns (entry: Entry<K, V>)
      ensures entry == Refreshed(cfg, e, v, allowUpdate, stamp)
    {
      entry := e;
      if allowUpdate {
        entry := entry.(value := v);
        if cfg.ttl != 0 {
          entry := entry.(created := Some(stamp));
        }
      }
      if cfg.pin {
        entry := entry.(refs := entry.refs + 1);
      }
    }

    /** Stores a key that is not in the cache, evicting one entry when it is full. */
    method InsertNew(k: K, v: Option<V>, stamp: int) returns (full: bool)
      requires Valid() && k !in store.byKey && cfg.maxSize != 0
      modifies this
      ensures Valid()
      ensures Outcome(Contents(store), if full then CacheFull else Value(None))
              == Insert(cfg, old(Contents(store)), k, v, stamp)
    {
      MakingRoomShows(cfg, store, nextHandle, k, v, stamp);
      var entry := NewEntry(cfg, k, v, stamp);
      if |store.byKey| >= cfg.maxSize {
        EvictOnceInternal();
      }
      if |store.byKey| >= cfg.maxSize {
        return true;
      }
      PushShows(cfg, store, nextHandle, entry);
      store := Store([nextHandle] + store.byAccess, store.byKey[k := nextHandle],
                     store.elements[nextHandle := entry]);
      nextHandle := nextHandle + 1;
      return false;
    }

    /** Walks from the back of the list to the first unreferenced element and deletes it. */
    method EvictOnceInternal()
      requires Valid()
      modifies this`store
      ensures Valid() && store == Evict(old(store))
    {
      ghost var s := Contents(store);
      EntriesAt(store.byAccess, store.elements);
      var n: nat := |store.byAccess|;
      while n > 0
        invariant n <= |store.byAccess| && store == old(store)
        invariant VictimBelow(s, |s|) == VictimBelow(s, n)
      {
        var element := store.byAccess[n - 1];
        assert s[n - 1] == store.elements[element];
        if store.elements[element].refs == 0 {
          DeleteInternal(element);
          return;
        }
        n := n - 1;
      }
    }

    method Delete(k: K)
      requires Valid()
      modifies this
      ensures Valid()
      ensures Contents(store) == Apply(cfg, old(Contents(store)), Op.Delete(k)).entries
    {
      if cfg.maxSize == 0 {
        return;
      }
      IndexAgrees(store, k);
      if k in store.byKey {
        DeleteInternal(store.byKey[k]);
      }
    }

    method Release(k: K)
      requires Valid()
      modifies this
      ensures Valid()
      ensures Contents(store) == Apply(cfg, old(Contents(store)), Op.Release(k)).entries
    {
      if cfg.maxSize == 0 || !cfg.pin {
        return;
      }
      IndexAgrees(store, k);
      if k !in store.byKey {
        return;
      }
      var element := store.byKey[k];
      var entry := store.elements[element].(refs := store.elements[element].refs - 1);
      UpdateAgrees(store, element, entry);
      store := store.(elements := store.elements[element := entry]);
    }

    method Size() returns (n: nat)
      requires Valid()
      ensures n == |Contents(store)|
    {
      n := |store.byKey|;
    }
  }

  /** What an iterator hands out: a copy of an entry, without its reference count. */
  datatype Yield<K, V> = Yield(key: K, value: Option<V>, created: Option<int>)

  function Copies<K, V>(s: seq<Entry<K, V>>): (r: seq<Yield<K, V>>)
    ensures |r| == |s|
    ensures forall i | 0 <= i < |s| :: r[i] == Yield(s[i].key, s[i].value, s[i].created)
  {
    seq(|s|, i requires 0 <= i < |s| => Yield(s[i].key, s[i].value, s[i].created))
  }

  /** The first `q` entries of `start` have been examined and the expired ones among them deleted;
      the others, the first `n` entries of the list as it is now, have been yielded. */
  ghost predicate Walked<K, V>(s: seq<Entry<K, V>>, n: nat, cfg: Config, time: int,
                               start: seq<Entry<K, V>>, q: nat, yielded: seq<Yield<K, V>>) {
    && n <= |s| && q <= |start|
    && yielded == Copies(s[..n])
    && s[..n] == Live(cfg, start[..q], time)
    && s[n..] == start[q..]
  }

  lemma WalkOverExpired<K, V>(s: seq<Entry<K, V>>, n: nat, cfg: Config, time: int,
                              start: seq<Entry<K, V>>, q: nat, yielded: seq<Yield<K, V>>)
    requires Walked(s, n, cfg, time, start, q, yielded) && n < |s| && Expired(cfg, s[n], time)
    ensures Walked(RemoveAt(s, n), n, cfg, time, start, q + 1, yielded)
  {
    assert s[n] == s[n..][0] == start[q];
    assert start[..q + 1] == start[..q] + [start[q]];
    LiveSnoc(cfg, start[..q], start[q], time);
    assert RemoveAt(s, n)[..n] == s[..n];
    assert RemoveAt(s, n)[n..] == s[n..][1..];
  }

  lemma WalkOverLive<K, V>(s: seq<Entry<K, V>>, n: nat, cfg: Config, time: int,
                           start: seq<Entry<K, V>>, q: nat, yielded: seq<Yield<K, V>>)
    requires Walked(s, n, cfg, time, start, q, yielded) && n < |s| && !Expired(cfg, s[n], time)
    ensures Walked(s, n + 1, cfg, time, start, q + 1, yielded + [Yield(s[n].key, s[n].value, s[n].created)])
  {
    assert s[n] == s[n..][0] == start[q];
    assert start[..q + 1] == start[..q] + [start[q]];
    LiveSnoc(cfg, start[..q], start[q], time);
    assert s[..n + 1] == s[..n] + [s[n]];
    assert s[n + 1..] == s[n..][1..];
  }

  /** Walks the access list while deleting expired entries from it. The iterator keeps the cache
      locked until it is closed. */
  class LruIterator<K(==), V> {
    const lru: Lru<K, V>
    const createTime: int
    var nextItem: Option<Handle>
    ghost const start: seq<Entry<K, V>>  // the contents when the iterator was made
    ghost var yielded: seq<Yield<K, V>>
    ghost var examined: nat  // how many entries of `start` have been passed

    ghost predicate Positioned()
      reads this, lru
    {
      && lru.Valid()
      && Walked(Contents(lru.store), |yielded|, lru.cfg, createTime, start, examined, yielded)
      && nextItem == if |yielded| == |lru.store.byAccess| then None else Some(lru.store.byAccess[|yielded|])
    }

    ghost predicate Valid()
      reads this, lru
    {
      && Positioned()
      && (HasNext() ==> !Expired(lru.cfg, Contents(lru.store)[|yielded|], createTime))
    }

    constructor (lru: Lru<K, V>, now: int)
      requires lru.Valid()
      modifies lru
      ensures Valid()
      ensures this.lru == lru && createTime == now && yielded == []
      ensures start == old(Contents(lru.store))
    {
      this.lru := lru;
      this.createTime := now;
      this.start := Contents(lru.store);
      this.yielded := [];
      this.examined := 0;
      nextItem := if lru.store.byAccess == [] then None else Some(lru.store.byAccess[0]);
      new;
      assert start[..0] == [] && start[0..] == start;
      PrepareNext();
    }

    predicate HasNext()
      reads this
    {
      nextItem.Some?
    }

    /** The element after `h` in the access list. */
    function After(h: Handle): Option<Handle>
      requires h in lru.store.byAccess
      reads lru
    {
      var i := Position(lru.store.byAccess, h);
      if i + 1 < |lru.store.byAccess| then Some(lru.store.byAccess[i + 1]) else None
    }

    /** Deletes expired entries from the current position up to the next live one. */
    method PrepareNext()
      requires Positioned()
      modifies this`nextItem, this`examined, lru
      ensures Valid()
    {
      while nextItem.Some?
        invariant Positioned()
        decreases |lru.store.byAccess|
      {
        var element := nextItem.value;
        EntriesAt(lru.store.byAccess, lru.store.elements);
        if !Expired(lru.cfg, lru.store.elements[element], createTime) {
          return;
        }
        DeleteExpired(element);
      }
    }

    /** One round of the loop: step past an expired element, then delete it. */
    method DeleteExpired(element: Handle)
      requires Positioned() && nextItem == Some(element)
      requires element in lru.store.elements && Expired(lru.cfg, lru.store.elements[element], createTime)
      modifies this`nextItem, this`examined, lru
      ensures Positioned()
      ensures |lru.store.byAccess| == old(|lru.store.byAccess|) - 1
    {
      ghost var t, n := lru.store, |yielded|;
      PositionOf(lru.store.byAccess, n);
      EntriesAt(t.byAccess, t.elements);
      WalkOverExpired(Contents(lru.store), n, lru.cfg, createTime, start, examined, yielded);
      RemoveAgrees(t, element);
      KeysDistinct(t);
      RemoveKeepsInv(lru.cfg, Contents(lru.store), n);
      var next := After(element);
      lru.DeleteInternal(element);
      nextItem := next;
      examined := examined + 1;
    }

    /** Hands out a copy of the entry it stands at; with none left it panics, here `None`. */
    method Next() returns (r: Option<Yield<K, V>>)
      requires Valid()
      modifies this, lru
      ensures Valid()
      ensures r.Some? <==> old(HasNext())
      ensures yielded == old(yielded) + (if r.Some? then [r.value] else [])
      ensures r.None? ==> Contents(lru.store) == old(Contents(lru.store)) && nextItem == old(nextItem)
    {
      if nextItem.None? {
        return None;
      }
      var element := nextItem.value;
      ghost var t, n := lru.store, |yielded|;
      PositionOf(lru.store.byAccess, n);
      EntriesAt(t.byAccess, t.elements);
      WalkOverLive(Contents(lru.store), n, lru.cfg, createTime, start, examined, yielded);
      nextItem := After(element);
      var entry := lru.store.elements[element];
      var copy := Yield(entry.key, entry.value, entry.created);
      yielded := yielded + [copy];
      examined := examined + 1;
      PrepareNext();
      return Some(copy);
    }

    /** At any point of an iteration the cache is as the partial iteration of LruSpec leaves it. */
    lemma FollowsSpec()
      requires Valid()
      ensures Contents(lru.store) == Apply(lru.cfg, start, Op.Iterate(createTime, examined)).entries
    {
      var s := Contents(lru.store);
      assert s == s[..|yielded|] + s[|yielded|..];
    }

    /** A completed iteration has yielded exactly the entries that were live when it began, each once
        and in access order, and exactly those remain in the cache. */
    lemma CompletedIteration()
      requires Valid() && !HasNext()
      ensures yielded == Copies(Live(lru.cfg, start, createTime))
      ensures Contents(lru.store) == Live(lru.cfg, start, createTime)
    {
      var s := Contents(lru.store);
      assert s[..|s|] == s && s[|s|..] == [];
      assert start[..|start|] == start;
    }

    /** With the times written out: an entry of the cache was yielded exactly when it was referenced,
        never stamped or not older than the time to live. */
    lemma YieldedByTime(y: Yield<K, V>)
      requires Valid() && !HasNext()
      ensures y in yielded <==>
              exists e :: && e in start && y == Yield(e.key, e.value, e.created)
                          && (e.refs != 0 || e.created.None? || createTime <= e.created.value + lru.cfg.ttl)
    {
      CompletedIteration();
      var live := Live(lru.cfg, start, createTime);
      forall e ensures e in live <==>
                       e in start && (e.refs != 0 || e.created.None? || createTime <= e.created.value + lru.cfg.ttl)
      {
        IterationByTime(lru.cfg, start, createTime, e);
      }
      if y in yielded {
        var i :| 0 <= i < |yielded| && yielded[i] == y;
        assert live[i] in live;
      }
    }
  }
}
