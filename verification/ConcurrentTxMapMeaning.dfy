/** What callers of the sharded map can rely on, said without a map: the value under a key is the one
    that the last write of that key left, and a caller can tell the writes from their answers. */
module ConcurrentTxMapMeaning {
  import opened ConcurrentTxMap
  import opened ConcurrentTxMapProof
  import opened ConcurrentTxMapCommit
  import opened ConcurrentTxMapOrder
  import opened Wrappers

  // ----- what one operation leaves under a key -----

  /** The value an operation leaves under its key, from the one it found there. */
  ghost predicate Leaves(op: Op, found: Option<Value>, left: Option<Value>) {
    && (op.Get? || op.GetAndDo? ==> left == found)
    && (op.Put? ==> left == Some(op.value))
    && (op.PutIfNotExist? || op.PutOrDo? ==> left == if found.Some? then found else Some(op.value))
    && (op.Remove? ==> left == None)
    && (op.RemoveIf? ==> left == if found.Some? && op.pred(op.key, found.value) then None else found)
  }

  /** One more operation in lock order changes its own key only, and leaves there what it is for. */
  lemma {:induction false} ReplayLeaves(log: seq<Op>, op: Op, k: Key)
    ensures if op.key == k then Leaves(op, Lookup(Replay(log), k), Lookup(Replay(log + [op]), k))
            else Lookup(Replay(log + [op]), k) == Lookup(Replay(log), k)
  {
    ReplayAppend(log, op);
  }

  /** The same for one more request in commit order; the length leaves everything. */
  lemma {:induction false} ReplayAllLeaves(c: seq<Request>, r: Request, k: Key)
    ensures if r.OnKey? && r.op.key == k then Leaves(r.op, Lookup(ReplayAll(c), k), Lookup(ReplayAll(c + [r]), k))
            else Lookup(ReplayAll(c + [r]), k) == Lookup(ReplayAll(c), k)
  {
    ReplayAllAppend(c, r);
  }

  // ----- writes as callers see them -----

  /** The request stored a value under the key, by what was asked and what was answered. */
  ghost predicate Stores(r: Request, a: Result, k: Key, v: Value) {
    && r.OnKey? && r.op.key == k
    && (r.op.Put? || (r.op.PutIfNotExist? && a == Flag(true)) || (r.op.PutOrDo? && a == Did(Some(v), false, None)))
    && r.op.value == v
  }

  /** The request removed the key. */
  ghost predicate Clears(r: Request, a: Result, k: Key) {
    r.OnKey? && r.op.key == k && (r.op.Remove? || (r.op.RemoveIf? && a == Flag(true)))
  }

  ghost predicate StoresAt(c: seq<Request>, i: nat, k: Key, v: Value)
    requires i < |c|
  {
    Stores(c[i], ResultAt(c, i), k, v)
  }

  ghost predicate WritesAt(c: seq<Request>, i: nat, k: Key)
    requires i < |c|
  {
    Clears(c[i], ResultAt(c, i), k) || exists v :: StoresAt(c, i, k, v)
  }

  /** No request from place i to place n wrote the key. */
  ghost predicate Untouched(c: seq<Request>, i: nat, n: nat, k: Key)
    requires n <= |c|
  {
    forall j: nat | i <= j < n :: !WritesAt(c, j, k)
  }

  /** Before place n the value last stored under the key is v, and it has not been removed since. */
  ghost predicate LastStored(c: seq<Request>, n: nat, k: Key, v: Value)
    requires n <= |c|
  {
    exists i: nat | i < n :: StoresAt(c, i, k, v) && Untouched(c, i + 1, n, k)
  }

  /** What the request at a place leaves under a key: the value if it stores one, nothing if it
      clears, and what was there otherwise. */
  lemma {:induction false} PlaceLeaves(c: seq<Request>, i: nat, k: Key)
    requires i < |c|
    ensures forall v | StoresAt(c, i, k, v) :: Lookup(ReplayAll(c[..i + 1]), k) == Some(v)
    ensures Clears(c[i], ResultAt(c, i), k) ==> Lookup(ReplayAll(c[..i + 1]), k) == None
    ensures !WritesAt(c, i, k) ==> Lookup(ReplayAll(c[..i + 1]), k) == Lookup(ReplayAll(c[..i]), k)
  {
    assert c[..i + 1] == c[..i] + [c[i]];
    ReplayAllLeaves(c[..i], c[i], k);
    if c[i].OnKey? && (c[i].op.Put? || c[i].op.PutIfNotExist? || c[i].op.PutOrDo?) && !WritesAt(c, i, k) {
      assert !StoresAt(c, i, k, c[i].op.value);
    }
  }

  /** What requests that do not write the key leave there. */
  lemma {:induction false} UntouchedLeaves(c: seq<Request>, i: nat, n: nat, k: Key)
    requires i <= n <= |c| && Untouched(c, i, n, k)
    ensures Lookup(ReplayAll(c[..n]), k) == Lookup(ReplayAll(c[..i]), k)
    decreases n
  {
    if i < n {
      UntouchedLeaves(c, i, n - 1, k);
      PlaceLeaves(c, n - 1, k);
      assert !WritesAt(c, n - 1, k);
    }
  }

  /** The map fed in commit order holds a value under a key exactly when that value was stored by the
      last write of the key. */
  lemma {:induction false} HoldsLastStored(c: seq<Request>, n: nat, k: Key, v: Value)
    requires n <= |c|
    ensures Lookup(ReplayAll(c[..n]), k) == Some(v) <==> LastStored(c, n, k, v)
  {
    if LastStored(c, n, k, v) {
      var i: nat :| i < n && StoresAt(c, i, k, v) && Untouched(c, i + 1, n, k);
      PlaceLeaves(c, i, k);
      UntouchedLeaves(c, i + 1, n, k);
    }
    if Lookup(ReplayAll(c[..n]), k) == Some(v) {
      StoredSome(c, n, k, v);
    }
  }

  lemma {:induction false} StoredSome(c: seq<Request>, n: nat, k: Key, v: Value)
    requires n <= |c| && Lookup(ReplayAll(c[..n]), k) == Some(v)
    ensures LastStored(c, n, k, v)
    decreases n
  {
    if n > 0 {
      PlaceLeaves(c, n - 1, k);
      if WritesAt(c, n - 1, k) {
        assert StoresAt(c, n - 1, k, v) && Untouched(c, n, n, k);
      } else {
        StoredSome(c, n - 1, k, v);
        var i: nat :| i < n - 1 && StoresAt(c, i, k, v) && Untouched(c, i + 1, n - 1, k);
        assert Untouched(c, i + 1, n, k);
      }
    }
  }

  // ----- what every caller of every run sees -----

  /** The answer of an operation when its key holds v. */
  ghost predicate AnswersPresent(op: Op, v: Value, a: Result) {
    && (op.Get? ==> a == Found(Some(v)))
    && (op.Put? || op.Remove? ==> a == Unit)
    && (op.PutIfNotExist? ==> a == Flag(false))
    && (op.GetAndDo? || op.PutOrDo? ==> a == Did(Some(v), true, op.fn(op.key, v)))
    && (op.RemoveIf? ==> a == Flag(op.pred(op.key, v)))
  }

  /** The answer of an operation when its key holds nothing. */
  ghost predicate AnswersAbsent(op: Op, a: Result) {
    && (op.Get? ==> a == Found(None))
    && (op.Put? || op.Remove? ==> a == Unit)
    && (op.PutIfNotExist? ==> a == Flag(true))
    && (op.GetAndDo? ==> a == Did(None, false, None))
    && (op.PutOrDo? ==> a == Did(Some(op.value), false, None))
    && (op.RemoveIf? ==> a == Flag(false))
  }

  /** In every run of every interleaving, each operation on a key answers by the last write of its key
      before it in the commit order, which is a linearization of the history: as for a present key
      when that write stored a value, as for an absent one when it removed the key or there was none. */
  lemma {:induction false} AnswersFollowLastWrite(h: HashFn, run: seq<Move>, i: nat)
    requires LegalRun(h, run)
    requires i < |After(h, run).events| && After(h, run).events[i].Respond? && After(h, run).events[i].request.OnKey?
    ensures var s, e := After(h, run), After(h, run).events[i];
            && e.place < |s.commits| && s.commits[e.place] == e.request
            && (forall v | LastStored(s.commits, e.place, e.request.op.key, v) ::
                  AnswersPresent(e.request.op, v, e.result))
            && ((forall v :: !LastStored(s.commits, e.place, e.request.op.key, v)) ==>
                  AnswersAbsent(e.request.op, e.result))
  {
    EveryRunIsLinearizable(h, run);
    var c, e := After(h, run).commits, After(h, run).events[i];
    assert Explained(c, e);
    var k := e.request.op.key;
    forall v ensures Lookup(ReplayAll(c[..e.place]), k) == Some(v) <==> LastStored(c, e.place, k, v) {
      HoldsLastStored(c, e.place, k, v);
    }
  }

  /** A Get answers the value of the last Put of its key before it when no other write of that key
      lies between them. */
  lemma {:induction false} GetSeesLastPut(h: HashFn, run: seq<Move>, i: nat, n: nat)
    requires LegalRun(h, run)
    requires var s := After(h, run);
             && i < |s.events| && s.events[i].Respond? && s.events[i].request.OnKey? && s.events[i].request.op.Get?
             && n < s.events[i].place <= |s.commits| && s.commits[n].OnKey? && s.commits[n].op.Put?
             && s.commits[n].op.key == s.events[i].request.op.key
             && Untouched(s.commits, n + 1, s.events[i].place, s.commits[n].op.key)
    ensures After(h, run).events[i].result == Found(Some(After(h, run).commits[n].op.value))
  {
    var s := After(h, run);
    var k, v := s.commits[n].op.key, s.commits[n].op.value;
    assert StoresAt(s.commits, n, k, v);
    AnswersFollowLastWrite(h, run, i);
    assert LastStored(s.commits, s.events[i].place, k, v);
  }
}
