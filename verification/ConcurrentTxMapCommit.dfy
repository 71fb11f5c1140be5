/** The commit order of the sharded map: requests in the order in which they take effect. At every
    moment the size is the number of keys of one map fed in that order, and every answer, the length
    included, is the one that map gives. */
module ConcurrentTxMapCommit {
  import opened ConcurrentTxMap
  import opened ConcurrentTxMapProof
  import opened GoInt
  import opened Wrappers

  // ----- the sequential execution of requests -----

  function Effect(m: map<Key, Value>, r: Request): map<Key, Value> {
    match r
    case OnKey(op) => Applied(m, op)
    case Length => m
  }

  function ResultOf(m: map<Key, Value>, r: Request): Result {
    match r
    case OnKey(op) => Answer(Lookup(m, op.key), op)
    case Length => Size(Wrap32(|m|))
  }

  function ReplayAll(c: seq<Request>): map<Key, Value> {
    if c == [] then map[] else Effect(ReplayAll(c[..|c| - 1]), c[|c| - 1])
  }

  /** What the n-th request answers in that sequential execution. */
  function ResultAt(c: seq<Request>, n: nat): Result
    requires n < |c|
  {
    ResultOf(ReplayAll(c[..n]), c[n])
  }

  lemma {:induction false} ReplayAllAppend(c: seq<Request>, r: Request)
    ensures ReplayAll(c + [r]) == Effect(ReplayAll(c), r)
    ensures ResultAt(c + [r], |c|) == ResultOf(ReplayAll(c), r)
  {
    assert (c + [r])[..|c|] == c;
  }

  lemma {:induction false} ResultStable(c: seq<Request>, r: Request, n: nat)
    requires n < |c|
    ensures ResultAt(c + [r], n) == ResultAt(c, n)
  {
    assert (c + [r])[..n] == c[..n];
  }

  // ----- the invariant -----

  ghost function CommittedMap(s: State): map<Key, Value> {
    ReplayAll(s.commits)
  }

  /** An operation that has stored and is about to count changes the number of keys by its delta and
      has the answer of what is committed under its key. */
  ghost predicate Effective(found: Option<Value>, op: Op, delta: int, result: Result) {
    && (match op
        case PutIfNotExist(_, _) => found.None? && delta == 1
        case PutOrDo(_, _, _) => found.None? && delta == 1
        case Remove(_) => found.Some? && delta == -1
        case RemoveIf(k, pred) => found.Some? && pred(k, found.value) && delta == -1
        case _ => false)
    && result == Answer(found, op)
  }

  /** The items of a shard are what is committed, save at the key of its writer: a Put that has
      counted is one store behind, the others have stored before they count. */
  ghost predicate ShardCommit(h: HashFn, s: State, c: map<Key, Value>, i: nat)
    requires i < |s.shards|
  {
    var m := Items(s.shards[i]);
    if s.shards[i].writer.None? then AgreeOn(h, i, c, m)
    else
      var pc := PcOf(s, s.shards[i].writer.value);
      if pc.Write? && pc.op.Put? then AgreeOn(h, i, c, Applied(m, pc.op))
      else if pc.CountAfter? then
        AgreeOn(h, i, Applied(c, pc.op), m) && Effective(Lookup(c, pc.op.key), pc.op, pc.delta, pc.result)
      else AgreeOn(h, i, c, m)
  }

  ghost predicate Placed(c: seq<Request>, r: Request, place: nat) {
    place < |c| && c[place] == r
  }

  ghost predicate ThreadCommit(s: State, t: Tid) {
    var th := ThreadOf(s, t);
    && (th.pc.Write? && th.pc.op.Put? ==> Placed(s.commits, OnKey(th.pc.op), th.place))
    && (th.pc.Finished? ==> Placed(s.commits, OnKey(th.pc.op), th.place) && th.pc.result == ResultAt(s.commits, th.place))
    && (th.pc.Asked? ==> Placed(s.commits, Length, th.place) && Size(th.pc.n) == ResultAt(s.commits, th.place))
  }

  /** A response carries the answer of its request at its place in the commit order. */
  ghost predicate Explained(c: seq<Request>, e: Event) {
    e.Respond? ==> Placed(c, e.request, e.place) && e.result == ResultAt(c, e.place)
  }

  ghost predicate CommitInv(h: HashFn, s: State) {
    && |s.shards| == N_SHARDS
    && s.size == Wrap32(|CommittedMap(s)|)
    && (forall i: nat | i < N_SHARDS :: ShardCommit(h, s, CommittedMap(s), i))
    && (forall t: Tid :: ThreadCommit(s, t))
    && (forall i | 0 <= i < |s.events| :: Explained(s.commits, s.events[i]))
  }

  // ----- frames -----

  lemma AgreeTrans(h: HashFn, i: nat, a: map<Key, Value>, b: map<Key, Value>, c: map<Key, Value>)
    requires AgreeOn(h, i, a, b) && AgreeOn(h, i, b, c)
    ensures AgreeOn(h, i, a, c)
  {
    forall k: Key ensures AgreeAt(h, i, a, c, k) {
      assert AgreeAt(h, i, a, b, k) && AgreeAt(h, i, b, c, k);
    }
  }

  /** A shard's relation to what is committed depends only on its own keys. */
  lemma OtherShard(h: HashFn, s: State, s': State, t: Tid, j: nat, c: map<Key, Value>, c': map<Key, Value>, i: nat)
    requires Inv(h, s) && j < N_SHARDS && Local(h, s, s', t, j) && i < N_SHARDS && i != j
    requires AgreeOn(h, i, c', c) && ShardCommit(h, s, c, i)
    ensures ShardCommit(h, s', c', i)
  {
    assert ShardInv(h, s, i);
    var sh, m := s.shards[i], Items(s.shards[i]);
    assert s'.shards[i] == sh;
    if sh.writer.None? {
      AgreeTrans(h, i, c', c, m);
    } else {
      var u := sh.writer.value;
      assert WriterInv(h, s, i, u);
      assert u != t && PcOf(s', u) == PcOf(s, u);
      var pc := PcOf(s, u);
      if pc.Write? && pc.op.Put? {
        AgreeTrans(h, i, c', c, Applied(m, pc.op));
      } else if pc.CountAfter? {
        AppliedAgrees(h, i, c', c, pc.op);
        AgreeTrans(h, i, Applied(c', pc.op), Applied(c, pc.op), m);
      } else {
        AgreeTrans(h, i, c', c, m);
      }
    }
  }

  /** The commit order grows by nothing or by one request that concerns shard `j` at most. */
  ghost predicate Grows(h: HashFn, c: seq<Request>, c': seq<Request>, j: nat) {
    c' == c || (|c'| == |c| + 1 && c' == c + [c'[|c|]] && (c'[|c|].OnKey? ==> Home(h, c'[|c|].op.key) == j))
  }

  lemma GrowsElsewhere(h: HashFn, c: seq<Request>, c': seq<Request>, j: nat, i: nat)
    requires Grows(h, c, c', j) && i != j
    ensures AgreeOn(h, i, ReplayAll(c'), ReplayAll(c))
  {
    var m := ReplayAll(c);
    assert AgreeOn(h, i, m, m) by { assert forall k :: AgreeAt(h, i, m, m, k); }
    if c' != c {
      ReplayAllAppend(c, c'[|c|]);
      if c'[|c|].OnKey? {
        AppliedElsewhere(h, i, m, m, c'[|c|].op);
      }
    }
  }

  lemma GrowsStable(h: HashFn, c: seq<Request>, c': seq<Request>, j: nat, n: nat)
    requires Grows(h, c, c', j) && n < |c|
    ensures n < |c'| && c'[n] == c[n] && ResultAt(c', n) == ResultAt(c, n)
  {
    if c' != c {
      ResultStable(c, c'[|c|], n);
    }
  }

  /** A step keeps the invariant if it keeps it at its own shard and thread, in the size and in the
      events it adds. */
  lemma ConcludeCommit(h: HashFn, s: State, s': State, t: Tid, j: nat)
    requires Inv(h, s) && CommitInv(h, s) && j < N_SHARDS && Local(h, s, s', t, j)
    requires Grows(h, s.commits, s'.commits, j)
    requires ShardCommit(h, s', CommittedMap(s'), j) && ThreadCommit(s', t)
    requires s'.size == Wrap32(|CommittedMap(s')|)
    requires |s.events| <= |s'.events| && s'.events[..|s.events|] == s.events
    requires forall i | |s.events| <= i < |s'.events| :: Explained(s'.commits, s'.events[i])
    ensures CommitInv(h, s')
  {
    forall i: nat | i < N_SHARDS ensures ShardCommit(h, s', CommittedMap(s'), i) {
      if i != j {
        GrowsElsewhere(h, s.commits, s'.commits, j, i);
        OtherShard(h, s, s', t, j, CommittedMap(s), CommittedMap(s'), i);
      }
    }
    forall u: Tid ensures ThreadCommit(s', u) {
      if u != t {
        assert ThreadCommit(s, u) && ThreadOf(s', u) == ThreadOf(s, u);
        if Committed(PcOf(s, u)) {
          GrowsStable(h, s.commits, s'.commits, j, ThreadOf(s, u).place);
        }
      }
    }
    forall i | 0 <= i < |s'.events| ensures Explained(s'.commits, s'.events[i]) {
      if i < |s.events| {
        assert s'.events[i] == s'.events[..|s.events|][i] && Explained(s.commits, s.events[i]);
        if s.events[i].Respond? {
          GrowsStable(h, s.commits, s'.commits, j, s.events[i].place);
        }
      }
    }
  }

  // ----- sizes -----

  lemma EffectiveSize(c: map<Key, Value>, op: Op, delta: int, result: Result)
    requires Effective(Lookup(c, op.key), op, delta, result)
    ensures |Applied(c, op)| == |c| + delta
  {
    if op.Remove? || op.RemoveIf? {
      assert (c - {op.key}).Keys == c.Keys - {op.key};
    }
  }

  /** When the lookup decides that the size will not change, the operation does not change it. */
  lemma CheckedSize(c: map<Key, Value>, op: Op)
    requires Committed(AfterCheck(Lookup(c, op.key), op))
    ensures |Applied(c, op)| == |c|
  {
    if op.Remove? {
      assert c - {op.key} == c;
    } else if op.Put? {
      assert c[op.key := op.value].Keys == c.Keys;
    }
  }

  // ----- every step keeps it -----

  /** The writer's view of its shard when nothing of its operation has happened yet. */
  lemma UntouchedShard(h: HashFn, s: State, t: Tid)
    requires Inv(h, s) && CommitInv(h, s) && InLock(PcOf(s, t)) && !PcOf(s, t).CountAfter?
    requires !(PcOf(s, t).Write? && PcOf(s, t).op.Put?)
    ensures var j := Home(h, PcOf(s, t).op.key); AgreeOn(h, j, CommittedMap(s), Items(s.shards[j]))
  {
    var j := Home(h, PcOf(s, t).op.key);
    assert ThreadInv(h, s, t) && ShardInv(h, s, j) && ShardCommit(h, s, CommittedMap(s), j);
  }

  lemma BeginKeepsCommit(h: HashFn, s: State, t: Tid, step: Step)
    requires Inv(h, s) && CommitInv(h, s) && Enabled(h, s, t, step) && (step.Call? || step.AskLen?)
    ensures CommitInv(h, Do(h, s, t, step))
  {
    NotRegistered(h, s, t, 0);
    assert ShardInv(h, s, 0) && ShardCommit(h, s, CommittedMap(s), 0);
    ConcludeCommit(h, s, Do(h, s, t, step), t, 0);
  }

  lemma LenKeepsCommit(h: HashFn, s: State, t: Tid, step: Step)
    requires Inv(h, s) && CommitInv(h, s) && Enabled(h, s, t, step) && (step.ReadLen? || step.ReturnLen?)
    ensures CommitInv(h, Do(h, s, t, step))
  {
    NotRegistered(h, s, t, 0);
    assert ShardInv(h, s, 0) && ShardCommit(h, s, CommittedMap(s), 0) && ThreadCommit(s, t);
    ReplayAllAppend(s.commits, Length);
    ConcludeCommit(h, s, Do(h, s, t, step), t, 0);
  }

  lemma LockKeepsCommit(h: HashFn, s: State, t: Tid)
    requires Inv(h, s) && CommitInv(h, s) && Enabled(h, s, t, Lock)
    ensures CommitInv(h, Do(h, s, t, Lock))
  {
    var j := Home(h, PcOf(s, t).op.key);
    assert ShardCommit(h, s, CommittedMap(s), j);
    ConcludeCommit(h, s, Do(h, s, t, Lock), t, j);
  }

  lemma CheckAtShard(h: HashFn, s: State, t: Tid)
    requires Inv(h, s) && CommitInv(h, s) && Enabled(h, s, t, Check)
    ensures var s' := Do(h, s, t, Check);
            ShardCommit(h, s', CommittedMap(s'), Home(h, PcOf(s, t).op.key)) && s'.size == Wrap32(|CommittedMap(s')|)
  {
    var s' := Do(h, s, t, Check);
    var op := PcOf(s, t).op;
    var j := Home(h, op.key);
    var c, m := CommittedMap(s), Items(s.shards[j]);
    assert ThreadInv(h, s, t) && ShardInv(h, s, j);
    UntouchedShard(h, s, t);
    AppliedAgrees(h, j, c, m, op);
    CheckBranches(m, op);
    if Committed(PcOf(s', t)) {
      ReplayAllAppend(s.commits, OnKey(op));
      CheckedSize(c, op);
    }
  }

  lemma CheckKeepsCommit(h: HashFn, s: State, t: Tid)
    requires Inv(h, s) && CommitInv(h, s) && Enabled(h, s, t, Check)
    ensures CommitInv(h, Do(h, s, t, Check))
  {
    var s' := Do(h, s, t, Check);
    var op := PcOf(s, t).op;
    var j := Home(h, op.key);
    CheckAtShard(h, s, t);
    CheckBranches(Items(s.shards[j]), op);
    ReplayAllAppend(s.commits, OnKey(op));
    UntouchedShard(h, s, t);
    assert AgreeAt(h, j, CommittedMap(s), Items(s.shards[j]), op.key);
    ConcludeCommit(h, s, s', t, j);
  }

  lemma CountKeepsCommit(h: HashFn, s: State, t: Tid)
    requires Inv(h, s) && CommitInv(h, s) && Enabled(h, s, t, Count)
    ensures CommitInv(h, Do(h, s, t, Count))
  {
    var s' := Do(h, s, t, Count);
    var op := PcOf(s, t).op;
    ReplayAllAppend(s.commits, OnKey(op));
    CountCommitted(h, s, t);
    CountMovesSize(h, s, t);
    ConcludeCommit(h, s, s', t, Home(h, op.key));
  }

  lemma CountCommitted(h: HashFn, s: State, t: Tid)
    requires Inv(h, s) && CommitInv(h, s) && Enabled(h, s, t, Count)
    ensures var s' := Do(h, s, t, Count);
            var pc := PcOf(s, t);
            && ShardCommit(h, s', Applied(CommittedMap(s), pc.op), Home(h, pc.op.key))
            && (pc.CountAfter? ==> pc.result == Answer(Lookup(CommittedMap(s), pc.op.key), pc.op))
  {
    var pc := PcOf(s, t);
    var j := Home(h, pc.op.key);
    var c := CommittedMap(s);
    HoldsWriteLock(h, s, t);
    assert ShardCommit(h, s, c, j);
    if pc.CountFirst? {
      AppliedAgrees(h, j, c, Items(s.shards[j]), pc.op);
    }
  }

  lemma CountMovesSize(h: HashFn, s: State, t: Tid)
    requires Inv(h, s) && CommitInv(h, s) && Enabled(h, s, t, Count)
    ensures Do(h, s, t, Count).size == Wrap32(|Applied(CommittedMap(s), PcOf(s, t).op)|)
  {
    CountEffect(h, s, t);
    WrapStep(s.size, |CommittedMap(s)|, if PcOf(s, t).CountFirst? then 1 else PcOf(s, t).delta);
  }

  lemma WrapStep(size: int, n: int, delta: int)
    requires size == Wrap32(n)
    ensures Wrap32(size + delta) == Wrap32(n + delta)
  {
    WrapAdd32(n, delta);
  }

  lemma CountEffect(h: HashFn, s: State, t: Tid)
    requires Inv(h, s) && CommitInv(h, s) && Enabled(h, s, t, Count)
    ensures var pc := PcOf(s, t);
            |Applied(CommittedMap(s), pc.op)| == |CommittedMap(s)| + if pc.CountFirst? then 1 else pc.delta
  {
    var pc := PcOf(s, t);
    var j := Home(h, pc.op.key);
    var c := CommittedMap(s);
    HoldsWriteLock(h, s, t);
    assert ShardCommit(h, s, c, j);
    if pc.CountFirst? {
      assert AgreeAt(h, j, c, Items(s.shards[j]), pc.op.key);
    } else {
      EffectiveSize(c, pc.op, pc.delta, pc.result);
    }
  }

  lemma StoreKeepsCommit(h: HashFn, s: State, t: Tid)
    requires Inv(h, s) && CommitInv(h, s) && Enabled(h, s, t, Store)
    ensures CommitInv(h, Do(h, s, t, Store))
  {
    var s' := Do(h, s, t, Store);
    var j := Home(h, PcOf(s, t).op.key);
    StoreCommitted(h, s, t);
    ConcludeCommit(h, s, s', t, j);
  }

  lemma StoreCommitted(h: HashFn, s: State, t: Tid)
    requires Inv(h, s) && CommitInv(h, s) && Enabled(h, s, t, Store)
    ensures ShardCommit(h, Do(h, s, t, Store), CommittedMap(s), Home(h, PcOf(s, t).op.key))
    ensures ThreadCommit(Do(h, s, t, Store), t)
  {
    assert ThreadCommit(s, t);
    var op := PcOf(s, t).op;
    var j := Home(h, op.key);
    var c, m := CommittedMap(s), Items(s.shards[j]);
    HoldsWriteLock(h, s, t);
    StoreApplies(h, s, t);
    assert ShardCommit(h, s, c, j);
    if !op.Put? {
      AppliedAgrees(h, j, c, m, op);
    }
  }

  lemma UnlockKeepsCommit(h: HashFn, s: State, t: Tid)
    requires Inv(h, s) && CommitInv(h, s) && Enabled(h, s, t, Unlock)
    ensures CommitInv(h, Do(h, s, t, Unlock))
  {
    var j := Home(h, PcOf(s, t).op.key);
    UntouchedShard(h, s, t);
    assert ThreadInv(h, s, t) && ShardInv(h, s, j) && ThreadCommit(s, t);
    ConcludeCommit(h, s, Do(h, s, t, Unlock), t, j);
  }

  lemma StepKeepsCommit(h: HashFn, s: State, t: Tid, step: Step)
    requires Inv(h, s) && CommitInv(h, s) && Enabled(h, s, t, step)
    ensures CommitInv(h, Do(h, s, t, step))
  {
    match step
    case Call(_) => BeginKeepsCommit(h, s, t, step);
    case AskLen => BeginKeepsCommit(h, s, t, step);
    case Lock => LockKeepsCommit(h, s, t);
    case Check => CheckKeepsCommit(h, s, t);
    case Count => CountKeepsCommit(h, s, t);
    case Store => StoreKeepsCommit(h, s, t);
    case Unlock => UnlockKeepsCommit(h, s, t);
    case _ => LenKeepsCommit(h, s, t, step);
  }

  lemma InitCommit(h: HashFn)
    ensures CommitInv(h, Init())
  {
    var s := Init();
    forall i: nat | i < N_SHARDS ensures ShardCommit(h, s, map[], i) {
      assert s.shards[i] == Shard(None, None, {});
      assert forall k :: AgreeAt(h, i, map[], Items(s.shards[i]), k);
    }
  }

  lemma {:induction false} EveryRunKeepsCommit(h: HashFn, run: seq<Move>)
    requires LegalRun(h, run)
    ensures CommitInv(h, After(h, run))
    decreases |run|
  {
    if run == [] {
      InitCommit(h);
    } else {
      var before := run[..|run| - 1];
      EveryRunKeepsInv(h, before);
      EveryRunKeepsCommit(h, before);
      StepKeepsCommit(h, After(h, before), run[|run| - 1].t, run[|run| - 1].step);
    }
  }

  /** At every moment of every run, whatever is in flight, Len is the number of keys of the one map
      fed in commit order (wrapped to 32 bits). */
  lemma {:induction false} LenIsCommitted(h: HashFn, run: seq<Move>)
    requires LegalRun(h, run)
    ensures Len(After(h, run)) == Wrap32(|ReplayAll(After(h, run).commits)|)
  {
    EveryRunKeepsCommit(h, run);
  }
}
