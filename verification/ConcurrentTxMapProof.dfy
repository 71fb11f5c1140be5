/** Every interleaving of the sharded map's steps keeps its invariant; hence the size is exact up to
    in-flight corrections, and every operation on a key answers as one map fed in lock order. */
module ConcurrentTxMapProof {
  import opened ConcurrentTxMap
  import opened GoInt
  import opened Wrappers

  // ----- the sequential history -----

  lemma {:induction false} ReplayAppend(log: seq<Op>, op: Op)
    ensures Replay(log + [op]) == Applied(Replay(log), op)
    ensures AnswerAt(log + [op], |log|) == Answer(Lookup(Replay(log), op.key), op)
  {
    assert (log + [op])[..|log|] == log;
  }

  lemma {:induction false} AnswerStable(log: seq<Op>, op: Op, n: nat)
    requires n < |log|
    ensures AnswerAt(log + [op], n) == AnswerAt(log, n)
  {
    assert (log + [op])[..n] == log[..n];
  }

  /** An operation does the same to two maps that agree on its shard. */
  lemma AppliedAgrees(h: HashFn, i: nat, a: map<Key, Value>, b: map<Key, Value>, op: Op)
    requires AgreeOn(h, i, a, b) && Home(h, op.key) == i
    ensures AgreeOn(h, i, Applied(a, op), Applied(b, op))
    ensures Lookup(a, op.key) == Lookup(b, op.key)
  {
    assert AgreeAt(h, i, a, b, op.key);
    forall k: Key
      ensures AgreeAt(h, i, Applied(a, op), Applied(b, op), k)
    {
      assert AgreeAt(h, i, a, b, k);
    }
  }

  /** It leaves every other shard's keys alone. */
  lemma AppliedElsewhere(h: HashFn, i: nat, a: map<Key, Value>, b: map<Key, Value>, op: Op)
    requires AgreeOn(h, i, a, b) && Home(h, op.key) != i
    ensures AgreeOn(h, i, Applied(a, op), b)
  {
    forall k: Key
      ensures AgreeAt(h, i, Applied(a, op), b, k)
    {
      assert AgreeAt(h, i, a, b, k);
    }
  }

  /** The store a thread performs is the operation's own effect. */
  lemma WrittenIsApplied(m: map<Key, Value>, initialised: bool, op: Op, counted: bool)
    requires PointFacts(m, initialised, Write(op, counted))
    ensures Written(m, op) == Applied(m, op)
    ensures AfterStore(op) == (if op.Put? then Finished(op, Answer(Lookup(m, op.key), op))
                               else CountAfter(op, |Applied(m, op)| - |m|, Answer(Lookup(m, op.key), op)))
    ensures op.Put? ==> |Applied(m, op)| == |m| + if counted then 1 else 0
  {
    if op.Remove? || op.RemoveIf? {
      assert (m - {op.key}).Keys == m.Keys - {op.key};
    }
  }

  /** After the lookup: the answer is final, or the point facts of the next point hold. */
  lemma CheckBranches(m: map<Key, Value>, op: Op)
    ensures var pc := AfterCheck(Lookup(m, op.key), op);
            && pc.op == op && InLock(pc) && !pc.CountAfter?
            && (BeforeStore(pc) ==> !pc.Holding? && PointFacts(m, Initialises(op) || m != map[], pc))
            && (pc.Finished? ==> pc.result == Answer(Lookup(m, op.key), op) && Applied(m, op) == m)
            && Pending(pc) == 0
  {
    if op.Remove? && op.key !in m {
      assert m - {op.key} == m;
    }
  }

  // ----- sums -----

  lemma {:induction false} SumUpdate(ws: seq<int>, k: nat, j: nat, w: int)
    requires j < |ws| && k <= |ws|
    ensures SumFrom(ws[j := w], k) == SumFrom(ws, k) + if k <= j then w - ws[j] else 0
    decreases |ws| - k
  {
    if k < |ws| { SumUpdate(ws, k + 1, j, w); }
  }

  // ----- one step -----

  /** Thread `t` acted on shard `j` and on nothing else. */
  ghost predicate Local(h: HashFn, s: State, s': State, t: Tid, j: nat)
    requires |s.shards| == N_SHARDS && j < N_SHARDS
  {
    && |s'.shards| == N_SHARDS && s'.shards == s.shards[j := s'.shards[j]]
    && (forall u | u != t :: (u in s'.threads <==> u in s.threads) && (u in s.threads ==> s'.threads[u] == s.threads[u]))
    && (InLock(PcOf(s, t)) ==> Home(h, PcOf(s, t).op.key) == j)
    && (s'.log == s.log || (s'.log != [] && s'.log == s.log + [s'.log[|s'.log| - 1]] && Home(h, s'.log[|s'.log| - 1].key) == j))
  }

  lemma LogFrame(h: HashFn, s: State, s': State, t: Tid, j: nat, i: nat, m: map<Key, Value>)
    requires |s.shards| == N_SHARDS && j < N_SHARDS && Local(h, s, s', t, j) && i != j
    requires AgreeOn(h, i, Replay(s.log), m)
    ensures AgreeOn(h, i, Replay(s'.log), m)
  {
    if s'.log != s.log {
      var op := s'.log[|s'.log| - 1];
      ReplayAppend(s.log, op);
      AppliedElsewhere(h, i, Replay(s.log), m, op);
    }
  }

  lemma TicketFrame(h: HashFn, s: State, s': State, t: Tid, j: nat, n: nat)
    requires |s.shards| == N_SHARDS && j < N_SHARDS && Local(h, s, s', t, j) && n < |s.log|
    ensures n < |s'.log| && s'.log[n] == s.log[n] && AnswerAt(s'.log, n) == AnswerAt(s.log, n)
  {
    if s'.log != s.log {
      AnswerStable(s.log, s'.log[|s'.log| - 1], n);
    }
  }

  lemma WriterFrame(h: HashFn, s: State, s': State, t: Tid, j: nat, i: nat, u: Tid)
    requires |s.shards| == N_SHARDS && j < N_SHARDS && i < N_SHARDS && Local(h, s, s', t, j) && i != j
    requires WriterInv(h, s, i, u)
    ensures WriterInv(h, s', i, u)
  {
    assert u != t;
    assert u in s'.threads && s'.threads[u] == s.threads[u];
    var th := s.threads[u];
    TicketFrame(h, s, s', t, j, th.ticket);
    LogFrame(h, s, s', t, j, i, if BeforeStore(th.pc) then Applied(Items(s.shards[i]), th.pc.op) else Items(s.shards[i]));
  }

  lemma ReaderFrame(h: HashFn, s: State, s': State, t: Tid, j: nat, i: nat, u: Tid)
    requires |s.shards| == N_SHARDS && j < N_SHARDS && i < N_SHARDS && Local(h, s, s', t, j)
    requires ReaderInv(h, s, i, u) && u != t && Items(s'.shards[i]) == Items(s.shards[i])
    ensures ReaderInv(h, s', i, u)
  {
    assert u in s'.threads && s'.threads[u] == s.threads[u];
    TicketFrame(h, s, s', t, j, s.threads[u].ticket);
  }

  lemma ShardFrame(h: HashFn, s: State, s': State, t: Tid, j: nat, i: nat)
    requires |s.shards| == N_SHARDS && j < N_SHARDS && i < N_SHARDS && Local(h, s, s', t, j) && i != j
    requires ShardInv(h, s, i)
    ensures ShardInv(h, s', i) && Weight(s', i) == Weight(s, i)
  {
    var sh := s.shards[i];
    assert s'.shards[i] == sh;
    if sh.writer.Some? {
      WriterFrame(h, s, s', t, j, i, sh.writer.value);
      assert sh.writer.value != t;
    } else {
      LogFrame(h, s, s', t, j, i, Items(sh));
    }
    forall u | u in sh.readers
      ensures ReaderInv(h, s', i, u)
    {
      assert ReaderInv(h, s, i, u);
      ReaderFrame(h, s, s', t, j, i, u);
    }
  }

  lemma ThreadFrame(h: HashFn, s: State, s': State, t: Tid, j: nat, u: Tid)
    requires |s.shards| == N_SHARDS && j < N_SHARDS && Local(h, s, s', t, j) && u != t
    requires ThreadInv(h, s, u)
    requires u in s.shards[j].readers ==> u in s'.shards[j].readers
    requires s.shards[j].writer == Some(u) ==> s'.shards[j].writer == Some(u)
    ensures ThreadInv(h, s', u)
  {
    assert PcOf(s', u) == PcOf(s, u);
  }

  /** The size moves by as much as the weight of shard j. */
  ghost predicate SizeMoves(s: State, s': State, j: nat)
    requires j < |s.shards| == |s'.shards|
  {
    s'.size == Wrap32(s.size + Weight(s', j) - Weight(s, j))
  }

  lemma SizeStays(h: HashFn, s: State, s': State, j: nat)
    requires Inv(h, s) && j < |s.shards| == |s'.shards| && s'.size == s.size && Weight(s', j) == Weight(s, j)
    ensures SizeMoves(s, s', j)
  {
  }

  /** A local step keeps the invariant if it keeps it at its own shard and thread, keeps the other
      threads' locks there, and moves the size by as much as the shard's weight. */
  lemma Conclude(h: HashFn, s: State, s': State, t: Tid, j: nat)
    requires Inv(h, s) && j < N_SHARDS && Local(h, s, s', t, j)
    requires ShardInv(h, s', j) && ThreadInv(h, s', t)
    requires forall u | u != t && u in s.shards[j].readers :: u in s'.shards[j].readers
    requires s.shards[j].writer.Some? && s.shards[j].writer.value != t ==> s'.shards[j].writer == s.shards[j].writer
    requires AnswersInv(s')
    requires SizeMoves(s, s', j)
    ensures Inv(h, s')
  {
    forall i: nat | i < N_SHARDS
      ensures ShardInv(h, s', i)
      ensures i != j ==> Weight(s', i) == Weight(s, i)
    {
      if i != j { ShardFrame(h, s, s', t, j, i); }
    }
    forall u: Tid
      ensures ThreadInv(h, s', u)
    {
      if u != t {
        assert ThreadInv(h, s, u);
        ThreadFrame(h, s, s', t, j, u);
      }
    }
    SizeFollows(s, s', j);
  }

  lemma SizeFollows(s: State, s': State, j: nat)
    requires j < |s.shards| == |s'.shards|
    requires forall i: nat | i < |s.shards| && i != j :: Weight(s', i) == Weight(s, i)
    requires s.size == Wrap32(Sum(Weights(s))) && SizeMoves(s, s', j)
    ensures s'.size == Wrap32(Sum(Weights(s')))
  {
    var d := Weight(s', j) - Weight(s, j);
    assert Weights(s') == Weights(s)[j := Weight(s', j)];
    SumUpdate(Weights(s), 0, j, Weight(s', j));
    WrapAdd32(Sum(Weights(s)), d);
    assert s.size + Weight(s', j) - Weight(s, j) == Wrap32(Sum(Weights(s))) + d;
  }

  lemma CallKeepsInv(h: HashFn, s: State, t: Tid, op: Op)
    requires Inv(h, s) && Enabled(h, s, t, Call(op))
    ensures Inv(h, Do(h, s, t, Call(op)))
  {
    var s' := Do(h, s, t, Call(op));
    var j := Home(h, op.key);
    assert ShardInv(h, s, j);
    NotRegistered(h, s, t, j);
    SameShardFrame(h, s, s', t, j);
    AnswersFrame(h, s, s', t, j);
    Conclude(h, s, s', t, j);
  }

  /** The steps of Len touch no shard. */
  lemma LenKeepsInv(h: HashFn, s: State, t: Tid, step: Step)
    requires Inv(h, s) && Enabled(h, s, t, step) && (step.AskLen? || step.ReadLen? || step.ReturnLen?)
    ensures Inv(h, Do(h, s, t, step))
  {
    var s' := Do(h, s, t, step);
    assert ShardInv(h, s, 0);
    NotRegistered(h, s, t, 0);
    SameShardFrame(h, s, s', t, 0);
    AnswersFrame(h, s, s', t, 0);
    Conclude(h, s, s', t, 0);
  }

  /** A thread outside every lock is not registered with any shard. */
  lemma NotRegistered(h: HashFn, s: State, t: Tid, j: nat)
    requires Inv(h, s) && j < N_SHARDS && !InLock(PcOf(s, t))
    ensures t !in s.shards[j].readers && s.shards[j].writer != Some(t)
  {
    assert ShardInv(h, s, j);
    assert forall u | u in s.shards[j].readers :: ReaderInv(h, s, j, u);
  }

  /** A thread that counts or stores holds the write lock of its key's shard. */
  lemma HoldsWriteLock(h: HashFn, s: State, t: Tid)
    requires Inv(h, s)
    requires PcOf(s, t).CountFirst? || PcOf(s, t).CountAfter? || PcOf(s, t).Write?
    ensures !Reads(PcOf(s, t).op)
    ensures s.shards[Home(h, PcOf(s, t).op.key)].writer == Some(t)
    ensures ShardInv(h, s, Home(h, PcOf(s, t).op.key))
    ensures WriterInv(h, s, Home(h, PcOf(s, t).op.key), t)
  {
    var j := Home(h, PcOf(s, t).op.key);
    assert ShardInv(h, s, j) && ThreadInv(h, s, t);
    assert forall u | u in s.shards[j].readers :: ReaderInv(h, s, j, u);
  }

  /** If the acting thread is not registered and the shard and history are unchanged, so is the
      shard's invariant. */
  lemma SameShardFrame(h: HashFn, s: State, s': State, t: Tid, j: nat)
    requires |s.shards| == N_SHARDS && j < N_SHARDS && Local(h, s, s', t, j)
    requires s'.shards == s.shards && s'.log == s.log && ShardInv(h, s, j)
    requires t !in s.shards[j].readers && s.shards[j].writer != Some(t)
    ensures ShardInv(h, s', j) && Weight(s', j) == Weight(s, j)
  {
    var sh := s.shards[j];
    if sh.writer.Some? {
      var u := sh.writer.value;
      assert u in s'.threads && s'.threads[u] == s.threads[u];
    }
    forall u | u in sh.readers
      ensures ReaderInv(h, s', j, u)
    {
      assert ReaderInv(h, s, j, u);
      ReaderFrame(h, s, s', t, j, j, u);
    }
  }

  lemma LockKeepsInv(h: HashFn, s: State, t: Tid)
    requires Inv(h, s) && Enabled(h, s, t, Lock)
    ensures Inv(h, Do(h, s, t, Lock))
  {
    var s' := Do(h, s, t, Lock);
    var op := PcOf(s, t).op;
    var j := Home(h, op.key);
    var m := Items(s.shards[j]);
    assert ShardInv(h, s, j);
    NotRegistered(h, s, t, j);
    assert s'.log[|s'.log| - 1] == op;
    ReplayAppend(s.log, op);
    AppliedAgrees(h, j, Replay(s.log), m, op);
    if Reads(op) {
      assert ReaderInv(h, s', j, t);
      forall u | u in s'.shards[j].readers
        ensures ReaderInv(h, s', j, u)
      {
        if u != t {
          assert ReaderInv(h, s, j, u);
          ReaderFrame(h, s, s', t, j, j, u);
        }
      }
    } else {
      assert WriterInv(h, s', j, t);
    }
    AnswersFrame(h, s, s', t, j);
    Conclude(h, s, s', t, j);
  }

  lemma AnswersFrame(h: HashFn, s: State, s': State, t: Tid, j: nat)
    requires |s.shards| == N_SHARDS && j < N_SHARDS && Local(h, s, s', t, j)
    requires AnswersInv(s)
    requires |s.events| <= |s'.events| && s'.events[..|s.events|] == s.events
    requires forall i | |s.events| <= i < |s'.events| :: AnswerInv(s'.log, s'.events[i])
    ensures AnswersInv(s')
  {
    forall i | 0 <= i < |s'.events| ensures AnswerInv(s'.log, s'.events[i]) {
      if i < |s.events| {
        assert s'.events[i] == s'.events[..|s.events|][i];
        assert AnswerInv(s.log, s.events[i]);
        if s.events[i].Respond? && s.events[i].request.OnKey? {
          TicketFrame(h, s, s', t, j, s.events[i].ticket);
        }
      }
    }
  }

  lemma CheckedShard(h: HashFn, s: State, t: Tid)
    requires Inv(h, s) && Enabled(h, s, t, Check)
    ensures var s' := Do(h, s, t, Check);
            var j := Home(h, PcOf(s, t).op.key);
            ShardInv(h, s', j) && Weight(s', j) == Weight(s, j)
  {
    var s' := Do(h, s, t, Check);
    var op := PcOf(s, t).op;
    var j := Home(h, op.key);
    var m := Items(s.shards[j]);
    assert ShardInv(h, s, j) && ThreadInv(h, s, t);
    assert Items(s'.shards[j]) == m;
    CheckBranches(m, op);
    if Reads(op) {
      assert ReaderInv(h, s, j, t);
      assert ReaderInv(h, s', j, t);
      forall u | u in s'.shards[j].readers
        ensures ReaderInv(h, s', j, u)
      {
        if u != t {
          assert ReaderInv(h, s, j, u);
          ReaderFrame(h, s, s', t, j, j, u);
        }
      }
    } else {
      assert WriterInv(h, s, j, t);
      assert WriterInv(h, s', j, t);
    }
  }

  lemma CheckKeepsInv(h: HashFn, s: State, t: Tid)
    requires Inv(h, s) && Enabled(h, s, t, Check)
    ensures Inv(h, Do(h, s, t, Check))
  {
    var s' := Do(h, s, t, Check);
    var op := PcOf(s, t).op;
    var j := Home(h, op.key);
    assert ThreadInv(h, s, t);
    CheckBranches(Items(s.shards[j]), op);
    CheckedShard(h, s, t);
    SizeStays(h, s, s', j);
    AnswersFrame(h, s, s', t, j);
    Conclude(h, s, s', t, j);
  }

  /** The part of HoldsWriteLock that most steps need, kept apart because the invariants it brings
      along are costly to carry. */
  lemma IsWriter(h: HashFn, s: State, t: Tid)
    requires Inv(h, s)
    requires PcOf(s, t).CountFirst? || PcOf(s, t).CountAfter? || PcOf(s, t).Write?
    ensures !Reads(PcOf(s, t).op)
    ensures s.shards[Home(h, PcOf(s, t).op.key)].writer == Some(t)
  {
    HoldsWriteLock(h, s, t);
  }

  lemma CountAtShard(h: HashFn, s: State, t: Tid)
    requires Inv(h, s) && Enabled(h, s, t, Count)
    ensures ShardInv(h, Do(h, s, t, Count), Home(h, PcOf(s, t).op.key))
  {
    var s' := Do(h, s, t, Count);
    HoldsWriteLock(h, s, t);
    assert WriterInv(h, s', Home(h, PcOf(s, t).op.key), t);
  }

  lemma CountWeight(h: HashFn, s: State, t: Tid)
    requires Inv(h, s) && Enabled(h, s, t, Count)
    ensures var s' := Do(h, s, t, Count);
            var j := Home(h, PcOf(s, t).op.key);
            SizeMoves(s, s', j)
  {
    IsWriter(h, s, t);
    var s' := Do(h, s, t, Count);
    var j := Home(h, PcOf(s, t).op.key);
    assert Weight(s', j) - Weight(s, j) == Pending(PcOf(s', t)) - Pending(PcOf(s, t));
  }

  lemma CountKeepsInv(h: HashFn, s: State, t: Tid)
    requires Inv(h, s) && Enabled(h, s, t, Count)
    ensures Inv(h, Do(h, s, t, Count))
  {
    var s' := Do(h, s, t, Count);
    var j := Home(h, PcOf(s, t).op.key);
    CountLocal(h, s, t);
    CountAtShard(h, s, t);
    CountWeight(h, s, t);
    Conclude(h, s, s', t, j);
  }

  lemma CountLocal(h: HashFn, s: State, t: Tid)
    requires Inv(h, s) && Enabled(h, s, t, Count)
    ensures var s' := Do(h, s, t, Count);
            && Local(h, s, s', t, Home(h, PcOf(s, t).op.key)) && ThreadInv(h, s', t)
            && s'.shards == s.shards && AnswersInv(s')
  {
    IsWriter(h, s, t);
    AnswersFrame(h, s, Do(h, s, t, Count), t, Home(h, PcOf(s, t).op.key));
  }

  /** Storing applies the operation to the items of its shard and leaves its locks alone. */
  lemma StoreApplies(h: HashFn, s: State, t: Tid)
    requires Inv(h, s) && Enabled(h, s, t, Store)
    ensures var s' := Do(h, s, t, Store);
            var op := PcOf(s, t).op;
            var sh, sh' := s.shards[Home(h, op.key)], s'.shards[Home(h, op.key)];
            && sh'.items == Some(Applied(Items(sh), op)) && sh'.writer == Some(t) && sh'.readers == {}
            && s'.threads[t] == s.threads[t].(pc := AfterStore(op))
  {
    var pc := PcOf(s, t);
    var sh := s.shards[Home(h, pc.op.key)];
    HoldsWriteLock(h, s, t);
    WrittenIsApplied(Items(sh), sh.items.Some?, pc.op, pc.counted);
  }

  lemma StoreAtWriter(h: HashFn, s: State, t: Tid)
    requires Inv(h, s) && Enabled(h, s, t, Store)
    ensures WriterInv(h, Do(h, s, t, Store), Home(h, PcOf(s, t).op.key), t)
  {
    var pc := PcOf(s, t);
    var sh := s.shards[Home(h, pc.op.key)];
    HoldsWriteLock(h, s, t);
    StoreApplies(h, s, t);
    WrittenIsApplied(Items(sh), sh.items.Some?, pc.op, pc.counted);
  }

  lemma StoreAtShard(h: HashFn, s: State, t: Tid)
    requires Inv(h, s) && Enabled(h, s, t, Store)
    ensures ShardInv(h, Do(h, s, t, Store), Home(h, PcOf(s, t).op.key))
  {
    IsWriter(h, s, t);
    assert ShardInv(h, s, Home(h, PcOf(s, t).op.key));
    StoreApplies(h, s, t);
    StoreAtWriter(h, s, t);
  }

  /** Storing moves a correction into the items or out of them. */
  lemma StoreWeight(h: HashFn, s: State, t: Tid)
    requires Inv(h, s) && Enabled(h, s, t, Store)
    ensures var j := Home(h, PcOf(s, t).op.key); Weight(Do(h, s, t, Store), j) == Weight(s, j)
  {
    var pc := PcOf(s, t);
    var j := Home(h, pc.op.key);
    HoldsWriteLock(h, s, t);
    WrittenIsApplied(Items(s.shards[j]), s.shards[j].items.Some?, pc.op, pc.counted);
  }

  lemma StoreKeepsInv(h: HashFn, s: State, t: Tid)
    requires Inv(h, s) && Enabled(h, s, t, Store)
    ensures Inv(h, Do(h, s, t, Store))
  {
    var s' := Do(h, s, t, Store);
    var j := Home(h, PcOf(s, t).op.key);
    IsWriter(h, s, t);
    StoreAtShard(h, s, t);
    StoreWeight(h, s, t);
    SizeStays(h, s, s', j);
    AnswersFrame(h, s, s', t, j);
    Conclude(h, s, s', t, j);
  }

  lemma UnlockKeepsInv(h: HashFn, s: State, t: Tid)
    requires Inv(h, s) && Enabled(h, s, t, Unlock)
    ensures Inv(h, Do(h, s, t, Unlock))
  {
    var s' := Do(h, s, t, Unlock);
    var op := PcOf(s, t).op;
    var j := Home(h, op.key);
    assert ShardInv(h, s, j) && ThreadInv(h, s, t);
    if Reads(op) {
      assert ReaderInv(h, s, j, t);
      forall u | u in s'.shards[j].readers
        ensures ReaderInv(h, s', j, u)
      {
        assert ReaderInv(h, s, j, u);
        ReaderFrame(h, s, s', t, j, j, u);
      }
    } else {
      assert WriterInv(h, s, j, t);
    }
    AnswersFrame(h, s, s', t, j);
    Conclude(h, s, s', t, j);
  }

  lemma StepKeepsInv(h: HashFn, s: State, t: Tid, step: Step)
    requires Inv(h, s) && Enabled(h, s, t, step)
    ensures Inv(h, Do(h, s, t, step))
  {
    match step
    case Call(op) => CallKeepsInv(h, s, t, op);
    case Lock => LockKeepsInv(h, s, t);
    case Check => CheckKeepsInv(h, s, t);
    case Count => CountKeepsInv(h, s, t);
    case Store => StoreKeepsInv(h, s, t);
    case Unlock => UnlockKeepsInv(h, s, t);
    case _ => LenKeepsInv(h, s, t, step);
  }

  // ----- whole runs -----

  datatype Move = Move(t: Tid, step: Step)

  /** Moves of any threads in any order, each possible when it happens. */
  ghost predicate LegalRun(h: HashFn, run: seq<Move>)
    decreases |run|
  {
    run != [] ==>
      var before := run[..|run| - 1];
      var last := run[|run| - 1];
      && LegalRun(h, before)
      && |After(h, before).shards| == N_SHARDS
      && Enabled(h, After(h, before), last.t, last.step)
  }

  ghost function After(h: HashFn, run: seq<Move>): State
    decreases |run|, 0
  {
    if run == [] then Init()
    else
      var s := After(h, run[..|run| - 1]);
      var last := run[|run| - 1];
      if |s.shards| == N_SHARDS && Enabled(h, s, last.t, last.step) then Do(h, s, last.t, last.step) else s
  }

  lemma {:induction false} SumOfZeros(ws: seq<int>, k: nat)
    requires k <= |ws| && forall i | 0 <= i < |ws| :: ws[i] == 0
    ensures SumFrom(ws, k) == 0
    decreases |ws| - k
  {
    if k < |ws| { SumOfZeros(ws, k + 1); }
  }

  lemma InitShard(h: HashFn, i: nat)
    requires i < N_SHARDS
    ensures ShardInv(h, Init(), i) && Weight(Init(), i) == 0
  {
    assert Init().shards[i] == Shard(None, None, {});
  }

  lemma InitInv(h: HashFn)
    ensures Inv(h, Init())
  {
    var s := Init();
    forall i: nat | i < N_SHARDS
      ensures ShardInv(h, s, i) && Weight(s, i) == 0
    {
      InitShard(h, i);
    }
    SumOfZeros(Weights(s), 0);
    assert Wrap32(0) == 0;
  }

  /** The invariant holds after every run. */
  lemma {:induction false} EveryRunKeepsInv(h: HashFn, run: seq<Move>)
    requires LegalRun(h, run)
    ensures Inv(h, After(h, run))
    decreases |run|
  {
    if run == [] {
      InitInv(h);
    } else {
      var before := run[..|run| - 1];
      EveryRunKeepsInv(h, before);
      StepKeepsInv(h, After(h, before), run[|run| - 1].t, run[|run| - 1].step);
    }
  }

  // ----- what follows -----

  function ItemCounts(s: State): (ns: seq<int>)
    ensures |ns| == |s.shards|
    ensures forall i | 0 <= i < |ns| :: ns[i] == |Items(s.shards[i])|
  {
    seq(|s.shards|, i requires 0 <= i < |s.shards| => |Items(s.shards[i])|)
  }

  /** The correction owed by the writer of each shard. */
  function Corrections(s: State): (cs: seq<int>)
    ensures |cs| == |s.shards|
    ensures forall i | 0 <= i < |cs| :: cs[i] == if s.shards[i].writer.Some? then Pending(PcOf(s, s.shards[i].writer.value)) else 0
  {
    seq(|s.shards|, i requires 0 <= i < |s.shards| =>
      if s.shards[i].writer.Some? then Pending(PcOf(s, s.shards[i].writer.value)) else 0)
  }

  lemma {:induction false} SumOfSums(a: seq<int>, b: seq<int>, c: seq<int>, k: nat)
    requires k <= |a| == |b| == |c|
    requires forall i | 0 <= i < |a| :: c[i] == a[i] + b[i]
    ensures SumFrom(c, k) == SumFrom(a, k) + SumFrom(b, k)
    decreases |a| - k
  {
    if k < |a| { SumOfSums(a, b, c, k + 1); }
  }

  lemma SizeSplits(h: HashFn, s: State)
    requires Inv(h, s)
    ensures s.size == Wrap32(Sum(ItemCounts(s)) + Sum(Corrections(s)))
  {
    SumOfSums(ItemCounts(s), Corrections(s), Weights(s), 0);
  }

  lemma KeyAtHome(h: HashFn, s: State, i: nat, k: Key)
    requires Inv(h, s) && i < N_SHARDS && k in Items(s.shards[i])
    ensures i == Home(h, k)
  {
    assert ShardInv(h, s, i);
  }

  /** At every moment of every run, Len is the number of items in all shards plus the corrections in
      flight (wrapped to 32 bits), and every key is in the shard of its hash and in no other. */
  lemma {:induction false} LenIsItemsPlusInFlight(h: HashFn, run: seq<Move>)
    requires LegalRun(h, run)
    ensures var s := After(h, run);
            && Len(s) == Wrap32(Sum(ItemCounts(s)) + Sum(Corrections(s)))
            && |s.shards| == N_SHARDS
            && (forall i, k | 0 <= i < N_SHARDS && k in Items(s.shards[i]) :: i == Home(h, k))
  {
    EveryRunKeepsInv(h, run);
    SizeAndHomes(h, After(h, run));
  }

  lemma SizeAndHomes(h: HashFn, s: State)
    requires Inv(h, s)
    ensures Len(s) == Wrap32(Sum(ItemCounts(s)) + Sum(Corrections(s)))
    ensures forall i, k | 0 <= i < N_SHARDS && k in Items(s.shards[i]) :: i == Home(h, k)
  {
    SizeSplits(h, s);
    forall i, k | 0 <= i < N_SHARDS && k in Items(s.shards[i]) ensures i == Home(h, k) {
      KeyAtHome(h, s, i, k);
    }
  }

  /** Every response to an operation on a key is the one that operation gives when all operations run one at a
      time on a single map, in the order in which they took their locks. */
  lemma {:induction false} AnswersAreSequential(h: HashFn, run: seq<Move>, i: nat)
    requires LegalRun(h, run)
    requires i < |After(h, run).events| && After(h, run).events[i].Respond? && After(h, run).events[i].request.OnKey?
    ensures var s, e := After(h, run), After(h, run).events[i];
            e.ticket < |s.log| && s.log[e.ticket] == e.request.op && e.result == AnswerAt(s.log, e.ticket)
  {
    EveryRunKeepsInv(h, run);
    assert AnswerInv(After(h, run).log, After(h, run).events[i]);
  }

  /** A store never meets a nil map. */
  lemma {:induction false} NoStoreIntoNil(h: HashFn, run: seq<Move>, t: Tid)
    requires LegalRun(h, run)
    requires PcOf(After(h, run), t).Write?
    ensures var s := After(h, run);
            |s.shards| == N_SHARDS && s.shards[Home(h, PcOf(s, t).op.key)].items.Some?
  {
    EveryRunKeepsInv(h, run);
    HoldsWriteLock(h, After(h, run), t);
  }

  ghost function KeysFrom(h: HashFn, m: map<Key, Value>, n: nat): set<Key> {
    set k | k in m && n <= Home(h, k)
  }

  /** Shards that each hold exactly their part of a map together hold as many items as the map. */
  lemma {:induction false} PartsAddUp(h: HashFn, s: State, n: nat)
    requires n <= |s.shards| == N_SHARDS
    requires forall i: nat | i < N_SHARDS :: ShardInv(h, s, i) && s.shards[i].writer.None?
    ensures SumFrom(ItemCounts(s), n) == |KeysFrom(h, Replay(s.log), n)|
    decreases N_SHARDS - n
  {
    var m := Replay(s.log);
    if n == N_SHARDS {
      assert KeysFrom(h, m, n) == {};
    } else {
      PartsAddUp(h, s, n + 1);
      var part := Items(s.shards[n]);
      assert ShardInv(h, s, n);
      PartCount(h, m, n, part);
    }
  }

  lemma PartCount(h: HashFn, m: map<Key, Value>, n: nat, part: map<Key, Value>)
    requires AgreeOn(h, n, m, part) && AllAtHome(h, part, n)
    ensures |KeysFrom(h, m, n)| == |part| + |KeysFrom(h, m, n + 1)|
  {
    PartKeys(h, m, n, part);
    assert KeysFrom(h, m, n) == part.Keys + KeysFrom(h, m, n + 1);
    assert part.Keys !! KeysFrom(h, m, n + 1);
  }

  lemma PartKeys(h: HashFn, m: map<Key, Value>, i: nat, part: map<Key, Value>)
    requires AgreeOn(h, i, m, part) && AllAtHome(h, part, i)
    ensures forall k :: k in part <==> k in m && Home(h, k) == i
  {
    forall k: Key
      ensures k in part <==> k in m && Home(h, k) == i
    {
      assert AgreeAt(h, i, m, part, k);
    }
  }

  ghost predicate Quiet(s: State) {
    forall t: Tid :: !InLock(PcOf(s, t))
  }

  lemma QuietShards(h: HashFn, s: State)
    requires Inv(h, s) && Quiet(s)
    ensures forall i: nat | i < N_SHARDS :: s.shards[i].writer.None? && ShardInv(h, s, i)
  {
    forall i: nat | i < N_SHARDS
      ensures s.shards[i].writer.None? && ShardInv(h, s, i)
    {
      assert ShardInv(h, s, i);
      if s.shards[i].writer.Some? { NotRegistered(h, s, s.shards[i].writer.value, i); }
    }
  }

  lemma QuietCorrections(h: HashFn, s: State)
    requires Inv(h, s) && Quiet(s)
    ensures Sum(Corrections(s)) == 0
  {
    QuietShards(h, s);
    SumOfZeros(Corrections(s), 0);
  }

  lemma QuietItems(h: HashFn, s: State)
    requires Inv(h, s) && Quiet(s)
    ensures Sum(ItemCounts(s)) == |Replay(s.log)|
  {
    var m := Replay(s.log);
    QuietShards(h, s);
    PartsAddUp(h, s, 0);
    assert KeysFrom(h, m, 0) == m.Keys;
  }

  lemma QuietLookup(h: HashFn, s: State, k: Key)
    requires Inv(h, s) && Quiet(s)
    ensures Lookup(Replay(s.log), k) == Lookup(Items(s.shards[Home(h, k)]), k)
  {
    QuietShards(h, s);
    assert ShardInv(h, s, Home(h, k));
    assert AgreeAt(h, Home(h, k), Replay(s.log), Items(s.shards[Home(h, k)]), k);
  }

  lemma QuietTotal(h: HashFn, s: State)
    requires Inv(h, s) && Quiet(s)
    ensures Sum(ItemCounts(s)) + Sum(Corrections(s)) == |Replay(s.log)|
  {
    QuietCorrections(h, s);
    QuietItems(h, s);
  }

  lemma WrapFits(n: nat)
    ensures Wrap32(n) == n <==> n <= MAX_INT32
  {
  }

  lemma QuietSize(h: HashFn, s: State)
    requires Inv(h, s) && Quiet(s)
    ensures Len(s) == Wrap32(|Replay(s.log)|)
    ensures Len(s) == |Replay(s.log)| <==> |Replay(s.log)| <= MAX_INT32
  {
    SizeSplits(h, s);
    QuietTotal(h, s);
    WrapFits(|Replay(s.log)|);
  }

  /** With no thread inside a lock, every shard holds its part of the sequential map and Len is the
      number of that map's keys, exactly as long as it fits in 32 bits. */
  lemma {:induction false} QuietLenIsExact(h: HashFn, run: seq<Move>)
    requires LegalRun(h, run) && Quiet(After(h, run))
    ensures var s := After(h, run);
            var m := Replay(s.log);
            && Len(s) == Wrap32(|m|)
            && (Len(s) == |m| <==> |m| <= MAX_INT32)
            && |s.shards| == N_SHARDS
            && forall k :: Lookup(m, k) == Lookup(Items(s.shards[Home(h, k)]), k)
  {
    EveryRunKeepsInv(h, run);
    QuietSize(h, After(h, run));
    forall k: Key
      ensures Lookup(Replay(After(h, run).log), k) == Lookup(Items(After(h, run).shards[Home(h, k)]), k)
    {
      QuietLookup(h, After(h, run), k);
    }
  }
}
