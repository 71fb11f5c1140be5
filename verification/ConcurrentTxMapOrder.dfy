/** The sharded concurrent map is linearizable, the length included: the commit order explains every
    history its callers can see, and it never contradicts the order of calls that do not overlap. */
module ConcurrentTxMapOrder {
  import opened ConcurrentTxMap
  import opened ConcurrentTxMapProof
  import opened ConcurrentTxMapCommit
  import opened Wrappers

  // ----- what a linearization is -----

  /** The n-th request of the commit order is the one some call invoked. */
  ghost predicate Owned(s: State, n: nat)
    requires n < |s.commits| == |s.owners|
  {
    && s.owners[n] < |s.events|
    && s.events[s.owners[n]].Invoke? && s.events[s.owners[n]].request == s.commits[n]
  }

  /** No call has two places in the commit order. */
  ghost predicate OwnersDiffer(s: State, n: nat, m: nat)
    requires n < |s.owners| && m < |s.owners|
  {
    s.owners[n] != s.owners[m]
  }

  /** A response answers an earlier invocation by the same thread of the same request, and its place
      in the commit order belongs to that invocation. */
  ghost predicate Matched(s: State, i: nat)
    requires i < |s.events|
  {
    var e := s.events[i];
    e.Respond? ==>
      && e.invoked < i && s.events[e.invoked] == Invoke(e.thread, e.request)
      && e.place < |s.owners| && s.owners[e.place] == e.invoked
  }

  ghost predicate AnsweredApart(s: State, i: nat, j: nat)
    requires i < |s.events| && j < |s.events|
  {
    s.events[i].Respond? && s.events[j].Respond? ==> s.events[i].invoked != s.events[j].invoked
  }

  /** A call that was made after a response has its place after that response's. */
  ghost predicate RealTime(s: State, i: nat, n: nat)
    requires i < |s.events| && n < |s.owners|
  {
    s.events[i].Respond? && i < s.owners[n] ==> s.events[i].place < n
  }

  ghost predicate Orders(s: State) {
    && |s.owners| == |s.commits|
    && (forall n | 0 <= n < |s.commits| :: Owned(s, n))
    && (forall n, m | 0 <= n < m < |s.owners| :: OwnersDiffer(s, n, m))
    && (forall i | 0 <= i < |s.events| :: Matched(s, i))
    && (forall i, j | 0 <= i < j < |s.events| :: AnsweredApart(s, i, j))
    && (forall i, n | 0 <= i < |s.events| && 0 <= n < |s.owners| :: RealTime(s, i, n))
  }

  /** The commit order is a linearization of the history: it orders the calls, respects real time, and
      running it on one map gives every response. */
  ghost predicate IsLinearization(s: State) {
    Orders(s) && forall i | 0 <= i < |s.events| :: Explained(s.commits, s.events[i])
  }

  // ----- what threads know about it -----

  function RequestOf(pc: Pc): Request
    requires !pc.Idle?
  {
    if pc.Asking? || pc.Asked? then Length else OnKey(pc.op)
  }

  /** The current call of a thread: invoked, not answered, and in the commit order once committed. */
  ghost predicate CallInv(s: State, t: Tid) {
    var th := ThreadOf(s, t);
    !th.pc.Idle? ==>
      && th.invoked < |s.events| && s.events[th.invoked] == Invoke(t, RequestOf(th.pc))
      && (if Committed(th.pc) then th.place < |s.owners| && s.owners[th.place] == th.invoked
          else th.invoked !in s.owners)
  }

  ghost predicate Unanswered(s: State, t: Tid, i: nat)
    requires i < |s.events|
  {
    !PcOf(s, t).Idle? && s.events[i].Respond? ==> s.events[i].invoked != ThreadOf(s, t).invoked
  }

  ghost predicate OrderInv(s: State) {
    && Orders(s)
    && (forall t: Tid :: CallInv(s, t))
    && (forall t: Tid, i | 0 <= i < |s.events| :: Unanswered(s, t, i))
  }

  // ----- every step keeps it -----

  lemma BeginKeepsOrder(h: HashFn, s: State, t: Tid, step: Step)
    requires |s.shards| == N_SHARDS && Enabled(h, s, t, step) && OrderInv(s) && (step.Call? || step.AskLen?)
    ensures OrderInv(Do(h, s, t, step))
  {
    var s' := Do(h, s, t, step);
    forall n | 0 <= n < |s'.commits| ensures Owned(s', n) { assert Owned(s, n); }
    forall n, m | 0 <= n < m < |s'.owners| ensures OwnersDiffer(s', n, m) { assert OwnersDiffer(s, n, m); }
    forall i | 0 <= i < |s'.events| ensures Matched(s', i) {
      assert i < |s.events| ==> Matched(s, i);
    }
    forall i, j | 0 <= i < j < |s'.events| ensures AnsweredApart(s', i, j) {
      assert j < |s.events| ==> AnsweredApart(s, i, j);
    }
    forall i, n | 0 <= i < |s'.events| && 0 <= n < |s'.owners| ensures RealTime(s', i, n) {
      assert i < |s.events| ==> RealTime(s, i, n);
    }
    forall n | 0 <= n < |s.owners| ensures s.owners[n] != |s.events| { assert Owned(s, n); }
    forall u: Tid ensures CallInv(s', u) { assert CallInv(s, u); }
    forall u: Tid, i | 0 <= i < |s'.events| ensures Unanswered(s', u, i) {
      assert i < |s.events| ==> Unanswered(s, u, i) && Matched(s, i);
    }
  }

  /** Thread `t` moves on with the same call; history and commit order stay, or its request is
      committed. */
  ghost predicate Advances(s: State, s': State, t: Tid, commits: bool) {
    var th, th' := ThreadOf(s, t), ThreadOf(s', t);
    && s'.events == s.events && s'.threads == s.threads[t := th']
    && !th.pc.Idle? && !th'.pc.Idle? && RequestOf(th'.pc) == RequestOf(th.pc) && th'.invoked == th.invoked
    && (if commits
        then && !Committed(th.pc) && Committed(th'.pc) && th'.place == |s.commits|
             && s'.commits == s.commits + [RequestOf(th.pc)] && s'.owners == s.owners + [th.invoked]
        else && Committed(th'.pc) == Committed(th.pc) && th'.place == th.place
             && s'.commits == s.commits && s'.owners == s.owners)
  }

  lemma CommitKeepsOrder(s: State, s': State, t: Tid)
    requires OrderInv(s) && Advances(s, s', t, true)
    ensures OrderInv(s')
  {
    assert CallInv(s, t);
    forall n | 0 <= n < |s'.commits| ensures Owned(s', n) { assert n < |s.commits| ==> Owned(s, n); }
    forall n, m | 0 <= n < m < |s'.owners| ensures OwnersDiffer(s', n, m) {
      assert m < |s.owners| ==> OwnersDiffer(s, n, m);
      assert s.owners[n] in s.owners;
    }
    forall i | 0 <= i < |s'.events| ensures Matched(s', i) { assert Matched(s, i); }
    forall i, j | 0 <= i < j < |s'.events| ensures AnsweredApart(s', i, j) { assert AnsweredApart(s, i, j); }
    forall i, n | 0 <= i < |s'.events| && 0 <= n < |s'.owners| ensures RealTime(s', i, n) {
      assert Matched(s, i);
      assert n < |s.owners| ==> RealTime(s, i, n);
    }
    forall u: Tid ensures CallInv(s', u) { assert CallInv(s, u); }
    forall u: Tid, i | 0 <= i < |s'.events| ensures Unanswered(s', u, i) { assert Unanswered(s, u, i); }
  }

  lemma MoveKeepsOrder(s: State, s': State, t: Tid)
    requires OrderInv(s) && Advances(s, s', t, false)
    ensures OrderInv(s')
  {
    forall n | 0 <= n < |s'.commits| ensures Owned(s', n) { assert Owned(s, n); }
    forall n, m | 0 <= n < m < |s'.owners| ensures OwnersDiffer(s', n, m) { assert OwnersDiffer(s, n, m); }
    forall i | 0 <= i < |s'.events| ensures Matched(s', i) { assert Matched(s, i); }
    forall i, j | 0 <= i < j < |s'.events| ensures AnsweredApart(s', i, j) { assert AnsweredApart(s, i, j); }
    forall i, n | 0 <= i < |s'.events| && 0 <= n < |s'.owners| ensures RealTime(s', i, n) { assert RealTime(s, i, n); }
    forall u: Tid ensures CallInv(s', u) { assert CallInv(s, u); }
    forall u: Tid, i | 0 <= i < |s'.events| ensures Unanswered(s', u, i) { assert Unanswered(s, u, i); }
  }

  lemma EndKeepsOrder(h: HashFn, s: State, t: Tid, step: Step)
    requires |s.shards| == N_SHARDS && Enabled(h, s, t, step) && OrderInv(s) && (step.Unlock? || step.ReturnLen?)
    ensures OrderInv(Do(h, s, t, step))
  {
    var s' := Do(h, s, t, step);
    assert CallInv(s, t);
    forall n | 0 <= n < |s'.commits| ensures Owned(s', n) { assert Owned(s, n); }
    forall n, m | 0 <= n < m < |s'.owners| ensures OwnersDiffer(s', n, m) { assert OwnersDiffer(s, n, m); }
    forall i | 0 <= i < |s'.events| ensures Matched(s', i) { assert i < |s.events| ==> Matched(s, i); }
    forall i, j | 0 <= i < j < |s'.events| ensures AnsweredApart(s', i, j) {
      assert j < |s.events| ==> AnsweredApart(s, i, j);
      assert Unanswered(s, t, i);
    }
    forall i, n | 0 <= i < |s'.events| && 0 <= n < |s'.owners| ensures RealTime(s', i, n) {
      assert Owned(s, n);
      assert i < |s.events| ==> RealTime(s, i, n);
    }
    forall u: Tid ensures CallInv(s', u) { assert CallInv(s, u); }
    forall u: Tid, i | 0 <= i < |s'.events| ensures Unanswered(s', u, i) {
      assert CallInv(s, u);
      assert i < |s.events| ==> Unanswered(s, u, i);
    }
  }

  /** Between its invocation and its response a call commits in one step: a lookup that decides it, the
      change of the size, or the reading of the size. */
  lemma StepAdvances(h: HashFn, s: State, t: Tid, step: Step)
    requires Inv(h, s) && Enabled(h, s, t, step)
    requires step.Lock? || step.Check? || step.Count? || step.Store? || step.ReadLen?
    ensures var s' := Do(h, s, t, step);
            Advances(s, s', t, step.Count? || step.ReadLen? || (step.Check? && Committed(PcOf(s', t))))
  {
    match step
    case Check => CheckAdvances(h, s, t);
    case Count => HoldsWriteLock(h, s, t);
    case Store => HoldsWriteLock(h, s, t);
    case _ =>
  }

  lemma CheckAdvances(h: HashFn, s: State, t: Tid)
    requires Inv(h, s) && Enabled(h, s, t, Check)
    ensures var s' := Do(h, s, t, Check); Advances(s, s', t, Committed(PcOf(s', t)))
  {
    CheckBranches(Items(s.shards[Home(h, PcOf(s, t).op.key)]), PcOf(s, t).op);
  }

  lemma StepKeepsOrder(h: HashFn, s: State, t: Tid, step: Step)
    requires Inv(h, s) && Enabled(h, s, t, step) && OrderInv(s)
    ensures OrderInv(Do(h, s, t, step))
  {
    if step.Call? || step.AskLen? {
      BeginKeepsOrder(h, s, t, step);
    } else if step.Unlock? || step.ReturnLen? {
      EndKeepsOrder(h, s, t, step);
    } else {
      var s' := Do(h, s, t, step);
      StepAdvances(h, s, t, step);
      if step.Count? || step.ReadLen? || (step.Check? && Committed(PcOf(s', t))) {
        CommitKeepsOrder(s, s', t);
      } else {
        MoveKeepsOrder(s, s', t);
      }
    }
  }

  lemma {:induction false} EveryRunKeepsOrder(h: HashFn, run: seq<Move>)
    requires LegalRun(h, run)
    ensures OrderInv(After(h, run))
    decreases |run|
  {
    if run != [] {
      var before, last := run[..|run| - 1], run[|run| - 1];
      EveryRunKeepsInv(h, before);
      EveryRunKeepsOrder(h, before);
      StepKeepsOrder(h, After(h, before), last.t, last.step);
    }
  }

  /** After every run of every interleaving the commit order is a linearization of the history. */
  lemma {:induction false} EveryRunIsLinearizable(h: HashFn, run: seq<Move>)
    requires LegalRun(h, run)
    ensures IsLinearization(After(h, run))
  {
    EveryRunKeepsCommit(h, run);
    EveryRunKeepsOrder(h, run);
  }

  // ----- the lock order would not do -----

  lemma {:induction false} OneMoreMove(h: HashFn, run: seq<Move>, t: Tid, step: Step)
    requires LegalRun(h, run) && |After(h, run).shards| == N_SHARDS && Enabled(h, After(h, run), t, step)
    ensures LegalRun(h, run + [Move(t, step)]) && After(h, run + [Move(t, step)]) == Do(h, After(h, run), t, step)
  {
    assert (run + [Move(t, step)])[..|run|] == run;
  }

  /** The run so far is legal and leads to the state. */
  ghost predicate Leads(h: HashFn, run: seq<Move>, s: State) {
    LegalRun(h, run) && After(h, run) == s && |s.shards| == N_SHARDS
  }

  lemma {:induction false} Next(h: HashFn, run: seq<Move>, s: State, t: Tid, step: Step) returns (run': seq<Move>, s': State)
    requires Leads(h, run, s) && Enabled(h, s, t, step)
    ensures Leads(h, run', s') && s' == Do(h, s, t, step)
  {
    OneMoreMove(h, run, t, step);
    run', s' := run + [Move(t, step)], Do(h, s, t, step);
  }

  /** Thread 0 holds its lock and has done nothing yet; thread 1 waits for another one. */
  lemma {:induction false} TwoCalls(h: HashFn, p: Op, q: Op) returns (run: seq<Move>, s: State)
    requires p.PutIfNotExist? && q.PutIfNotExist? && Home(h, p.key) != Home(h, q.key)
    ensures Leads(h, run, s)
    ensures s.log == [p] && s.commits == [] && s.size == 0
    ensures s.events == [Invoke(0, OnKey(p)), Invoke(1, OnKey(q))]
    ensures s.shards[Home(h, q.key)] == Shard(None, None, {})
    ensures ThreadOf(s, 1) == Thread(Waiting(q), 1, 0, 0) && PcOf(s, 2) == Idle
  {
    run, s := [], Init();
    run, s := Next(h, run, s, 0, Call(p));
    run, s := Next(h, run, s, 0, Lock);
    run, s := Next(h, run, s, 1, Call(q));
  }

  /** Thread 1 runs to its end meanwhile. */
  lemma {:induction false} OneReturns(h: HashFn, p: Op, q: Op) returns (run: seq<Move>, s: State)
    requires p.PutIfNotExist? && q.PutIfNotExist? && Home(h, p.key) != Home(h, q.key)
    ensures Leads(h, run, s)
    ensures s.log == [p, q] && s.commits == [OnKey(q)] && s.size == 1 && PcOf(s, 2) == Idle
    ensures s.events == [Invoke(0, OnKey(p)), Invoke(1, OnKey(q)), Respond(1, OnKey(q), 1, 1, 0, Flag(true))]
  {
    run, s := TwoCalls(h, p, q);
    run, s := Next(h, run, s, 1, Lock);
    run, s := Next(h, run, s, 1, Check);
    assert PcOf(s, 1) == Write(q, false);
    run, s := Next(h, run, s, 1, Store);
    run, s := Next(h, run, s, 1, Count);
    run, s := Next(h, run, s, 1, Unlock);
  }

  /** Why the order is not that of the locks: an operation that holds its lock has not changed the
      size yet, and a Len called after a later one has returned does not count it. */
  lemma {:induction false} LockOrderMissesLen(h: HashFn, p: Op, q: Op) returns (run: seq<Move>)
    requires p.PutIfNotExist? && q.PutIfNotExist? && Home(h, p.key) != Home(h, q.key)
    ensures LegalRun(h, run)
    ensures var s := After(h, run);
            && s.log == [p, q] && |Replay(s.log)| == 2
            && s.events == [Invoke(0, OnKey(p)), Invoke(1, OnKey(q)), Respond(1, OnKey(q), 1, 1, 0, Flag(true)),
                            Invoke(2, Length), Respond(2, Length, 3, 0, 1, Size(1))]
  {
    var s;
    run, s := OneReturns(h, p, q);
    run, s := Next(h, run, s, 2, AskLen);
    run, s := Next(h, run, s, 2, ReadLen);
    run, s := Next(h, run, s, 2, ReturnLen);
    ReplayAppend([], p);
    assert [] + [p] == [p] && [p] + [q] == [p, q];
    ReplayAppend([p], q);
  }
}
