/** The client cache (common/clientCache.go) as a protocol: any number of threads look a key up under
    a read lock, and on a miss check it again under the write lock before asking the provider. The
    provider is unconstrained: it may fail, and it may answer differently each time it is asked. */
module ClientCache {
  import opened Wrappers

  type Key(==, !new)
  type Client(==, !new)
  type Failure(==, !new)

  type Tid = nat

  datatype Provided = Ok(client: Client) | Failed(failure: Failure)

  datatype Pc =
    | Idle
    | Start                            // before the read lock, or between two keys
    | Reading                          // the read lock is held
    | HaveRead(found: Option<Client>)  // about to release it
    | Missed                           // before the write lock
    | Writing                          // the write lock is held; the key is to be checked again
    | Calling                          // still absent: about to ask the provider
    | Storing(client: Client)          // the provider answered
    | Closing(provided: Provided, refusal: nat)  // about to release the write lock; which failure, if one

  /** A call works through its keys: one for a single lookup, every address for all clients. `since`
      is how often the provider had failed when the call was made. */
  datatype Thread = Thread(keys: seq<Key>, done: seq<Client>, since: nat, pc: Pc)

  /** An error names the position of the key it is about and which of the provider's failures it is. */
  datatype Outcome = Clients(clients: seq<Client>) | Error(failure: Failure, at: nat, refusal: nat)

  /** What a call returned, and how often the provider had failed when it was made and when it returned. */
  datatype Answer = Answer(thread: Tid, keys: seq<Key>, since: nat, until: nat, outcome: Outcome)

  datatype Creation = Creation(key: Key, client: Client)

  datatype Refusal = Refusal(thread: Tid, key: Key, failure: Failure)

  /** `created` lists the provider's successes, `refused` its failures, `answers` what calls have
      returned. */
  datatype State = State(clients: map<Key, Client>, writer: Option<Tid>, readers: set<Tid>, threads: map<Tid, Thread>,
                         created: seq<Creation>, refused: seq<Refusal>, answers: seq<Answer>)

  datatype Step = Call(keys: seq<Key>) | RLock | Read | RUnlock | Lock | Recheck
                | Provide(provided: Provided) | Store | Unlock | Return

  const INIT := State(map[], None, {}, map[], [], [], [])

  function ThreadOf(s: State, t: Tid): Thread {
    if t in s.threads then s.threads[t] else Thread([], [], 0, Idle)
  }

  function Lookup(m: map<Key, Client>, k: Key): Option<Client> {
    if k in m then Some(m[k]) else None
  }

  predicate HasKey(th: Thread) {
    |th.done| < |th.keys|
  }

  function KeyOf(th: Thread): Key
    requires HasKey(th)
  {
    th.keys[|th.done|]
  }

  predicate Enabled(s: State, t: Tid, step: Step) {
    var th := ThreadOf(s, t);
    match step
    case Call(_) => th.pc.Idle?
    case RLock => th.pc.Start? && HasKey(th) && s.writer.None?
    case Read => th.pc.Reading? && HasKey(th)
    case RUnlock => th.pc.HaveRead?
    case Lock => th.pc.Missed? && s.writer.None? && s.readers == {}
    case Recheck => th.pc.Writing? && HasKey(th)
    case Provide(_) => th.pc.Calling? && HasKey(th)
    case Store => th.pc.Storing? && HasKey(th)
    case Unlock => th.pc.Closing?
    case Return => th.pc.Start? && !HasKey(th)
  }

  function Next(s: State, t: Tid, step: Step): State
    requires Enabled(s, t, step)
  {
    var th := ThreadOf(s, t);
    match step
    case Call(keys) => With(s, t, Thread(keys, [], |s.refused|, Start))
    case RLock => With(s, t, th.(pc := Reading)).(readers := s.readers + {t})
    case Read => With(s, t, th.(pc := HaveRead(Lookup(s.clients, KeyOf(th)))))
    case RUnlock =>
      With(s, t, if th.pc.found.Some? then Advanced(th, th.pc.found.value) else th.(pc := Missed))
      .(readers := s.readers - {t})
    case Lock => With(s, t, th.(pc := Writing)).(writer := Some(t))
    case Recheck =>
      With(s, t, th.(pc := if KeyOf(th) in s.clients then Closing(Ok(s.clients[KeyOf(th)]), 0) else Calling))
    case Provide(Ok(c)) => With(s, t, th.(pc := Storing(c))).(created := s.created + [Creation(KeyOf(th), c)])
    case Provide(Failed(e)) =>
      With(s, t, th.(pc := Closing(Failed(e), |s.refused|))).(refused := s.refused + [Refusal(t, KeyOf(th), e)])
    case Store =>
      With(s, t, th.(pc := Closing(Ok(th.pc.client), 0))).(clients := s.clients[KeyOf(th) := th.pc.client])
    case Unlock =>
      (match th.pc.provided
       case Ok(c) => With(s, t, Advanced(th, c)).(writer := None)
       case Failed(e) => Answered(s, t, Error(e, |th.done|, th.pc.refusal)).(writer := None))
    case Return => Answered(s, t, Clients(th.done))
  }

  function With(s: State, t: Tid, th: Thread): State {
    s.(threads := s.threads[t := th])
  }

  function Advanced(th: Thread, c: Client): Thread {
    th.(done := th.done + [c], pc := Start)
  }

  function Answered(s: State, t: Tid, outcome: Outcome): State {
    var th := ThreadOf(s, t);
    With(s, t, th.(pc := Idle)).(answers := s.answers + [Answer(t, th.keys, th.since, |s.refused|, outcome)])
  }

  // ----- the invariant -----

  ghost predicate Cached(clients: map<Key, Client>, k: Key, c: Client) {
    k in clients && clients[k] == c
  }

  ghost predicate CachedAt(clients: map<Key, Client>, keys: seq<Key>, got: seq<Client>, i: nat)
    requires i < |got| <= |keys|
  {
    Cached(clients, keys[i], got[i])
  }

  /** The clients got so far are the cached ones of the leading keys. */
  ghost predicate AllCached(clients: map<Key, Client>, keys: seq<Key>, got: seq<Client>) {
    |got| <= |keys| && forall i :: 0 <= i < |got| ==> CachedAt(clients, keys, got, i)
  }

  predicate HoldsWrite(pc: Pc) {
    pc.Writing? || pc.Calling? || pc.Storing? || pc.Closing?
  }

  predicate HoldsRead(pc: Pc) {
    pc.Reading? || pc.HaveRead?
  }

  /** What one thread knows about the cache at its place in the code. */
  ghost predicate ThreadInv(clients: map<Key, Client>, th: Thread) {
    && AllCached(clients, th.keys, th.done)
    && (!th.pc.Idle? && !th.pc.Start? ==> HasKey(th))
    && (th.pc.HaveRead? && th.pc.found.Some? ==> Cached(clients, KeyOf(th), th.pc.found.value))
    && (th.pc.Calling? || th.pc.Storing? ==> KeyOf(th) !in clients)
    && (th.pc.Closing? && th.pc.provided.Ok? ==> Cached(clients, KeyOf(th), th.pc.provided.client))
  }

  ghost predicate LockInv(s: State, t: Tid) {
    && (HoldsWrite(ThreadOf(s, t).pc) <==> s.writer == Some(t))
    && (HoldsRead(ThreadOf(s, t).pc) <==> t in s.readers)
  }

  /** A created client is in the cache, or its creator is about to store it. */
  ghost predicate Kept(s: State, i: nat)
    requires i < |s.created|
  {
    || Cached(s.clients, s.created[i].key, s.created[i].client)
    || Pending(s, s.created[i])
  }

  ghost predicate Pending(s: State, c: Creation) {
    && s.writer.Some?
    && var th := ThreadOf(s, s.writer.value);
       th.pc == Storing(c.client) && HasKey(th) && KeyOf(th) == c.key
  }

  ghost predicate KeysDiffer(s: State, i: nat, j: nat)
    requires i < |s.created| && j < |s.created|
  {
    s.created[i].key != s.created[j].key
  }

  ghost predicate AnswerInv(clients: map<Key, Client>, a: Answer) {
    a.outcome.Clients? ==> |a.outcome.clients| == |a.keys| && AllCached(clients, a.keys, a.outcome.clients)
  }

  ghost predicate LocksInv(s: State) {
    && (forall t :: LockInv(s, t))
    && (s.writer.Some? ==> s.readers == {})
  }

  ghost predicate ThreadsInv(s: State) {
    forall t :: ThreadInv(s.clients, ThreadOf(s, t))
  }

  ghost predicate CreatedInv(s: State) {
    && (forall i :: 0 <= i < |s.created| ==> Kept(s, i))
    && (forall i, j :: 0 <= i < j < |s.created| ==> KeysDiffer(s, i, j))
    && (forall k :: k in s.clients ==> Creation(k, s.clients[k]) in s.created)
    && (forall c :: Pending(s, c) ==> c in s.created)
  }

  ghost predicate AnswersInv(s: State) {
    forall i :: 0 <= i < |s.answers| ==> AnswerInv(s.clients, s.answers[i])
  }

  /** The provider's i-th failure is this one, and it is among those numbered from..to. */
  ghost predicate Refused(s: State, from: nat, to: nat, i: nat, r: Refusal) {
    from <= i < to <= |s.refused| && s.refused[i] == r
  }

  /** A call about to fail was refused for its current key. */
  ghost predicate FailingInv(s: State, t: Tid) {
    var th := ThreadOf(s, t);
    && th.since <= |s.refused|
    && (th.pc.Closing? && th.pc.provided.Failed? ==>
          && HasKey(th)
          && Refused(s, th.since, |s.refused|, th.pc.refusal, Refusal(t, KeyOf(th), th.pc.provided.failure)))
  }

  /** An error answer is a failure that the provider gave, during that call, for the key it is about. */
  ghost predicate ErrorInv(s: State, a: Answer) {
    a.outcome.Error? ==>
      && a.outcome.at < |a.keys|
      && Refused(s, a.since, a.until, a.outcome.refusal, Refusal(a.thread, a.keys[a.outcome.at], a.outcome.failure))
  }

  ghost predicate ErrorsInv(s: State) {
    && (forall t: Tid :: FailingInv(s, t))
    && (forall i :: 0 <= i < |s.answers| ==> ErrorInv(s, s.answers[i]))
  }

  ghost predicate Inv(s: State) {
    LocksInv(s) && ThreadsInv(s) && CreatedInv(s) && AnswersInv(s) && ErrorsInv(s)
  }

  // ----- every step keeps it -----

  lemma LocksKept(s: State, t: Tid, step: Step)
    requires Inv(s) && Enabled(s, t, step)
    ensures LocksInv(Next(s, t, step))
  {
    var n := Next(s, t, step);
    forall u ensures LockInv(n, u) {
      assert LockInv(s, u) && LockInv(s, t);
      assert ThreadInv(s.clients, ThreadOf(s, t));
    }
    if n.writer.Some? {
      assert LockInv(s, t);
    }
  }

  /** The cache only grows, and only at a key that had no client. */
  lemma StepGrows(s: State, t: Tid, step: Step)
    requires Inv(s) && Enabled(s, t, step)
    ensures Grows(s.clients, Next(s, t, step).clients)
  {
    assert ThreadInv(s.clients, ThreadOf(s, t));
  }

  ghost predicate Grows(before: map<Key, Client>, after: map<Key, Client>) {
    forall k :: k in before ==> k in after && before[k] == after[k]
  }

  lemma CachedLater(before: map<Key, Client>, after: map<Key, Client>, keys: seq<Key>, got: seq<Client>)
    requires Grows(before, after) && AllCached(before, keys, got)
    ensures AllCached(after, keys, got)
  {
    forall i | 0 <= i < |got| ensures CachedAt(after, keys, got, i) {
      assert CachedAt(before, keys, got, i);
    }
  }

  lemma AdvancedCached(clients: map<Key, Client>, th: Thread, c: Client)
    requires AllCached(clients, th.keys, th.done) && HasKey(th) && Cached(clients, KeyOf(th), c)
    ensures AllCached(clients, th.keys, th.done + [c])
  {
    forall i | 0 <= i < |th.done| + 1 ensures CachedAt(clients, th.keys, th.done + [c], i) {
      assert i < |th.done| ==> CachedAt(clients, th.keys, th.done, i);
    }
  }

  lemma ThreadsKept(s: State, t: Tid, step: Step)
    requires Inv(s) && Enabled(s, t, step)
    ensures ThreadsInv(Next(s, t, step))
  {
    var n := Next(s, t, step);
    forall u ensures ThreadInv(n.clients, ThreadOf(n, u)) {
      assert ThreadInv(s.clients, ThreadOf(s, u));
      if u == t {
        MoverKept(s, t, step);
      } else {
        StepGrows(s, t, step);
        CachedLater(s.clients, n.clients, ThreadOf(s, u).keys, ThreadOf(s, u).done);
        assert LockInv(s, u) && LockInv(s, t);
      }
    }
  }

  lemma MoverKept(s: State, t: Tid, step: Step)
    requires Inv(s) && Enabled(s, t, step)
    ensures ThreadInv(Next(s, t, step).clients, ThreadOf(Next(s, t, step), t))
  {
    var n, th := Next(s, t, step), ThreadOf(s, t);
    assert ThreadInv(s.clients, th);
    StepGrows(s, t, step);
    CachedLater(s.clients, n.clients, th.keys, th.done);
    if step.RUnlock? && th.pc.found.Some? {
      AdvancedCached(s.clients, th, th.pc.found.value);
    } else if step.Unlock? && th.pc.provided.Ok? {
      AdvancedCached(s.clients, th, th.pc.provided.client);
    }
  }

  lemma AnswersKept(s: State, t: Tid, step: Step)
    requires Inv(s) && Enabled(s, t, step)
    ensures AnswersInv(Next(s, t, step))
  {
    var n := Next(s, t, step);
    StepGrows(s, t, step);
    assert ThreadInv(s.clients, ThreadOf(s, t));
    forall i | 0 <= i < |n.answers| ensures AnswerInv(n.clients, n.answers[i]) {
      if i < |s.answers| {
        assert AnswerInv(s.clients, s.answers[i]) && n.answers[i] == s.answers[i];
        if s.answers[i].outcome.Clients? {
          CachedLater(s.clients, n.clients, s.answers[i].keys, s.answers[i].outcome.clients);
        }
      }
    }
  }

  lemma CreatedKept(s: State, t: Tid, step: Step)
    requires Inv(s) && Enabled(s, t, step)
    ensures CreatedInv(Next(s, t, step))
  {
    assert ThreadInv(s.clients, ThreadOf(s, t)) && LockInv(s, t);
    match step
    case Provide(Ok(c)) => ProvideKeepsCreated(s, t, c);
    case Store => StoreKeepsCreated(s, t);
    case _ => OthersKeepCreated(s, t, step);
  }

  /** The provider is asked only when no creation is pending, so its key is new. */
  lemma ProvideKeepsCreated(s: State, t: Tid, c: Client)
    requires Inv(s) && Enabled(s, t, Provide(Ok(c)))
    ensures CreatedInv(Next(s, t, Provide(Ok(c))))
  {
    var n := Next(s, t, Provide(Ok(c)));
    var th := ThreadOf(s, t);
    assert ThreadInv(s.clients, th) && LockInv(s, t);
    var made := Creation(KeyOf(th), c);
    assert n.created == s.created + [made] && Pending(n, made);
    forall i | 0 <= i < |n.created| ensures Kept(n, i) {
      assert i < |s.created| ==> Kept(s, i);
    }
    forall i, j | 0 <= i < j < |n.created| ensures KeysDiffer(n, i, j) {
      assert Kept(s, i);
      assert j < |s.created| ==> KeysDiffer(s, i, j);
    }
  }

  lemma StoreKeepsCreated(s: State, t: Tid)
    requires Inv(s) && Enabled(s, t, Store)
    ensures CreatedInv(Next(s, t, Store))
  {
    var n := Next(s, t, Store);
    var th := ThreadOf(s, t);
    assert ThreadInv(s.clients, th) && LockInv(s, t);
    assert Pending(s, Creation(KeyOf(th), th.pc.client));
    forall i | 0 <= i < |n.created| ensures Kept(n, i) {
      assert Kept(s, i);
    }
    forall i, j | 0 <= i < j < |n.created| ensures KeysDiffer(n, i, j) {
      assert KeysDiffer(s, i, j);
    }
  }

  /** Any other step leaves the cache, the creations and the pending creation as they are. */
  lemma OthersKeepCreated(s: State, t: Tid, step: Step)
    requires Inv(s) && Enabled(s, t, step)
    requires !step.Store? && !(step.Provide? && step.provided.Ok?)
    ensures CreatedInv(Next(s, t, step))
  {
    var n := Next(s, t, step);
    assert n.clients == s.clients && n.created == s.created;
    forall c ensures Pending(n, c) == Pending(s, c) {
      assert LockInv(s, t);
      assert ThreadInv(s.clients, ThreadOf(s, t));
    }
    forall i | 0 <= i < |n.created| ensures Kept(n, i) {
      assert Kept(s, i);
    }
    forall i, j | 0 <= i < j < |n.created| ensures KeysDiffer(n, i, j) {
      assert KeysDiffer(s, i, j);
    }
  }

  lemma FailingKept(s: State, t: Tid, step: Step, u: Tid)
    requires FailingInv(s, t) && FailingInv(s, u) && Enabled(s, t, step)
    ensures FailingInv(Next(s, t, step), u)
  {
    assert u != t ==> ThreadOf(Next(s, t, step), u) == ThreadOf(s, u);
  }

  lemma ErrorKept(s: State, t: Tid, step: Step, i: nat)
    requires ErrorsInv(s) && Enabled(s, t, step) && i < |Next(s, t, step).answers|
    ensures ErrorInv(Next(s, t, step), Next(s, t, step).answers[i])
  {
    assert FailingInv(s, t);
    assert i < |s.answers| ==> ErrorInv(s, s.answers[i]) && Next(s, t, step).answers[i] == s.answers[i];
  }

  lemma ErrorsKept(s: State, t: Tid, step: Step)
    requires ErrorsInv(s) && Enabled(s, t, step)
    ensures ErrorsInv(Next(s, t, step))
  {
    forall u: Tid ensures FailingInv(Next(s, t, step), u) {
      FailingKept(s, t, step, u);
    }
    forall i | 0 <= i < |Next(s, t, step).answers| ensures ErrorInv(Next(s, t, step), Next(s, t, step).answers[i]) {
      ErrorKept(s, t, step, i);
    }
  }

  lemma StepKeepsInv(s: State, t: Tid, step: Step)
    requires Inv(s) && Enabled(s, t, step)
    ensures Inv(Next(s, t, step))
  {
    LocksKept(s, t, step);
    ThreadsKept(s, t, step);
    CreatedKept(s, t, step);
    AnswersKept(s, t, step);
    ErrorsKept(s, t, step);
  }

  // ----- every run -----

  datatype Move = Move(thread: Tid, step: Step)

  /** The moves can be made one after another from `s`. */
  ghost predicate IsRun(s: State, moves: seq<Move>, n: nat)
    requires n <= |moves|
    decreases n, 0
  {
    n == 0 || (IsRun(s, moves, n - 1) && Enabled(After(s, moves, n - 1), moves[n - 1].thread, moves[n - 1].step))
  }

  ghost function After(s: State, moves: seq<Move>, n: nat): State
    requires n <= |moves| && IsRun(s, moves, n)
    decreases n, 1
  {
    if n == 0 then s else Next(After(s, moves, n - 1), moves[n - 1].thread, moves[n - 1].step)
  }

  /** From any good state, every run stays good and never replaces or drops a cached client. */
  lemma {:induction false} EveryRunKeepsInv(s: State, moves: seq<Move>, n: nat)
    requires Inv(s) && n <= |moves| && IsRun(s, moves, n)
    ensures Inv(After(s, moves, n)) && Grows(s.clients, After(s, moves, n).clients)
    decreases n
  {
    if n > 0 {
      EveryRunKeepsInv(s, moves, n - 1);
      StepGrows(After(s, moves, n - 1), moves[n - 1].thread, moves[n - 1].step);
      StepKeepsInv(After(s, moves, n - 1), moves[n - 1].thread, moves[n - 1].step);
    }
  }

  lemma Reached(moves: seq<Move>)
    requires IsRun(INIT, moves, |moves|)
    ensures Inv(After(INIT, moves, |moves|))
  {
    EveryRunKeepsInv(INIT, moves, |moves|);
  }

  /** In every run the provider succeeds at most once for each key. */
  lemma ProvidedOnce(moves: seq<Move>, i: nat, j: nat)
    requires IsRun(INIT, moves, |moves|)
    requires var s := After(INIT, moves, |moves|); i < |s.created| && j < |s.created| && s.created[i].key == s.created[j].key
    ensures i == j
  {
    Reached(moves);
    var s := After(INIT, moves, |moves|);
    assert i < j ==> KeysDiffer(s, i, j);
    assert j < i ==> KeysDiffer(s, j, i);
  }

  /** In every run any two successful answers agree wherever they are about the same key, and the
      client they give is the one the provider made for it. */
  lemma AnswersAgree(moves: seq<Move>, a: nat, b: nat, i: nat, j: nat)
    requires IsRun(INIT, moves, |moves|)
    requires var s := After(INIT, moves, |moves|);
             && a < |s.answers| && s.answers[a].outcome.Clients? && i < |s.answers[a].keys|
             && b < |s.answers| && s.answers[b].outcome.Clients? && j < |s.answers[b].keys|
             && s.answers[a].keys[i] == s.answers[b].keys[j]
    ensures var x, y := After(INIT, moves, |moves|).answers[a], After(INIT, moves, |moves|).answers[b];
            && |x.outcome.clients| == |x.keys| && |y.outcome.clients| == |y.keys|
            && x.outcome.clients[i] == y.outcome.clients[j]
            && Creation(x.keys[i], x.outcome.clients[i]) in After(INIT, moves, |moves|).created
  {
    Reached(moves);
    var s := After(INIT, moves, |moves|);
    assert AnswerInv(s.clients, s.answers[a]) && AnswerInv(s.clients, s.answers[b]);
    assert CachedAt(s.clients, s.answers[a].keys, s.answers[a].outcome.clients, i);
    assert CachedAt(s.clients, s.answers[b].keys, s.answers[b].outcome.clients, j);
  }

  /** In every run an error a call returns is a failure that the provider gave, while that call ran, to
      that thread for one of the call's keys. */
  lemma ErrorsComeFromProvider(moves: seq<Move>, i: nat)
    requires IsRun(INIT, moves, |moves|)
    requires i < |After(INIT, moves, |moves|).answers| && After(INIT, moves, |moves|).answers[i].outcome.Error?
    ensures var s, a := After(INIT, moves, |moves|), After(INIT, moves, |moves|).answers[i];
            && a.outcome.at < |a.keys| && a.since <= a.outcome.refusal < a.until <= |s.refused|
            && s.refused[a.outcome.refusal] == Refusal(a.thread, a.keys[a.outcome.at], a.outcome.failure)
  {
    Reached(moves);
    assert ErrorInv(After(INIT, moves, |moves|), After(INIT, moves, |moves|).answers[i]);
  }

  // ----- no failure is swallowed -----

  /** The answer reports the provider's i-th failure. */
  ghost predicate Reports(a: Answer, r: Refusal, i: nat) {
    a.thread == r.thread && a.outcome.Error? && a.outcome.failure == r.failure && a.outcome.refusal == i
  }

  /** The call that met the provider's i-th failure has returned it, or has nothing else left to do. */
  ghost predicate Reported(s: State, i: nat)
    requires i < |s.refused|
  {
    || ThreadOf(s, s.refused[i].thread).pc == Closing(Failed(s.refused[i].failure), i)
    || exists a: nat | a < |s.answers| :: Reports(s.answers[a], s.refused[i], i)
  }

  lemma StepReports(s: State, t: Tid, step: Step, i: nat)
    requires Enabled(s, t, step) && i < |Next(s, t, step).refused|
    requires i < |s.refused| ==> Reported(s, i)
    ensures Reported(Next(s, t, step), i)
  {
    var n := Next(s, t, step);
    if i < |s.refused| {
      var r := s.refused[i];
      if ThreadOf(s, r.thread).pc == Closing(Failed(r.failure), i) {
        assert r.thread == t ==> Reports(n.answers[|s.answers|], r, i);
      } else {
        var a: nat :| a < |s.answers| && Reports(s.answers[a], r, i);
        assert Reports(n.answers[a], n.refused[i], i);
      }
    }
  }

  /** In every run each failure of the provider is returned by the call that met it, unless that call is
      just about to return it. */
  lemma {:induction false} FailuresAreReported(moves: seq<Move>, n: nat, i: nat)
    requires n <= |moves| && IsRun(INIT, moves, n) && i < |After(INIT, moves, n).refused|
    ensures Reported(After(INIT, moves, n), i)
    decreases n
  {
    if n > 0 {
      var before := After(INIT, moves, n - 1);
      if i < |before.refused| {
        FailuresAreReported(moves, n - 1, i);
      }
      StepReports(before, moves[n - 1].thread, moves[n - 1].step, i);
    }
  }

  /** While a thread is about to write the map, no other thread reads or writes it. */
  lemma WriteIsExclusive(moves: seq<Move>, t: Tid, u: Tid)
    requires IsRun(INIT, moves, |moves|) && t != u
    requires ThreadOf(After(INIT, moves, |moves|), t).pc.Storing?
    ensures var pc := ThreadOf(After(INIT, moves, |moves|), u).pc; !HoldsRead(pc) && !HoldsWrite(pc)
  {
    Reached(moves);
    var s := After(INIT, moves, |moves|);
    assert LockInv(s, t) && LockInv(s, u);
  }
}
