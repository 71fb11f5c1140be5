/** The sharded concurrent map (common/collection/concurrent_tx_map.go) as a protocol: any number of
    threads, 32 shards each behind its own lock, and an atomic size that is adjusted on its own. Each
    operation is the sequence of its steps, and steps of different threads interleave freely. */
module ConcurrentTxMap {
  import opened GoInt
  import opened Wrappers

  type Key(==, !new)
  type Value(==, !new)
  type Failure(==, !new)

  type Tid = nat

  const N_SHARDS: nat := 32

  type HashFn = Key -> nat

  function Home(h: HashFn, k: Key): (i: nat)
    ensures i < N_SHARDS == 32
  {
    h(k) % N_SHARDS
  }

  // ----- the operations and their meaning on one map -----

  datatype Op =
    | Get(key: Key)
    | Put(key: Key, value: Value)
    | PutIfNotExist(key: Key, value: Value)
    | Remove(key: Key)
    | GetAndDo(key: Key, fn: (Key, Value) -> Option<Failure>)
    | PutOrDo(key: Key, value: Value, fn: (Key, Value) -> Option<Failure>)
    | RemoveIf(key: Key, pred: (Key, Value) -> bool)

  datatype Result =
    | Unit
    | Found(value: Option<Value>)
    | Flag(flag: bool)
    | Did(value: Option<Value>, done: bool, failure: Option<Failure>)
    | Size(n: int)

  /** What a caller asks for: an operation on a key, or the length. */
  datatype Request = OnKey(op: Op) | Length

  function Lookup(m: map<Key, Value>, k: Key): Option<Value> {
    if k in m then Some(m[k]) else None
  }

  /** The map after an operation run alone. */
  function Applied(m: map<Key, Value>, op: Op): map<Key, Value> {
    match op
    case Get(_) => m
    case Put(k, v) => m[k := v]
    case PutIfNotExist(k, v) => if k in m then m else m[k := v]
    case Remove(k) => m - {k}
    case GetAndDo(_, _) => m
    case PutOrDo(k, v, _) => if k in m then m else m[k := v]
    case RemoveIf(k, pred) => if k in m && pred(k, m[k]) then m - {k} else m
  }

  /** The answer of an operation that finds `found` under its key. */
  function Answer(found: Option<Value>, op: Op): Result {
    match op
    case Get(_) => Found(found)
    case Put(_, _) => Unit
    case PutIfNotExist(_, _) => Flag(found.None?)
    case Remove(_) => Unit
    case GetAndDo(k, fn) => Did(found, found.Some?, if found.Some? then fn(k, found.value) else None)
    case PutOrDo(k, v, fn) =>
      if found.Some? then Did(found, true, fn(k, found.value)) else Did(Some(v), false, None)
    case RemoveIf(k, pred) => Flag(found.Some? && pred(k, found.value))
  }

  /** The single map obtained by applying the operations one after another. */
  function Replay(log: seq<Op>): map<Key, Value> {
    if log == [] then map[] else Applied(Replay(log[..|log| - 1]), log[|log| - 1])
  }

  /** What the n-th operation of the log answers in that sequential execution. */
  function AnswerAt(log: seq<Op>, n: nat): Result
    requires n < |log|
  {
    Answer(Lookup(Replay(log[..n]), log[n].key), log[n])
  }

  // ----- states and steps -----

  datatype Pc =
    | Idle
    | Waiting(op: Op)                            // called; the lock is not held yet
    | Holding(op: Op)                            // the lock is held; the key has not been looked up
    | CountFirst(op: Op)                         // Put of an absent key: count, then store
    | Write(op: Op, counted: bool)               // about to store or delete
    | CountAfter(op: Op, delta: int, result: Result)  // stored or deleted; the size is still to follow
    | Finished(op: Op, result: Result)           // about to unlock and return
    | Asking                                     // Len is called; the size is not read yet
    | Asked(n: int)                              // the size is read; about to return it

  /** The threads whose request has taken effect. It does so at the atomic change of the size, at the
      lookup when the size will not change, and for the length when the size is read. A Put that has
      nothing left but to store has taken effect; the others store before they count. */
  predicate Committed(pc: Pc) {
    pc.Finished? || pc.Asked? || (pc.Write? && pc.op.Put?)
  }

  /** A thread, where in the history its current call was made, and the places of that call in the
      lock order and in the commit order. */
  datatype Thread = Thread(pc: Pc, invoked: nat, ticket: nat, place: nat)

  /** A shard's items are nil until the first operation that needs them. */
  datatype Shard = Shard(items: Option<map<Key, Value>>, writer: Option<Tid>, readers: set<Tid>)

  /** The history as callers see it. A response names its caller, the request, the place of the
      invocation it answers, and its places in the lock order (for an operation on a key) and in the
      commit order. */
  datatype Event =
    | Invoke(thread: Tid, request: Request)
    | Respond(thread: Tid, request: Request, invoked: nat, ticket: nat, place: nat, result: Result)

  /** `log` lists the operations in the order in which they took their locks, `commits` the requests
      in the order in which they took effect, `owners` the places of the latter's invocations in the
      history `events`. */
  datatype State = State(shards: seq<Shard>, size: int, threads: map<Tid, Thread>,
                         log: seq<Op>, commits: seq<Request>, owners: seq<nat>, events: seq<Event>)

  function Items(sh: Shard): map<Key, Value> {
    if sh.items.Some? then sh.items.value else map[]
  }

  function PcOf(s: State, t: Tid): Pc {
    if t in s.threads then s.threads[t].pc else Idle
  }

  function ThreadOf(s: State, t: Tid): Thread {
    if t in s.threads then s.threads[t] else Thread(Idle, 0, 0, 0)
  }

  datatype Step = Call(op: Op) | Lock | Check | Count | Store | Unlock | AskLen | ReadLen | ReturnLen

  /** Only Get takes the lock for reading. */
  predicate Reads(op: Op) {
    op.Get?
  }

  predicate Enabled(h: HashFn, s: State, t: Tid, step: Step)
    requires |s.shards| == N_SHARDS
  {
    var pc := PcOf(s, t);
    match step
    case Call(_) => pc.Idle?
    case Lock =>
      pc.Waiting? &&
      var sh := s.shards[Home(h, pc.op.key)];
      sh.writer.None? && (Reads(pc.op) || sh.readers == {})
    case Check => pc.Holding?
    case Count => pc.CountFirst? || pc.CountAfter?
    case Store => pc.Write?
    case Unlock => pc.Finished?
    case AskLen => pc.Idle?
    case ReadLen => pc.Asking?
    case ReturnLen => pc.Asked?
  }

  function SetPc(s: State, t: Tid, pc: Pc): State {
    s.(threads := s.threads[t := ThreadOf(s, t).(pc := pc)])
  }

  /** The thread's request takes its place in the commit order. */
  function Commit(s: State, t: Tid, request: Request): State {
    s.(threads := s.threads[t := ThreadOf(s, t).(place := |s.commits|)],
       commits := s.commits + [request], owners := s.owners + [ThreadOf(s, t).invoked])
  }

  /** The thread's call enters the history. */
  function Begin(s: State, t: Tid, pc: Pc, request: Request): State {
    s.(threads := s.threads[t := Thread(pc, |s.events|, 0, 0)], events := s.events + [Invoke(t, request)])
  }

  /** The thread returns. */
  function End(s: State, t: Tid, request: Request, result: Result): State {
    var th := ThreadOf(s, t);
    SetPc(s, t, Idle).(events := s.events + [Respond(t, request, th.invoked, th.ticket, th.place, result)])
  }

  /** Where the lookup under the lock leads: the branches of the operations. */
  function AfterCheck(found: Option<Value>, op: Op): Pc {
    match op
    case Get(_) => Finished(op, Found(found))
    case Put(_, _) => if found.None? then CountFirst(op) else Write(op, false)
    case PutIfNotExist(_, _) => if found.None? then Write(op, false) else Finished(op, Flag(false))
    case Remove(_) => if found.Some? then Write(op, false) else Finished(op, Unit)
    case GetAndDo(k, fn) =>
      Finished(op, if found.Some? then Did(found, true, fn(k, found.value)) else Did(None, false, None))
    case PutOrDo(k, _, fn) =>
      if found.None? then Write(op, false) else Finished(op, Did(found, true, fn(k, found.value)))
    case RemoveIf(k, pred) =>
      if found.Some? && pred(k, found.value) then Write(op, false) else Finished(op, Flag(false))
  }

  /** Operations that may store call lazyInitShard before looking the key up, and so does Remove. */
  predicate Initialises(op: Op) {
    op.Put? || op.PutIfNotExist? || op.Remove? || op.PutOrDo?
  }

  /** After the store: Put is done, the others still have to count. */
  function AfterStore(op: Op): Pc {
    match op
    case Put(_, _) => Finished(op, Unit)
    case PutIfNotExist(_, _) => CountAfter(op, 1, Flag(true))
    case PutOrDo(_, v, _) => CountAfter(op, 1, Did(Some(v), false, None))
    case Remove(_) => CountAfter(op, -1, Unit)
    case RemoveIf(_, _) => CountAfter(op, -1, Flag(true))
    case _ => Finished(op, Unit)  // Get and GetAndDo never store
  }

  function Written(m: map<Key, Value>, op: Op): map<Key, Value> {
    match op
    case Put(k, v) => m[k := v]
    case PutIfNotExist(k, v) => m[k := v]
    case PutOrDo(k, v, _) => m[k := v]
    case Remove(k) => m - {k}
    case RemoveIf(k, _) => m - {k}
    case _ => m
  }

  function Do(h: HashFn, s: State, t: Tid, step: Step): State
    requires |s.shards| == N_SHARDS && Enabled(h, s, t, step)
  {
    var pc := PcOf(s, t);
    match step
    case Call(op) => Begin(s, t, Waiting(op), OnKey(op))
    case Lock =>
      var j := Home(h, pc.op.key);
      var sh := s.shards[j];
      var sh' := if Reads(pc.op) then sh.(readers := sh.readers + {t}) else sh.(writer := Some(t));
      s.(shards := s.shards[j := sh'],
         threads := s.threads[t := ThreadOf(s, t).(pc := Holding(pc.op), ticket := |s.log|)],
         log := s.log + [pc.op])
    case Check =>
      var j := Home(h, pc.op.key);
      var sh := s.shards[j];
      var sh' := if Initialises(pc.op) then sh.(items := Some(Items(sh))) else sh;
      var pc' := AfterCheck(Lookup(Items(sh), pc.op.key), pc.op);
      var s' := SetPc(s, t, pc').(shards := s.shards[j := sh']);
      if Committed(pc') then Commit(s', t, OnKey(pc.op)) else s'
    case Count =>
      Commit(if pc.CountFirst? then SetPc(s, t, Write(pc.op, true)).(size := Wrap32(s.size + 1))
             else SetPc(s, t, Finished(pc.op, pc.result)).(size := Wrap32(s.size + pc.delta)),
             t, OnKey(pc.op))
    case Store =>
      var j := Home(h, pc.op.key);
      var sh := s.shards[j];
      SetPc(s, t, AfterStore(pc.op)).(shards := s.shards[j := sh.(items := Some(Written(Items(sh), pc.op)))])
    case Unlock =>
      var j := Home(h, pc.op.key);
      var sh := s.shards[j];
      var sh' := if Reads(pc.op) then sh.(readers := sh.readers - {t}) else sh.(writer := None);
      End(s, t, OnKey(pc.op), pc.result).(shards := s.shards[j := sh'])
    case AskLen => Begin(s, t, Asking, Length)
    case ReadLen => Commit(SetPc(s, t, Asked(s.size)), t, Length)
    case ReturnLen => End(s, t, Length, Size(pc.n))
  }

  /** What Len returns at any moment. */
  function Len(s: State): int {
    s.size
  }

  function Init(): State {
    State(seq(N_SHARDS, _ => Shard(None, None, {})), 0, map[], [], [], [], [])
  }

  // ----- the invariant -----

  /** Two maps agree on the keys of one shard. */
  ghost predicate AgreeOn(h: HashFn, i: nat, a: map<Key, Value>, b: map<Key, Value>) {
    forall k: Key :: AgreeAt(h, i, a, b, k)
  }

  ghost predicate AgreeAt(h: HashFn, i: nat, a: map<Key, Value>, b: map<Key, Value>, k: Key) {
    Home(h, k) == i ==> Lookup(a, k) == Lookup(b, k)
  }

  predicate InLock(pc: Pc) {
    pc.Holding? || pc.CountFirst? || pc.Write? || pc.CountAfter? || pc.Finished?
  }

  /** How far the size is ahead of the items because of a thread at this point. */
  function Pending(pc: Pc): int {
    match pc
    case Write(op, counted) => if counted then 1 else 0
    case CountAfter(_, delta, _) => -delta
    case _ => 0
  }

  /** Facts each program point knows about the key it works on. */
  ghost predicate PointFacts(m: map<Key, Value>, initialised: bool, pc: Pc) {
    match pc
    case CountFirst(op) => op.Put? && op.key !in m && initialised
    case Write(op, counted) =>
      && (op.Put? ==> initialised && (counted <==> op.key !in m))
      && (!op.Put? ==> !counted)
      && (op.PutIfNotExist? || op.PutOrDo? ==> initialised && op.key !in m)
      && (op.Remove? ==> op.key in m)
      && (op.RemoveIf? ==> op.key in m && op.pred(op.key, m[op.key]))
      && !op.Get? && !op.GetAndDo?
    case _ => true
  }

  predicate BeforeStore(pc: Pc) {
    pc.Holding? || pc.CountFirst? || pc.Write?
  }

  /** A thread inside a write lock: until it stores, the shared history is one operation ahead of the
      shard; afterwards they agree and the answer is the sequential one. */
  ghost predicate WriterInv(h: HashFn, s: State, i: nat, t: Tid)
    requires i < |s.shards|
  {
    var m := Items(s.shards[i]);
    && t in s.threads
    && var th := s.threads[t];
       && InLock(th.pc) && !Reads(th.pc.op) && Home(h, th.pc.op.key) == i
       && th.ticket < |s.log| && s.log[th.ticket] == th.pc.op
       && PointFacts(m, s.shards[i].items.Some?, th.pc)
       && (if BeforeStore(th.pc)
           then && AgreeOn(h, i, Replay(s.log), Applied(m, th.pc.op))
                && AnswerAt(s.log, th.ticket) == Answer(Lookup(m, th.pc.op.key), th.pc.op)
           else && AgreeOn(h, i, Replay(s.log), m)
                && AnswerAt(s.log, th.ticket) == th.pc.result)
  }

  ghost predicate ReaderInv(h: HashFn, s: State, i: nat, t: Tid)
    requires i < |s.shards|
  {
    && t in s.threads
    && var th := s.threads[t];
       && InLock(th.pc) && Reads(th.pc.op) && Home(h, th.pc.op.key) == i
       && th.ticket < |s.log| && s.log[th.ticket] == th.pc.op
       && AnswerAt(s.log, th.ticket) == Found(Lookup(Items(s.shards[i]), th.pc.op.key))
       && (th.pc.Holding? || (th.pc.Finished? && th.pc.result == AnswerAt(s.log, th.ticket)))
  }

  ghost predicate AllAtHome(h: HashFn, m: map<Key, Value>, i: nat) {
    forall k | k in m :: Home(h, k) == i
  }

  ghost predicate ShardInv(h: HashFn, s: State, i: nat)
    requires i < |s.shards|
  {
    var sh := s.shards[i];
    && AllAtHome(h, Items(sh), i)
    && (sh.writer.Some? ==> sh.readers == {} && WriterInv(h, s, i, sh.writer.value))
    && (sh.writer.None? ==> AgreeOn(h, i, Replay(s.log), Items(sh)))
    && (forall t | t in sh.readers :: ReaderInv(h, s, i, t))
  }

  /** A thread inside a lock is registered with the shard of its key. */
  ghost predicate ThreadInv(h: HashFn, s: State, t: Tid)
    requires |s.shards| == N_SHARDS
  {
    var pc := PcOf(s, t);
    InLock(pc) ==>
      var sh := s.shards[Home(h, pc.op.key)];
      if Reads(pc.op) then t in sh.readers else sh.writer == Some(t)
  }

  /** A response to an operation on a key carries the answer of the operation at its place in the
      sequential execution. */
  ghost predicate AnswerInv(log: seq<Op>, e: Event) {
    e.Respond? && e.request.OnKey? ==>
      e.ticket < |log| && log[e.ticket] == e.request.op && e.result == AnswerAt(log, e.ticket)
  }

  ghost predicate AnswersInv(s: State) {
    forall i | 0 <= i < |s.events| :: AnswerInv(s.log, s.events[i])
  }

  /** Items of a shard plus how far the size is ahead on account of its writer. */
  function Weight(s: State, i: nat): int
    requires i < |s.shards|
  {
    |Items(s.shards[i])| + if s.shards[i].writer.Some? then Pending(PcOf(s, s.shards[i].writer.value)) else 0
  }

  function SumFrom(ws: seq<int>, k: nat): int
    requires k <= |ws|
    decreases |ws| - k
  {
    if k == |ws| then 0 else ws[k] + SumFrom(ws, k + 1)
  }

  function Sum(ws: seq<int>): int {
    SumFrom(ws, 0)
  }

  function Weights(s: State): (ws: seq<int>)
    ensures |ws| == |s.shards|
    ensures forall i | 0 <= i < |ws| :: ws[i] == Weight(s, i)
  {
    seq(|s.shards|, i requires 0 <= i < |s.shards| => Weight(s, i))
  }

  ghost predicate Inv(h: HashFn, s: State) {
    && |s.shards| == N_SHARDS
    && (forall i: nat | i < N_SHARDS :: ShardInv(h, s, i))
    && (forall t: Tid :: ThreadInv(h, s, t))
    && AnswersInv(s)
    && s.size == Wrap32(Sum(Weights(s)))
  }
}
