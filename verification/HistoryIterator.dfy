/** The archival history iterator (common/archiver/historyIterator.go).

    A workflow history is cut into blobs of a target size while it is read through a paged store.
    The reference is a greedy split of the history that knows nothing about pages; the iterator's
    loops are proved to agree with it for every way the store may page or fail. */
module HistoryIterator {
  import opened Wrappers

  datatype Event = Event(eventId: int, version: int)

  type Batch = seq<Event>

  type History = seq<Batch>

  const FIRST_EVENT_ID := 1

  /** The ID of the first event of batch `k` when IDs are contiguous from FIRST_EVENT_ID;
      for `k == |h|`, one past the last event of the history. */
  function FirstIdOf(h: History, k: nat): int
    requires k <= |h|
  {
    if k == 0 then FIRST_EVENT_ID else FirstIdOf(h, k - 1) + |h[k - 1]|
  }

  ghost predicate WellFormedBatch(h: History, k: nat)
    requires k < |h|
  {
    && |h[k]| > 0
    && forall j | 0 <= j < |h[k]| :: h[k][j].eventId == FirstIdOf(h, k) + j
  }

  /** Batches are non-empty and event IDs are contiguous from 1. */
  ghost predicate WellFormed(h: History) {
    forall k: nat | k < |h| :: WellFormedBatch(h, k)
  }

  lemma {:induction false} FirstIdMonotone(h: History, i: nat, j: nat)
    requires WellFormed(h)
    requires i <= j <= |h|
    ensures FirstIdOf(h, j) >= FirstIdOf(h, i) + (j - i)
    decreases j - i
  {
    if i < j {
      FirstIdMonotone(h, i, j - 1);
      assert WellFormedBatch(h, j - 1);
    }
  }

  /** One past the last event of a batch is the first event of the next. */
  lemma LastIdOfBatch(h: History, k: nat)
    requires WellFormed(h)
    requires k < |h|
    ensures |h[k]| > 0
    ensures h[k][0].eventId == FirstIdOf(h, k)
    ensures h[k][|h[k]| - 1].eventId + 1 == FirstIdOf(h, k + 1)
  {
    assert WellFormedBatch(h, k);
  }

  /** The index of the first batch at or after `from` whose first event is at or past `id`. */
  function SeekFrom(h: History, id: int, from: nat): (k: nat)
    requires from <= |h|
    ensures from <= k <= |h|
    decreases |h| - from
  {
    if from == |h| || id <= FirstIdOf(h, from) then from else SeekFrom(h, id, from + 1)
  }

  function Seek(h: History, id: int): (k: nat)
    ensures k <= |h|
  {
    SeekFrom(h, id, 0)
  }

  lemma {:induction false} SeekFromBoundary(h: History, from: nat, k: nat)
    requires WellFormed(h)
    requires from <= k <= |h|
    ensures SeekFrom(h, FirstIdOf(h, k), from) == k
    decreases k - from
  {
    FirstIdMonotone(h, from, k);
    if from < k {
      SeekFromBoundary(h, from + 1, k);
    }
  }

  /** Reading from the event after a batch finds exactly the next batch. */
  lemma SeekBoundary(h: History, k: nat)
    requires WellFormed(h)
    requires k <= |h|
    ensures Seek(h, FirstIdOf(h, k)) == k
  {
    SeekFromBoundary(h, 0, k);
  }

  // ----- the greedy reference -----

  /** The size estimator; `None` is an encoding error. */
  type Estimator = Batch -> Option<nat>

  function SizeOf(est: Estimator, b: Batch): nat {
    match est(b)
    case Some(n) => n
    case None => 0
  }

  function TotalSize(est: Estimator, bs: seq<Batch>): nat {
    if bs == [] then 0 else TotalSize(est, bs[..|bs| - 1]) + SizeOf(est, bs[|bs| - 1])
  }

  /** The end of the greedy blob: batches are taken from `p` on, on top of `acc` bytes already
      taken, until the target is met or the history ends. */
  function Cut(h: History, est: Estimator, target: int, p: nat, acc: nat): (j: nat)
    requires p <= |h|
    ensures p <= j <= |h|
    ensures p < |h| ==> p < j
    decreases |h| - p
  {
    if p == |h| then p
    else if acc + SizeOf(est, h[p]) >= target then p + 1
    else Cut(h, est, target, p + 1, acc + SizeOf(est, h[p]))
  }

  datatype Header = Header(isLast: bool, firstVersion: int, lastVersion: int,
                           firstEventId: int, lastEventId: int, eventCount: int)

  datatype Blob = Blob(header: Header, body: seq<Batch>)

  /** The blob holding batches i..j of the history. */
  function BlobAt(h: History, i: nat, j: nat): Blob
    requires i < j <= |h|
    requires |h[i]| > 0 && |h[j - 1]| > 0
  {
    var last := h[j - 1];
    Blob(Header(j == |h|, h[i][0].version, last[|last| - 1].version,
                FirstIdOf(h, i), FirstIdOf(h, j) - 1, FirstIdOf(h, j) - FirstIdOf(h, i)),
         h[i..j])
  }

  /** All blobs of the greedy split of h[k..]. */
  ghost function BlobsFrom(h: History, est: Estimator, target: int, k: nat): seq<Blob>
    requires WellFormed(h)
    requires k <= |h|
    decreases |h| - k
  {
    if k == |h| then []
    else
      var j := Cut(h, est, target, k, 0);
      assert WellFormedBatch(h, k);
      assert WellFormedBatch(h, j - 1);
      [BlobAt(h, k, j)] + BlobsFrom(h, est, target, j)
  }

  // ----- what the greedy split is -----

  function Flatten(blobs: seq<Blob>): seq<Batch> {
    if blobs == [] then [] else blobs[0].body + Flatten(blobs[1..])
  }

  /** Every proper prefix of the body is below the target. */
  ghost predicate PrefixesBelow(est: Estimator, target: int, body: seq<Batch>) {
    forall n | 0 <= n < |body| :: TotalSize(est, body[..n]) < target
  }

  lemma {:induction false} CutBounds(h: History, est: Estimator, target: int, k: nat, p: nat)
    requires k <= p <= |h|
    requires forall e | k <= e <= p :: TotalSize(est, h[k..e]) < target
    ensures var j := Cut(h, est, target, p, TotalSize(est, h[k..p]));
            && (forall e | k <= e < j :: TotalSize(est, h[k..e]) < target)
            && (j < |h| ==> TotalSize(est, h[k..j]) >= target)
    decreases |h| - p
  {
    if p < |h| {
      assert h[k..p + 1][..p - k] == h[k..p];
      assert TotalSize(est, h[k..p + 1]) == TotalSize(est, h[k..p]) + SizeOf(est, h[p]);
      if TotalSize(est, h[k..p + 1]) < target {
        CutBounds(h, est, target, k, p + 1);
      }
    }
  }

  /** Greedy blobs are minimal: no proper prefix meets the target, and only the last may miss it. */
  lemma CutIsMinimal(h: History, est: Estimator, target: int, k: nat)
    requires k < |h|
    requires target > 0
    ensures var j := Cut(h, est, target, k, 0);
            && PrefixesBelow(est, target, h[k..j])
            && (j < |h| ==> TotalSize(est, h[k..j]) >= target)
  {
    assert h[k..k] == [];
    CutBounds(h, est, target, k, k);
    var j := Cut(h, est, target, k, 0);
    forall n | 0 <= n < j - k
      ensures TotalSize(est, h[k..j][..n]) < target
    {
      assert h[k..j][..n] == h[k..k + n];
    }
  }

  /** A split of h[k..]: blobs tile it, in order; each is non-empty, no proper prefix of one meets
      the target, and each but the last meets it. Nothing here mentions the iterator. */
  ghost predicate IsGreedySplit(rest: seq<Batch>, est: Estimator, target: int, blobs: seq<Blob>) {
    && Flatten(blobs) == rest
    && (forall i | 0 <= i < |blobs| :: |blobs[i].body| > 0 && PrefixesBelow(est, target, blobs[i].body))
    && (forall i | 0 <= i < |blobs| - 1 :: TotalSize(est, blobs[i].body) >= target)
  }

  lemma {:induction false} BlobsTileHistory(h: History, est: Estimator, target: int, k: nat)
    requires WellFormed(h)
    requires target > 0
    requires k <= |h|
    ensures IsGreedySplit(h[k..], est, target, BlobsFrom(h, est, target, k))
    decreases |h| - k
  {
    if k < |h| {
      var j := Cut(h, est, target, k, 0);
      var rest := BlobsFrom(h, est, target, j);
      CutIsMinimal(h, est, target, k);
      BlobsTileHistory(h, est, target, j);
      assert WellFormedBatch(h, k) && WellFormedBatch(h, j - 1);
      assert h[k..] == h[k..j] + h[j..];
      SplitCons(h[j..], est, target, BlobAt(h, k, j), rest);
    }
  }

  lemma SplitCons(rest: seq<Batch>, est: Estimator, target: int, blob: Blob, blobs: seq<Blob>)
    requires IsGreedySplit(rest, est, target, blobs)
    requires |blob.body| > 0 && PrefixesBelow(est, target, blob.body)
    requires blobs != [] ==> TotalSize(est, blob.body) >= target
    ensures IsGreedySplit(blob.body + rest, est, target, [blob] + blobs)
  {
    var all := [blob] + blobs;
    assert all[1..] == blobs;
  }

  /** The greedy split is the only one: any tiling with these bounds has the same bodies. */
  lemma {:induction false} GreedySplitIsUnique(rest: seq<Batch>, est: Estimator, target: int,
                                               a: seq<Blob>, b: seq<Blob>)
    requires IsGreedySplit(rest, est, target, a)
    requires IsGreedySplit(rest, est, target, b)
    ensures |a| == |b|
    ensures forall i | 0 <= i < |a| :: a[i].body == b[i].body
    decreases |a|
  {
    if a != [] && b != [] {
      var x, y := a[0].body, b[0].body;
      assert x == rest[..|x|] && y == rest[..|y|];
      FirstBodyNotLonger(rest, est, target, a, b);
      FirstBodyNotLonger(rest, est, target, b, a);
      assert Flatten(a[1..]) == rest[|x|..] && Flatten(b[1..]) == rest[|x|..];
      assert IsGreedySplit(rest[|x|..], est, target, a[1..]);
      assert IsGreedySplit(rest[|x|..], est, target, b[1..]);
      GreedySplitIsUnique(rest[|x|..], est, target, a[1..], b[1..]);
      forall i | 0 <= i < |a|
        ensures a[i].body == b[i].body
      {
        assert i > 0 ==> a[i] == a[1..][i - 1] && b[i] == b[1..][i - 1];
      }
    }
  }

  lemma FirstBodyNotLonger(rest: seq<Batch>, est: Estimator, target: int, a: seq<Blob>, b: seq<Blob>)
    requires IsGreedySplit(rest, est, target, a) && IsGreedySplit(rest, est, target, b)
    requires a != [] && b != []
    ensures |a[0].body| <= |b[0].body|
  {
    var x, y := a[0].body, b[0].body;
    assert x == rest[..|x|] && y == rest[..|y|];
    if |b| == 1 {
      assert Flatten(b[1..]) == [];
    } else {
      assert TotalSize(est, y) >= target;
      var n := if |y| < |x| then |y| else 0;
      assert x[..n] == rest[..n];
    }
  }

  /** Headers along the greedy split: the last flag is on exactly the final blob, each count is the
      width of the ID range, and each blob starts one past the end of the one before. */
  lemma {:induction false} HeadersChain(h: History, est: Estimator, target: int, k: nat)
    requires WellFormed(h)
    requires k < |h|
    ensures var bs := BlobsFrom(h, est, target, k);
            && |bs| > 0
            && bs[0].header.firstEventId == FirstIdOf(h, k)
            && bs[|bs| - 1].header.lastEventId == FirstIdOf(h, |h|) - 1
            && (forall i | 0 <= i < |bs| :: bs[i].header.isLast <==> i == |bs| - 1)
            && (forall i | 0 <= i < |bs| ::
                  bs[i].header.eventCount == bs[i].header.lastEventId - bs[i].header.firstEventId + 1 > 0)
            && (forall i | 0 < i < |bs| :: bs[i].header.firstEventId == bs[i - 1].header.lastEventId + 1)
    decreases |h| - k
  {
    var j := Cut(h, est, target, k, 0);
    var rest := BlobsFrom(h, est, target, j);
    var bs := BlobsFrom(h, est, target, k);
    assert bs[1..] == rest;
    FirstIdMonotone(h, k, j);
    if j < |h| {
      HeadersChain(h, est, target, j);
    }
    assert forall i | 0 < i < |bs| :: bs[i] == rest[i - 1];
  }

  /** The header fields of a greedy blob are what its own events say. */
  lemma {:induction false} HeaderMatchesBody(h: History, i: nat, j: nat)
    requires WellFormed(h)
    requires i < j <= |h|
    ensures |h[i]| > 0 && |h[j - 1]| > 0
    ensures var b := BlobAt(h, i, j);
            var first := b.body[0][0];
            var last := b.body[|b.body| - 1][|b.body[|b.body| - 1]| - 1];
            && b.header.firstEventId == first.eventId && b.header.firstVersion == first.version
            && b.header.lastEventId == last.eventId && b.header.lastVersion == last.version
            && b.header.eventCount == CountEvents(b.body)
  {
    assert WellFormedBatch(h, i);
    assert WellFormedBatch(h, j - 1);
    CountIsWidth(h, i, j);
  }

  function CountEvents(bs: seq<Batch>): nat {
    if bs == [] then 0 else CountEvents(bs[..|bs| - 1]) + |bs[|bs| - 1]|
  }

  lemma {:induction false} CountIsWidth(h: History, i: nat, j: nat)
    requires i <= j <= |h|
    ensures CountEvents(h[i..j]) == FirstIdOf(h, j) - FirstIdOf(h, i)
    decreases j - i
  {
    if i < j {
      CountIsWidth(h, i, j - 1);
      assert h[i..j][..j - i - 1] == h[i..j - 1];
    }
  }

  // ----- the paged store -----

  datatype ReadError = NotFound | Transient(message: string) | EstimateFailed

  datatype ReadAnswer = Page(batches: seq<Batch>) | ReadFailed(error: ReadError)

  /** What the store decides for one read: serve at most `limit` batches (never none), or fail. */
  datatype Decision = Serve(limit: nat) | Break(message: string)

  /** The store holds the history. Its answer to the n-th read follows `plan(n)`, an arbitrary
      function, so a claim about every plan is a claim about every paging and failure pattern. */
  class HistoryStore {
    const history: History
    const plan: nat -> Decision
    var readCount: nat

    constructor (history: History, plan: nat -> Decision)
      ensures this.history == history && this.plan == plan && readCount == 0
    {
      this.history := history;
      this.plan := plan;
      readCount := 0;
    }

    method ReadHistory(firstEventId: int) returns (answer: ReadAnswer)
      modifies this
      ensures readCount == old(readCount) + 1
      ensures var k := Seek(history, firstEventId);
              match plan(old(readCount))
              case Break(m) => answer == ReadFailed(Transient(m))
              case Serve(_) =>
                if k == |history| then answer == ReadFailed(NotFound)
                else answer.Page? && 0 < |answer.batches| <= |history| - k
                     && answer.batches == history[k..k + |answer.batches|]
    {
      var k := Seek(history, firstEventId);
      match plan(readCount) {
        case Break(m) =>
          answer := ReadFailed(Transient(m));
        case Serve(limit) =>
          if k == |history| {
            answer := ReadFailed(NotFound);
          } else {
            var n := if limit == 0 then 1 else if limit > |history| - k then |history| - k else limit;
            answer := Page(history[k..k + n]);
          }
      }
      readCount := readCount + 1;
    }
  }

  // ----- the iterator -----

  datatype IterState = IterState(nextEventId: int, finished: bool)

  const INITIAL_STATE := IterState(FIRST_EVENT_ID, false)

  /** An encoded iterator state: absent, decodable, or not decodable. */
  datatype Token = NoToken | Encoded(state: IterState) | Garbage

  datatype NextResult =
    | Delivered(blob: Blob)
    | Depleted
    | Failed(error: ReadError)
    | Panicked  // indexing an empty list of batches

  datatype BatchesResult =
    | Batches(batches: seq<Batch>, state: IterState)
    | BatchesFailed(err: ReadError)

  datatype ReadRound =
    | Ended(result: BatchesResult)
    | GoesOn(size: nat, batches: seq<Batch>, next: int)

  datatype PageResult =
    | Satisfied(batches: seq<Batch>, next: int)
    | PageDone(total: nat, batches: seq<Batch>, next: int)
    | TakeFailed

  /** The state left after a blob that ends before batch `j`. The finished state keeps a zero ID. */
  function StateAt(h: History, j: nat): IterState
    requires j <= |h|
  {
    if j == |h| then IterState(0, true) else IterState(FirstIdOf(h, j), false)
  }

  /** The blobs still to come from a state. */
  ghost function Remaining(h: History, est: Estimator, target: int, s: IterState): seq<Blob>
    requires WellFormed(h)
  {
    if s.finished then [] else BlobsFrom(h, est, target, Seek(h, s.nextEventId))
  }

  /** One call of Next from state `s`: what it may answer and the state it leaves. */
  ghost predicate NextStep(h: History, est: Estimator, target: int, s: IterState, r: NextResult, s': IterState)
    requires WellFormed(h)
  {
    match r
    case Depleted => s.finished && s' == s
    case Failed(_) => !s.finished && s' == s
    case Delivered(blob) =>
      var k := Seek(h, s.nextEventId);
      var j := Cut(h, est, target, k, 0);
      && !s.finished && target > 0
      && k < |h| && |h[k]| > 0 && |h[j - 1]| > 0
      && blob == BlobAt(h, k, j) && s' == StateAt(h, j)
    case Panicked =>
      && !s.finished
      && (target <= 0 || (Seek(h, s.nextEventId) == |h| && s.nextEventId != FIRST_EVENT_ID))
  }

  lemma BatchesNonEmpty(h: History, k: nat, j: nat)
    requires WellFormed(h)
    requires k <= j <= |h|
    ensures forall i | 0 <= i < j - k :: |h[k..j][i]| > 0
  {
    forall i | 0 <= i < j - k
      ensures |h[k..j][i]| > 0
    {
      LastIdOfBatch(h, k + i);
    }
  }

  ghost predicate SizableAt(h: History, est: Estimator, i: nat)
    requires i < |h|
  {
    est(h[i]).Some?
  }

  /** The sizes of all batches from `k` to `j` can be estimated. */
  ghost predicate AllSizable(h: History, est: Estimator, k: nat, j: nat)
    requires j <= |h|
  {
    forall i: nat | k <= i < j :: SizableAt(h, est, i)
  }

  lemma SizableJoins(h: History, est: Estimator, k: nat, p: nat, j: nat)
    requires k <= p <= j <= |h| && AllSizable(h, est, k, p) && AllSizable(h, est, p, j)
    ensures AllSizable(h, est, k, j)
  {
  }

  lemma SliceSnoc(h: History, k: nat, i: nat)
    requires k <= i < |h|
    ensures h[k..i] + [h[i]] == h[k..i + 1]
  {
  }

  ghost predicate ServedAt(plan: nat -> Decision, n: nat) {
    plan(n).Serve?
  }

  /** Every read numbered from..to was served. */
  ghost predicate NoneBroke(plan: nat -> Decision, from: nat, to: nat) {
    forall n: nat | from <= n < to :: ServedAt(plan, n)
  }

  /** What an error is about: the last read broke with this message, a batch of the very blob to be
      read cannot be sized, or the whole history is missing. */
  ghost predicate IsCause(h: History, est: Estimator, target: int, start: int,
                          plan: nat -> Decision, from: nat, to: nat, error: ReadError) {
    && (error.Transient? ==> from < to && plan(to - 1) == Break(error.message))
    && (error.EstimateFailed? ==> !AllSizable(h, est, Seek(h, start), Cut(h, est, target, Seek(h, start), 0)))
    && (error.NotFound? ==> Seek(h, start) == |h| && start == FIRST_EVENT_ID)
  }

  /** What reading one blob's worth of batches gives: the batches up to the greedy cut, all of them
      sizable, and the state after them. Nothing is read at a target that is not positive, or where no
      batch is left. */
  ghost predicate IsBlobRead(h: History, est: Estimator, target: int, start: int, bs: seq<Batch>, s: IterState) {
    var k := Seek(h, start);
    if bs == [] then target <= 0 || (k == |h| && start != FIRST_EVENT_ID)
    else
      var j := Cut(h, est, target, k, 0);
      target > 0 && k < |h| && bs == h[k..j] && s == StateAt(h, j) && AllSizable(h, est, k, j)
  }

  /** The loop of reads has taken the batches up to `p`, `size` bytes of them, and the cut is still the
      same or is reached. */
  ghost predicate Underway(h: History, est: Estimator, target: int, start: int,
                           p: nat, firstEventId: int, size: nat, batches: seq<Batch>) {
    var k := Seek(h, start);
    var cut := Cut(h, est, target, k, 0);
    && k <= p <= |h| && Seek(h, firstEventId) == p && batches == h[k..p] && AllSizable(h, est, k, p)
    && (if p == k then firstEventId == start && size == 0
        else firstEventId == FirstIdOf(h, p) && firstEventId != FIRST_EVENT_ID && target > 0)
    && (size < target ==> Cut(h, est, target, p, size) == cut)
    && (size >= target > 0 ==> p == cut > k)
  }

  /** What taking a page of batches from `p` gives, on top of `size` bytes already taken from `k` on. */
  ghost predicate IsPageResult(h: History, est: Estimator, target: int, k: nat, p: nat, size: nat, length: nat, r: PageResult)
    requires k <= p && p + length <= |h|
  {
    var j := Cut(h, est, target, p, size);
    var end := p + length;
    && (r.TakeFailed? ==> !AllSizable(h, est, p, j))
    && (r.Satisfied? ==>
          j < end && r.batches == h[k..j] && r.next == FirstIdOf(h, j) && AllSizable(h, est, p, j))
    && (r.PageDone? ==>
          && r.batches == h[k..end] && r.next == FirstIdOf(h, end) && AllSizable(h, est, p, end)
          && (if r.total >= target then j == end else j == Cut(h, est, target, end, r.total)))
  }

  /** When no batch is left, what has been taken is the last blob. When the target is met, it is a
      blob too, the last one or not. */
  lemma EndsHere(h: History, est: Estimator, target: int, start: int,
                 p: nat, firstEventId: int, size: nat, batches: seq<Batch>)
    requires Underway(h, est, target, start, p, firstEventId, size, batches)
    ensures p == |h| && firstEventId != FIRST_EVENT_ID ==>
              IsBlobRead(h, est, target, start, batches, IterState(0, true))
    ensures p < |h| && size >= target ==>
              IsBlobRead(h, est, target, start, batches, IterState(firstEventId, false))
  {
  }

  /** Only the first read can ask for the first event. */
  lemma NeverStarted(h: History, est: Estimator, target: int, start: int,
                     p: nat, firstEventId: int, size: nat, batches: seq<Batch>)
    requires Underway(h, est, target, start, p, firstEventId, size, batches)
    ensures firstEventId == FIRST_EVENT_ID ==> p == Seek(h, start) && start == FIRST_EVENT_ID
  {
  }

  /** A page leads on, completes the blob or reveals a batch that cannot be sized. */
  lemma PageTaken(h: History, est: Estimator, target: int, start: int,
                  p: nat, firstEventId: int, size: nat, batches: seq<Batch>, page: seq<Batch>, r: PageResult)
    requires WellFormed(h) && size < target
    requires Underway(h, est, target, start, p, firstEventId, size, batches)
    requires 0 < |page| <= |h| - p && IsPageResult(h, est, target, Seek(h, start), p, size, |page|, r)
    ensures r.TakeFailed? ==> !AllSizable(h, est, Seek(h, start), Cut(h, est, target, Seek(h, start), 0))
    ensures r.Satisfied? ==> IsBlobRead(h, est, target, start, r.batches, IterState(r.next, false))
    ensures r.PageDone? ==> Underway(h, est, target, start, p + |page|, r.next, r.total, r.batches)
  {
    var k, j := Seek(h, start), Cut(h, est, target, p, size);
    match r
    case TakeFailed =>
    case Satisfied(_, _) =>
      SizableJoins(h, est, k, p, j);
    case PageDone(_, _, _) =>
      SizableJoins(h, est, k, p, p + |page|);
      FirstIdMonotone(h, 0, p + |page|);
      SeekBoundary(h, p + |page|);
  }

  class Iterator {
    var state: IterState
    const store: HistoryStore
    const estimate: Estimator
    const targetSize: int

    constructor (store: HistoryStore, estimate: Estimator, targetSize: int)
      ensures state == INITIAL_STATE
      ensures this.store == store && this.estimate == estimate && this.targetSize == targetSize
    {
      this.store := store;
      this.estimate := estimate;
      this.targetSize := targetSize;
      state := INITIAL_STATE;
    }

    /** Rebuilds an iterator from a saved token; an undecodable token is refused. */
    static method FromState(store: HistoryStore, estimate: Estimator, targetSize: int, token: Token)
      returns (it: Option<Iterator>)
      ensures it.None? <==> token.Garbage?
      ensures it.Some? ==> fresh(it.value) && it.value.store == store
                           && it.value.estimate == estimate && it.value.targetSize == targetSize
      ensures it.Some? ==> it.value.state == if token.NoToken? then INITIAL_STATE else token.state
    {
      var rebuilt := new Iterator(store, estimate, targetSize);
      if token.NoToken? {
        return Some(rebuilt);
      }
      var ok := rebuilt.Reset(token);
      it := if ok then Some(rebuilt) else None;
    }

    /** Decoding failure leaves the iterator as it was. */
    method Reset(token: Token) returns (ok: bool)
      modifies this
      ensures ok <==> token.Encoded?
      ensures state == if token.Encoded? then token.state else old(state)
    {
      ok := token.Encoded?;
      if ok {
        state := token.state;
      }
    }

    function GetState(): Token
      reads this
    {
      Encoded(state)
    }

    predicate HasNext()
      reads this
    {
      !state.finished
    }

    method Next() returns (r: NextResult)
      requires WellFormed(store.history)
      modifies this, store
      ensures NextStep(store.history, estimate, targetSize, old(state), r, state)
      // An error has its cause, and what would cause one rules out a delivery.
      ensures r.Failed? ==> IsCause(store.history, estimate, targetSize, old(state.nextEventId),
                                    store.plan, old(store.readCount), store.readCount, r.error)
      ensures r.Delivered? ==>
                && NoneBroke(store.plan, old(store.readCount), store.readCount)
                && AllSizable(store.history, estimate, Seek(store.history, old(state.nextEventId)),
                                 Cut(store.history, estimate, targetSize, Seek(store.history, old(state.nextEventId)), 0))
    {
      if !HasNext() {
        return Depleted;
      }
      ghost var h := store.history;
      ghost var k := Seek(h, state.nextEventId);
      var read := ReadHistoryBatches(state.nextEventId);
      if read.BatchesFailed? {
        return Failed(read.err);
      }
      state := read.state;
      var batches := read.batches;
      if batches == [] {
        return Panicked;
      }
      ghost var j := Cut(h, estimate, targetSize, k, 0);
      BatchesNonEmpty(h, k, j);
      var blob := MakeBlob(batches, state.finished);
      HeaderMatchesBody(h, k, j);
      return Delivered(blob);
    }

    /** Wraps a non-empty list of batches in a header computed from its events. */
    static method MakeBlob(batches: seq<Batch>, finished: bool) returns (blob: Blob)
      requires batches != [] && forall i | 0 <= i < |batches| :: |batches[i]| > 0
      ensures blob.body == batches
      ensures var first := batches[0][0]; var lastBatch := batches[|batches| - 1]; var last := lastBatch[|lastBatch| - 1];
              blob.header == Header(finished, first.version, last.version, first.eventId, last.eventId, CountEvents(batches))
    {
      var lastBatch := batches[|batches| - 1];
      var eventCount := 0;
      for i := 0 to |batches|
        invariant eventCount == CountEvents(batches[..i])
      {
        assert batches[..i + 1][..i] == batches[..i];
        eventCount := eventCount + |batches[i]|;
      }
      assert batches[..|batches|] == batches;
      blob := Blob(Header(finished, batches[0][0].version, lastBatch[|lastBatch| - 1].version,
                          batches[0][0].eventId, lastBatch[|lastBatch| - 1].eventId, eventCount),
                   batches);
    }

    /** Reads one blob's worth of batches from `start`, looking one read ahead for the end. */
    method ReadHistoryBatches(start: int) returns (r: BatchesResult)
      requires WellFormed(store.history)
      modifies store
      ensures store.readCount >= old(store.readCount)
      ensures r.Batches? ==> NoneBroke(store.plan, old(store.readCount), store.readCount)
      ensures r.Batches? ==> IsBlobRead(store.history, estimate, targetSize, start, r.batches, r.state)
      ensures r.BatchesFailed? ==> IsCause(store.history, estimate, targetSize, start,
                                           store.plan, old(store.readCount), store.readCount, r.err)
    {
      ghost var h := store.history;
      ghost var p := Seek(h, start);
      var firstEventId := start;
      var size: nat := 0;
      var batches: seq<Batch> := [];
      while size < targetSize
        invariant store.readCount >= old(store.readCount)
        invariant NoneBroke(store.plan, old(store.readCount), store.readCount)
        invariant Underway(h, estimate, targetSize, start, p, firstEventId, size, batches)
        decreases |h| - p
      {
        var round;
        round, p := ReadPage(start, p, firstEventId, size, batches);
        match round {
          case Ended(result) =>
            return result;
          case GoesOn(total, bs, next) =>
            size, batches, firstEventId := total, bs, next;
        }
      }
      NeverStarted(h, estimate, targetSize, start, p, firstEventId, size, batches);
      EndsHere(h, estimate, targetSize, start, p, firstEventId, size, batches);
      r := LookAhead(batches, firstEventId);
    }

    /** One round of the loop: a read and, if it is served, the batches of its page. */
    method ReadPage(ghost start: int, ghost p: nat, firstEventId: int, size: nat, batches: seq<Batch>)
      returns (r: ReadRound, ghost p': nat)
      requires WellFormed(store.history) && size < targetSize
      requires Underway(store.history, estimate, targetSize, start, p, firstEventId, size, batches)
      modifies store
      ensures store.readCount == old(store.readCount) + 1
      ensures r.GoesOn? ==> p < p' && Underway(store.history, estimate, targetSize, start, p', r.next, r.size, r.batches)
      ensures r.GoesOn? || r.result.Batches? ==> ServedAt(store.plan, old(store.readCount))
      ensures r.Ended? && r.result.Batches? ==>
                IsBlobRead(store.history, estimate, targetSize, start, r.result.batches, r.result.state)
      ensures r.Ended? && r.result.BatchesFailed? ==>
                IsCause(store.history, estimate, targetSize, start, store.plan, old(store.readCount), store.readCount, r.result.err)
    {
      ghost var h := store.history;
      p' := p;
      var answer := store.ReadHistory(firstEventId);
      if answer == ReadFailed(NotFound) && firstEventId != FIRST_EVENT_ID {
        EndsHere(h, estimate, targetSize, start, p, firstEventId, size, batches);
        return Ended(Batches(batches, IterState(0, true))), p';
      }
      if answer.ReadFailed? {
        NeverStarted(h, estimate, targetSize, start, p, firstEventId, size, batches);
        return Ended(BatchesFailed(answer.error)), p';
      }
      var taken := TakePage(answer.batches, size, batches, h, Seek(h, start), p);
      PageTaken(h, estimate, targetSize, start, p, firstEventId, size, batches, answer.batches, taken);
      match taken {
        case TakeFailed =>
          return Ended(BatchesFailed(EstimateFailed)), p';
        case Satisfied(bs, next) =>
          return Ended(Batches(bs, IterState(next, false))), p';
        case PageDone(total, bs, next) =>
          return GoesOn(total, bs, next), p + |answer.batches|;
      }
    }

    /** Reads once more, only to learn whether the history ends after these batches. */
    method LookAhead(batches: seq<Batch>, firstEventId: int) returns (r: BatchesResult)
      modifies store
      ensures store.readCount == old(store.readCount) + 1
      ensures var atEnd := Seek(store.history, firstEventId) == |store.history|;
              && (r.Batches? ==>
                    && r.batches == batches && (atEnd ==> firstEventId != FIRST_EVENT_ID)
                    && r.state == (if atEnd then IterState(0, true) else IterState(firstEventId, false))
                    && ServedAt(store.plan, old(store.readCount)))
              && (r.BatchesFailed? ==>
                    || (r.err.Transient? && store.plan(old(store.readCount)) == Break(r.err.message))
                    || (r.err.NotFound? && atEnd && firstEventId == FIRST_EVENT_ID))
    {
      var ahead := store.ReadHistory(firstEventId);
      if ahead == ReadFailed(NotFound) && firstEventId != FIRST_EVENT_ID {
        return Batches(batches, IterState(0, true));
      }
      if ahead.ReadFailed? {
        return BatchesFailed(ahead.error);
      }
      return Batches(batches, IterState(firstEventId, false));
    }

    /** Adds the batches of one page, stopping early once the target is met before the page ends. */
    method TakePage(page: seq<Batch>, startSize: nat, startBatches: seq<Batch>,
                    ghost h: History, ghost k: nat, ghost p: nat)
      returns (r: PageResult)
      requires WellFormed(h)
      requires k <= p && 0 < |page| <= |h| - p && page == h[p..p + |page|]
      requires startSize < targetSize && startBatches == h[k..p]
      ensures IsPageResult(h, estimate, targetSize, k, p, startSize, |page|, r)
    {
      var size: nat := startSize;
      var batches, firstEventId := startBatches, 0;
      ghost var j := Cut(h, estimate, targetSize, p, startSize);
      for idx := 0 to |page|
        invariant batches == h[k..p + idx]
        invariant idx > 0 ==> firstEventId == FirstIdOf(h, p + idx)
        invariant size < targetSize ==> Cut(h, estimate, targetSize, p + idx, size) == j
        invariant size >= targetSize ==> idx == |page| && p + idx == j
        invariant AllSizable(h, estimate, p, p + idx)
      {
        var batch := page[idx];
        assert batch == h[p + idx];
        LastIdOfBatch(h, p + idx);
        var estimated := estimate(batch);
        if estimated.None? {
          assert !SizableAt(h, estimate, p + idx);
          return TakeFailed;
        }
        assert SizableAt(h, estimate, p + idx);
        size := size + estimated.value;
        SliceSnoc(h, k, p + idx);
        batches := batches + [batch];
        firstEventId := batch[|batch| - 1].eventId + 1;
        if size >= targetSize && idx != |page| - 1 {
          return Satisfied(batches, firstEventId);
        }
      }
      return PageDone(size, batches, firstEventId);
    }
  }

  // ----- whole runs -----

  /** One event in the life of an archival: a call of Next, or the loss of the iterator followed by
      its reconstruction from a token. `after` is the state of the iterator in use afterwards. */
  datatype RunEvent =
    | Called(result: NextResult, after: IterState)
    | Rebuilt(token: Token, after: IterState)

  ghost predicate IsRunEvent(h: History, est: Estimator, target: int, s: IterState, e: RunEvent)
    requires WellFormed(h)
  {
    match e
    case Called(r, after) => NextStep(h, est, target, s, r, after)
    case Rebuilt(token, after) => token == Encoded(s) && after == token.state
  }

  /** The events follow one another from state `s`. A rebuild uses the token saved just before. */
  ghost predicate IsRun(h: History, est: Estimator, target: int, s: IterState, run: seq<RunEvent>)
    requires WellFormed(h)
    decreases |run|
  {
    run != [] ==>
      && IsRunEvent(h, est, target, s, run[0])
      && IsRun(h, est, target, run[0].after, run[1..])
  }

  function FinalState(s: IterState, run: seq<RunEvent>): IterState {
    if run == [] then s else run[|run| - 1].after
  }

  function DeliveredBlobs(run: seq<RunEvent>): seq<Blob> {
    if run == [] then [] else DeliveredByEvent(run[0]) + DeliveredBlobs(run[1..])
  }

  function DeliveredByEvent(e: RunEvent): seq<Blob> {
    if e.Called? && e.result.Delivered? then [e.result.blob] else []
  }

  /** A state an iterator over a non-empty history can be in: finished, or before some batch. */
  ghost predicate ReachableState(h: History, s: IterState) {
    s.finished || exists k: nat | k < |h| :: s.nextEventId == FirstIdOf(h, k)
  }

  lemma EventConservesBlobs(h: History, est: Estimator, target: int, s: IterState, e: RunEvent)
    requires WellFormed(h)
    requires target > 0
    requires ReachableState(h, s)
    requires IsRunEvent(h, est, target, s, e)
    ensures ReachableState(h, e.after)
    ensures e.Called? ==> !e.result.Panicked?
    ensures DeliveredByEvent(e) + Remaining(h, est, target, e.after) == Remaining(h, est, target, s)
  {
    if !s.finished {
      var k: nat :| k < |h| && s.nextEventId == FirstIdOf(h, k);
      SeekBoundary(h, k);
      CutConserves(h, est, target, k);
    }
  }

  /** A delivered blob starts at the event the state asked for. It is marked as the last one exactly when
      the iteration is finished afterwards; otherwise the next event is one past its last. */
  lemma DeliveryMovesCursor(h: History, est: Estimator, target: int, s: IterState, blob: Blob, s': IterState)
    requires WellFormed(h) && ReachableState(h, s) && NextStep(h, est, target, s, Delivered(blob), s')
    ensures blob.header.firstEventId == s.nextEventId
    ensures blob.header.isLast <==> s'.finished
    ensures s'.nextEventId == if s'.finished then 0 else blob.header.lastEventId + 1
  {
    var k: nat :| k < |h| && s.nextEventId == FirstIdOf(h, k);
    SeekBoundary(h, k);
  }

  /** One blob is cut off at a boundary; the rest is what the state after it promises. */
  lemma CutConserves(h: History, est: Estimator, target: int, k: nat)
    requires WellFormed(h) && target > 0 && k < |h|
    ensures var j := Cut(h, est, target, k, 0);
            && k < j <= |h| && ReachableState(h, StateAt(h, j)) && |h[k]| > 0 && |h[j - 1]| > 0
            && BlobsFrom(h, est, target, k) == [BlobAt(h, k, j)] + Remaining(h, est, target, StateAt(h, j))
  {
    var j := Cut(h, est, target, k, 0);
    SeekBoundary(h, j);
    assert WellFormedBatch(h, k) && WellFormedBatch(h, j - 1);
    assert BlobsFrom(h, est, target, k) == [BlobAt(h, k, j)] + BlobsFrom(h, est, target, j);
  }

  lemma ConcatAssociates(a: seq<Blob>, b: seq<Blob>, c: seq<Blob>)
    ensures (a + b) + c == a + (b + c)
  {
  }

  /** What a run has delivered and what its final state still promises add up to what its first
      state promised, for every paging, failure and rebuild; and no call of Next panics. */
  lemma {:induction false} RunConservesBlobs(h: History, est: Estimator, target: int, s: IterState, run: seq<RunEvent>)
    requires WellFormed(h)
    requires target > 0
    requires ReachableState(h, s)
    requires IsRun(h, est, target, s, run)
    ensures ReachableState(h, FinalState(s, run))
    ensures DeliveredBlobs(run) + Remaining(h, est, target, FinalState(s, run)) == Remaining(h, est, target, s)
    decreases |run|
  {
    if run != [] {
      var s1 := run[0].after;
      EventConservesBlobs(h, est, target, s, run[0]);
      RunConservesBlobs(h, est, target, s1, run[1..]);
      assert FinalState(s, run) == FinalState(s1, run[1..]);
      ConcatAssociates(DeliveredByEvent(run[0]), DeliveredBlobs(run[1..]), Remaining(h, est, target, FinalState(s, run)));
    }
  }

  /** No call of Next in such a run indexes an empty list of batches. */
  lemma {:induction false} RunNeverPanics(h: History, est: Estimator, target: int, s: IterState, run: seq<RunEvent>)
    requires WellFormed(h)
    requires target > 0
    requires ReachableState(h, s)
    requires IsRun(h, est, target, s, run)
    ensures forall e | e in run :: e.Called? ==> !e.result.Panicked?
    decreases |run|
  {
    if run != [] {
      EventConservesBlobs(h, est, target, s, run[0]);
      RunNeverPanics(h, est, target, run[0].after, run[1..]);
      assert run == [run[0]] + run[1..];
    }
  }

  /** By their headers the blobs cover the events from 1 to n. */
  ghost predicate CoversEvents(blobs: seq<Blob>, n: nat) {
    |blobs| > 0 && blobs[0].header.firstEventId == 1 && blobs[|blobs| - 1].header.lastEventId == n
  }

  lemma SplitCoversEvents(h: History, est: Estimator, target: int)
    requires WellFormed(h) && h != []
    ensures CoversEvents(BlobsFrom(h, est, target, 0), CountEvents(h))
  {
    assert h[0..|h|] == h;
    HeadersChain(h, est, target, 0);
    CountIsWidth(h, 0, |h|);
  }

  /** A finished run from the start delivers exactly the greedy split of the history. */
  lemma FinishedRunIsGreedy(h: History, est: Estimator, target: int, run: seq<RunEvent>)
    requires WellFormed(h) && h != []
    requires target > 0
    requires IsRun(h, est, target, INITIAL_STATE, run)
    requires FinalState(INITIAL_STATE, run).finished
    ensures DeliveredBlobs(run) == BlobsFrom(h, est, target, 0)
    ensures IsGreedySplit(h, est, target, DeliveredBlobs(run))
    ensures CoversEvents(DeliveredBlobs(run), CountEvents(h))
  {
    assert INITIAL_STATE.nextEventId == FirstIdOf(h, 0);
    RunConservesBlobs(h, est, target, INITIAL_STATE, run);
    SeekBoundary(h, 0);
    BlobsTileHistory(h, est, target, 0);
    assert h[0..] == h;
    SplitCoversEvents(h, est, target);
  }

  function CallCount(run: seq<RunEvent>): nat {
    if run == [] then 0 else (if run[0].Called? then 1 else 0) + CallCount(run[1..])
  }

  predicate NoneFailed(run: seq<RunEvent>) {
    run != [] ==> (run[0].Called? ==> !run[0].result.Failed?) && NoneFailed(run[1..])
  }

  /** A run ends: without failed calls, as many calls as there are blobs left finish the iteration. */
  lemma {:induction false} RunFinishes(h: History, est: Estimator, target: int, s: IterState, run: seq<RunEvent>)
    requires WellFormed(h) && target > 0 && ReachableState(h, s)
    requires IsRun(h, est, target, s, run)
    requires NoneFailed(run)
    requires CallCount(run) >= |Remaining(h, est, target, s)|
    ensures FinalState(s, run).finished
    decreases |run|
  {
    if run == [] {
      HasNextMeansMore(h, est, target, s);
    } else {
      var s1 := run[0].after;
      CallUsesUp(h, est, target, s, run[0]);
      RunFinishes(h, est, target, s1, run[1..]);
      assert FinalState(s, run) == FinalState(s1, run[1..]);
    }
  }

  lemma CallUsesUp(h: History, est: Estimator, target: int, s: IterState, e: RunEvent)
    requires WellFormed(h) && target > 0 && ReachableState(h, s)
    requires IsRunEvent(h, est, target, s, e) && (e.Called? ==> !e.result.Failed?)
    ensures ReachableState(h, e.after)
    ensures |Remaining(h, est, target, e.after)| <= |Remaining(h, est, target, s)|
    ensures e.Called? && |Remaining(h, est, target, s)| > 0 ==>
              |Remaining(h, est, target, e.after)| < |Remaining(h, est, target, s)|
  {
    HasNextMeansMore(h, est, target, s);
    EventConservesBlobs(h, est, target, s, e);
  }

  /** A state saved anywhere in a run restores the same remaining blobs: whatever was delivered
      before the checkpoint, then a separate run from the checkpoint, is the uninterrupted result. */
  lemma ResumeFromCheckpoint(h: History, est: Estimator, target: int,
                             before: seq<RunEvent>, resumed: seq<RunEvent>)
    requires WellFormed(h) && h != []
    requires target > 0
    requires IsRun(h, est, target, INITIAL_STATE, before)
    requires IsRun(h, est, target, FinalState(INITIAL_STATE, before), resumed)
    requires FinalState(FinalState(INITIAL_STATE, before), resumed).finished
    ensures DeliveredBlobs(before) + DeliveredBlobs(resumed) == BlobsFrom(h, est, target, 0)
  {
    assert INITIAL_STATE.nextEventId == FirstIdOf(h, 0);
    RunConservesBlobs(h, est, target, INITIAL_STATE, before);
    RunConservesBlobs(h, est, target, FinalState(INITIAL_STATE, before), resumed);
    SeekBoundary(h, 0);
  }

  /** While a reachable iterator says HasNext, a batch exists at its next event ID, and there is at
      least one blob left to deliver. */
  lemma HasNextMeansMore(h: History, est: Estimator, target: int, s: IterState)
    requires WellFormed(h)
    requires ReachableState(h, s)
    ensures !s.finished <==> Remaining(h, est, target, s) != []
    ensures !s.finished ==> Seek(h, s.nextEventId) < |h|
                            && h[Seek(h, s.nextEventId)] != []
                            && h[Seek(h, s.nextEventId)][0].eventId == s.nextEventId
  {
    if !s.finished {
      var k: nat :| k < |h| && s.nextEventId == FirstIdOf(h, k);
      SeekBoundary(h, k);
      assert WellFormedBatch(h, k);
    }
  }

  /** An archival that loses its iterator at will: before the i-th call of Next, when `saves[i]`
      says so, the state is saved and a new iterator is built from it. What is delivered is always
      the beginning of the greedy split, all of it exactly when the iteration is finished, and every
      call delivers a blob unless it fails. */
  method ArchiveWithCheckpoints(store: HistoryStore, estimate: Estimator, targetSize: int, saves: seq<bool>)
    returns (blobs: seq<Blob>, failures: nat, finished: bool)
    requires WellFormed(store.history) && store.history != [] && targetSize > 0
    modifies store
    ensures blobs <= BlobsFrom(store.history, estimate, targetSize, 0)
    ensures finished <==> blobs == BlobsFrom(store.history, estimate, targetSize, 0)
    ensures !finished ==> |blobs| + failures == |saves|
  {
    ghost var h := store.history;
    ghost var all := BlobsFrom(h, estimate, targetSize, 0);
    var it := new Iterator(store, estimate, targetSize);
    assert INITIAL_STATE.nextEventId == FirstIdOf(h, 0);
    SeekBoundary(h, 0);
    blobs, failures := [], 0;
    var i := 0;
    while i < |saves| && it.HasNext()
      invariant fresh(it) && it.store == store && it.estimate == estimate && it.targetSize == targetSize
      invariant i <= |saves| && |blobs| + failures == i
      invariant ReachableState(h, it.state)
      invariant blobs + Remaining(h, estimate, targetSize, it.state) == all
    {
      if saves[i] {
        var rebuilt := Iterator.FromState(store, estimate, targetSize, it.GetState());
        it := rebuilt.value;
      }
      ghost var before := it.state;
      var r := it.Next();
      EventConservesBlobs(h, estimate, targetSize, before, Called(r, it.state));
      if r.Delivered? {
        ConcatAssociates(blobs, [r.blob], Remaining(h, estimate, targetSize, it.state));
        blobs := blobs + [r.blob];
      } else {
        failures := failures + 1;
      }
      i := i + 1;
    }
    finished := !it.HasNext();
    HasNextMeansMore(h, estimate, targetSize, it.state);
  }

  /** With an empty history no blob is ever delivered and the iterator never finishes. */
  lemma {:induction false} EmptyHistoryNeverFinishes(est: Estimator, target: int, run: seq<RunEvent>)
    requires target > 0
    requires IsRun([], est, target, INITIAL_STATE, run)
    ensures DeliveredBlobs(run) == [] && FinalState(INITIAL_STATE, run) == INITIAL_STATE
    decreases |run|
  {
    if run != [] {
      EmptyHistoryNeverFinishes(est, target, run[1..]);
    }
  }
}
