/** The cluster metadata cache (common/cluster/metadata.go): construction checks, the reverse index
    from initial versions to names, and the refresh that brings the cache in line with a store. */
module ClusterMetadata {
  import opened FailoverVersion
  import opened GoInt
  import opened Wrappers
  import PagingIterator

  // ----- the reverse index -----

  /** Each index entry picks one of the clusters with its version; distinct versions pick distinct
      clusters, so the index is as large as the cluster map exactly when no version repeats. */
  lemma IndexSizeDetectsDuplicates(clusters: Clusters, index: map<int, string>)
    requires IsReverseIndex(clusters, index)
    ensures |index| == |clusters| <==> DistinctVersions(clusters)
  {
    var picked := Picked(clusters, index);
    VersionsSize(clusters, index, picked);
    assert Versions(clusters, picked) == index.Keys by {
      forall v | v in index
        ensures v in Versions(clusters, picked)
      {
        assert index[v] in picked;
      }
    }
    if |index| == |clusters| {
      SubsetOfEqualSize(picked, clusters.Keys);
      assert forall a | a in clusters :: a in picked;
    }
    if DistinctVersions(clusters) {
      forall a | a in clusters
        ensures a in picked
      {
        var v := clusters[a].initialVersion;
        assert index[v] in clusters && clusters[index[v]].initialVersion == v;
      }
      assert picked == clusters.Keys;
    }
  }

  /** The clusters the index leads back to. */
  ghost function Picked(clusters: Clusters, index: map<int, string>): set<string> {
    set name | name in clusters && clusters[name].initialVersion in index
               && index[clusters[name].initialVersion] == name
  }

  ghost function Versions(clusters: Clusters, names: set<string>): set<int>
    requires names <= clusters.Keys
  {
    set name | name in names :: clusters[name].initialVersion
  }

  lemma {:induction false} VersionsSize(clusters: Clusters, index: map<int, string>, names: set<string>)
    requires names <= Picked(clusters, index)
    ensures |Versions(clusters, names)| == |names|
    decreases names
  {
    if names == {} {
      assert Versions(clusters, names) == {};
    } else {
      var name :| name in names;
      var v := clusters[name].initialVersion;
      VersionsSize(clusters, index, names - {name});
      assert v !in Versions(clusters, names - {name});
      assert Versions(clusters, names) == Versions(clusters, names - {name}) + {v};
    }
  }

  lemma {:induction false} SubsetOfEqualSize(a: set<string>, b: set<string>)
    requires a <= b && |a| == |b|
    ensures a == b
    decreases |a|
  {
    if a != {} {
      var x :| x in a;
      assert |a - {x}| == |a| - 1 && |b - {x}| == |b| - 1;
      SubsetOfEqualSize(a - {x}, b - {x});
      assert a == a - {x} + {x} && b == b - {x} + {x};
    }
  }

  /** Builds the reverse index, visiting the clusters in any order; a bad cluster panics. */
  method UpdateVersionToClusterName(clusters: Clusters, increment: int) returns (r: Option<map<int, string>>)
    ensures r.Some? <==> ValidClusters(increment, clusters)
    ensures r.Some? ==> IsReverseIndex(clusters, r.value)
  {
    var index: map<int, string> := map[];
    var todo := clusters.Keys;
    while todo != {}
      invariant todo <= clusters.Keys
      invariant forall name | name in clusters && name !in todo :: ValidCluster(increment, name, clusters[name])
      invariant forall v | v in index :: index[v] in clusters && clusters[index[v]].initialVersion == v
      invariant forall name | name in clusters && name !in todo :: clusters[name].initialVersion in index
      decreases |todo|
    {
      var name :| name in todo;
      todo := todo - {name};
      var info := clusters[name];
      if increment <= info.initialVersion || info.initialVersion <= 0 {
        return None;
      }
      if name == "" {
        return None;
      }
      index := index[info.initialVersion := name];
      if info.enabled && info.rpcAddress == "" {
        return None;
      }
    }
    return Some(index);
  }

  // ----- refresh as a function -----

  /** The fields whose change makes a refresh replace an entry. */
  predicate SameKeyFields(a: ClusterInfo, b: ClusterInfo) {
    a.enabled == b.enabled && a.rpcAddress == b.rpcAddress && a.initialVersion == b.initialVersion
  }

  /** The copy a refresh stores; it carries no cluster ID. */
  function Copied(info: ClusterInfo): ClusterInfo {
    info.(clusterId := "")
  }

  predicate Replaces(cache: Clusters, listing: Clusters, name: string)
    requires name in listing
  {
    name in cache ==> listing[name].version > cache[name].version && !SameKeyFields(listing[name], cache[name])
  }

  predicate Differs(cache: Clusters, listing: Clusters, name: string) {
    if name in listing then Replaces(cache, listing, name) else name in cache
  }

  /** The cache after a refresh against a listing. */
  function Refreshed(cache: Clusters, listing: Clusters): Clusters {
    map name | name in listing :: if Replaces(cache, listing, name) then Copied(listing[name]) else cache[name]
  }

  /** The cache holds the listed names, with the listed key fields. */
  ghost predicate Mirrors(cache: Clusters, listing: Clusters) {
    && cache.Keys == listing.Keys
    && forall name | name in listing :: SameKeyFields(cache[name], listing[name])
  }

  /** A refresh makes the cache mirror the listing exactly when every entry in both is either newer
      in the listing or has the same key fields. */
  lemma RefreshMirrorsExactly(cache: Clusters, listing: Clusters)
    ensures Mirrors(Refreshed(cache, listing), listing) <==>
            forall name | name in cache && name in listing ::
              listing[name].version > cache[name].version || SameKeyFields(cache[name], listing[name])
  {
    var after := Refreshed(cache, listing);
    if Mirrors(after, listing) {
      forall name | name in cache && name in listing
        ensures listing[name].version > cache[name].version || SameKeyFields(cache[name], listing[name])
      {
        assert SameKeyFields(after[name], listing[name]);
      }
    }
  }

  /** A cluster registered again under a version not above the cached one keeps its stale address. */
  lemma RestartedVersionStaysStale()
    ensures var cached := ClusterInfo(true, 1, "old:1", "", 4, 5);
            var listed := ClusterInfo(true, 1, "new:1", "", 4, 1);
            && Refreshed(map["a" := cached], map["a" := listed]) == map["a" := cached]
            && !Mirrors(Refreshed(map["a" := cached], map["a" := listed]), map["a" := listed])
  {
    var cached := ClusterInfo(true, 1, "old:1", "", 4, 5);
    var listed := ClusterInfo(true, 1, "new:1", "", 4, 1);
    assert "old:1"[0] != "new:1"[0];
    var listing := map["a" := listed];
    assert !SameKeyFields(cached, listing["a"]);
    assert !Replaces(map["a" := cached], listing, "a");
  }

  /** Refreshing again against the same listing changes nothing, with no assumption at all. */
  lemma RefreshIsIdempotent(cache: Clusters, listing: Clusters)
    ensures Refreshed(Refreshed(cache, listing), listing) == Refreshed(cache, listing)
    ensures forall name :: !Differs(Refreshed(cache, listing), listing, name)
  {
  }

  // ----- runs of refreshes against an evolving store -----

  /** A store row; deleted rows keep their place so that a later registration continues their
      version numbers. */
  datatype Row = Row(present: bool, info: ClusterInfo)

  type Book = map<string, Row>

  function Listing(book: Book): Clusters {
    map name | name in book && book[name].present :: book[name].info
  }

  /** The store's promise: versions never go down, and a change of key fields raises them. */
  ghost predicate Evolves(book: Book, book': Book) {
    && book.Keys <= book'.Keys
    && forall name | name in book ::
         && book[name].info.version <= book'[name].info.version
         && (SameKeyFields(book[name].info, book'[name].info) || book[name].info.version < book'[name].info.version)
  }

  /** No cached entry is ahead of the store, and at the same version the key fields agree. */
  ghost predicate Consistent(cache: Clusters, book: Book) {
    forall name | name in cache ::
      && name in book
      && cache[name].version <= book[name].info.version
      && (cache[name].version == book[name].info.version ==> SameKeyFields(cache[name], book[name].info))
  }

  datatype Event =
    | StoreChanged(book: Book)
    | RefreshDone
    | RefreshFailed  // the listing could not be read

  datatype World = World(cache: Clusters, book: Book)

  function Next(w: World, e: Event): World {
    match e
    case StoreChanged(book) => w.(book := book)
    case RefreshDone => w.(cache := Refreshed(w.cache, Listing(w.book)))
    case RefreshFailed => w
  }

  ghost predicate LegalRun(w: World, events: seq<Event>)
    decreases |events|
  {
    events != [] ==>
      && (events[0].StoreChanged? ==> Evolves(w.book, events[0].book))
      && LegalRun(Next(w, events[0]), events[1..])
  }

  function After(w: World, events: seq<Event>): World
    decreases |events|
  {
    if events == [] then w else After(Next(w, events[0]), events[1..])
  }

  lemma EventKeepsConsistent(w: World, e: Event)
    requires Consistent(w.cache, w.book)
    requires e.StoreChanged? ==> Evolves(w.book, e.book)
    ensures Consistent(Next(w, e).cache, Next(w, e).book)
    ensures e.RefreshDone? ==> Mirrors(Next(w, e).cache, Listing(w.book))
  {
    if e.RefreshDone? {
      RefreshMirrorsExactly(w.cache, Listing(w.book));
    }
  }

  /** Over every legal run from a consistent cache, each refresh leaves the cache mirroring the
      store, though the cached version and shard count may lag behind it. */
  lemma {:induction false} EveryRefreshMirrors(w: World, events: seq<Event>)
    requires Consistent(w.cache, w.book)
    requires LegalRun(w, events)
    ensures Consistent(After(w, events).cache, After(w, events).book)
    ensures events != [] && events[|events| - 1].RefreshDone? ==>
              Mirrors(After(w, events).cache, Listing(After(w, events).book))
    decreases |events|
  {
    if events != [] {
      EventKeepsConsistent(w, events[0]);
      EveryRefreshMirrors(Next(w, events[0]), events[1..]);
      if |events| > 1 {
        assert events[1..][|events| - 2] == events[|events| - 1];
      }
    }
  }

  /** A mirroring cache can lag in version and shard count: a newer row with the same key fields is
      skipped, by this refresh and by every later one against the same listing. */
  lemma SkippedRowLags(cached: ClusterInfo, listed: ClusterInfo, name: string)
    requires SameKeyFields(cached, listed) && cached.version < listed.version && cached.shardCount != listed.shardCount
    ensures var cache, listing := map[name := cached], map[name := listed];
            var after := Refreshed(cache, listing);
            && Mirrors(after, listing)
            && after[name].version < listing[name].version && after[name].shardCount != listing[name].shardCount
            && Refreshed(after, listing) == after
  {
    var cache, listing := map[name := cached], map[name := listed];
    assert !Replaces(cache, listing, name);
    RefreshIsIdempotent(cache, listing);
  }

  // ----- the object -----

  datatype Checked<T> = Ok(value: T) | Panicked

  datatype RefreshResult = Updated | ListingFailed(error: PagingIterator.Error) | RefreshPanicked

  datatype ListResult = Listed(clusters: Clusters) | ListError(error: PagingIterator.Error)

  /** A row of the store as the listing returns it. */
  datatype StoredRow = StoredRow(name: string, enabled: bool, initialVersion: int, address: string,
                                 shardCount: int, version: int)

  function InfoOf(row: StoredRow): ClusterInfo {
    ClusterInfo(row.enabled, row.initialVersion, row.address, "", row.shardCount, row.version)
  }

  /** Adding rows to a listing: of rows with the same name the last one stays. */
  function AddRows(clusters: Clusters, rows: seq<StoredRow>): Clusters
    decreases |rows|
  {
    if rows == [] then clusters else AddRows(clusters[rows[0].name := InfoOf(rows[0])], rows[1..])
  }

  function Collected(rows: seq<StoredRow>): Clusters {
    AddRows(map[], rows)
  }

  /** No later row has the name of this one. */
  ghost predicate LastOfName(rows: seq<StoredRow>, i: nat)
    requires i < |rows|
  {
    forall j | i < j < |rows| :: rows[j].name != rows[i].name
  }

  ghost predicate Names(rows: seq<StoredRow>, name: string) {
    exists i :: 0 <= i < |rows| && rows[i].name == name
  }

  lemma {:induction false} AddRowsMeaning(clusters: Clusters, rows: seq<StoredRow>)
    ensures forall i: nat | i < |rows| && LastOfName(rows, i) ::
              rows[i].name in AddRows(clusters, rows) && AddRows(clusters, rows)[rows[i].name] == InfoOf(rows[i])
    ensures forall name | !Names(rows, name) ::
              && (name in AddRows(clusters, rows) <==> name in clusters)
              && (name in clusters ==> AddRows(clusters, rows)[name] == clusters[name])
    ensures forall name | Names(rows, name) :: name in AddRows(clusters, rows)
    decreases |rows|
  {
    if rows != [] {
      var rest := rows[1..];
      AddRowsMeaning(clusters[rows[0].name := InfoOf(rows[0])], rest);
      forall i: nat | i < |rows| && LastOfName(rows, i)
        ensures rows[i].name in AddRows(clusters, rows) && AddRows(clusters, rows)[rows[i].name] == InfoOf(rows[i])
      {
        if i == 0 {
          assert !Names(rest, rows[0].name);
        } else {
          assert rest[i - 1] == rows[i] && LastOfName(rest, i - 1);
        }
      }
      forall name ensures Names(rows, name) <==> rows[0].name == name || Names(rest, name) {
        if Names(rest, name) {
          var i :| 0 <= i < |rest| && rest[i].name == name;
          assert rows[i + 1].name == name;
        }
        if Names(rows, name) && rows[0].name != name {
          var i :| 0 <= i < |rows| && rows[i].name == name;
          assert rest[i - 1].name == name;
        }
      }
    }
  }

  /** The cluster information says what the stored row says; the listing carries no cluster ID. */
  ghost predicate SaysRow(info: ClusterInfo, row: StoredRow) {
    && info.enabled == row.enabled && info.initialVersion == row.initialVersion && info.rpcAddress == row.address
    && info.shardCount == row.shardCount && info.version == row.version && info.clusterId == ""
  }

  /** Every stored row is listed, field by field, and nothing else is; of rows with the same name the
      last one is. */
  ghost predicate ListsRows(clusters: Clusters, rows: seq<StoredRow>) {
    && (forall i: nat | i < |rows| && LastOfName(rows, i) ::
          rows[i].name in clusters && SaysRow(clusters[rows[i].name], rows[i]))
    && (forall name :: name in clusters <==> Names(rows, name))
  }

  lemma CollectedHasEveryRow(rows: seq<StoredRow>)
    ensures ListsRows(Collected(rows), rows)
  {
    AddRowsMeaning(map[], rows);
  }

  /** The cache has no such cluster, or the row is newer and differs from it in a key field. */
  ghost predicate TakesOver(cache: Clusters, row: StoredRow) {
    row.name in cache ==>
      var info := cache[row.name];
      && row.version > info.version
      && (row.enabled != info.enabled || row.address != info.rpcAddress || row.initialVersion != info.initialVersion)
  }

  /** What a refresh makes of the stored rows: a row that takes over is cached field by field, any
      other leaves the cached entry, and clusters without a row are gone. */
  ghost predicate FollowsRows(before: Clusters, after: Clusters, rows: seq<StoredRow>) {
    && (forall name :: name in after <==> Names(rows, name))
    && (forall i: nat | i < |rows| && LastOfName(rows, i) ::
          && rows[i].name in after
          && (if TakesOver(before, rows[i]) then SaysRow(after[rows[i].name], rows[i])
              else rows[i].name in before && after[rows[i].name] == before[rows[i].name]))
  }

  lemma RefreshFollowsRows(cache: Clusters, rows: seq<StoredRow>)
    ensures FollowsRows(cache, Refreshed(cache, Collected(rows)), rows)
  {
    CollectedHasEveryRow(rows);
  }

  ghost function StoredRows(fn: PagingIterator.PaginationFn<StoredRow>, bound: nat): seq<StoredRow>
    requires PagingIterator.Ends(fn, [], bound)
  {
    PagingIterator.Flatten(PagingIterator.Pages(fn, [], bound))
  }

  /** What listing the store comes to: all rows of all pages, or the error of the chain. */
  ghost function ListingOf(fn: PagingIterator.PaginationFn<StoredRow>, bound: nat): ListResult
    requires PagingIterator.Ends(fn, [], bound)
  {
    match PagingIterator.ChainError(fn, [], bound)
    case Some(e) => ListError(e)
    case None => Listed(Collected(StoredRows(fn, bound)))
  }

  /** What the iterator delivers while listing: the rows left, then the error if there is one. */
  ghost function Feed(rows: seq<StoredRow>, error: Option<PagingIterator.Error>)
    : seq<PagingIterator.Delivery<StoredRow>>
  {
    PagingIterator.Items(rows) + (match error case None => [] case Some(e) => [PagingIterator.Failed(e)])
  }

  lemma FeedStep(rows: seq<StoredRow>, error: Option<PagingIterator.Error>,
                 x: PagingIterator.Delivery<StoredRow>, rest: seq<PagingIterator.Delivery<StoredRow>>)
    requires Feed(rows, error) == [x] + rest
    ensures if rows == [] then error.Some? && x == PagingIterator.Failed(error.value)
            else x == PagingIterator.Item(rows[0]) && rest == Feed(rows[1..], error)
  {
    assert Feed(rows, error)[0] == x;
    assert Feed(rows, error)[1..] == rest;
    if rows != [] {
      assert PagingIterator.Items(rows)[1..] == PagingIterator.Items(rows[1..]);
    }
  }

  /** The diff is right about one name: it has an entry exactly when the name is among those done
      and differs; the listed ones have a new entry and the cached ones an old one. */
  ghost predicate DiffAt(cache: Clusters, listing: Clusters, done: set<string>, name: string,
                         olds: map<string, Option<ClusterInfo>>, news: map<string, Option<ClusterInfo>>) {
    && (name in olds <==> name in done && Differs(cache, listing, name))
    && (name in news <==> name in olds)
    && (name in olds ==>
          && (olds[name].Some? <==> name in cache)
          && news[name] == if name in listing then Some(Copied(listing[name])) else None)
  }

  ghost predicate IsDiffOn(cache: Clusters, listing: Clusters, done: set<string>,
                           olds: map<string, Option<ClusterInfo>>, news: map<string, Option<ClusterInfo>>) {
    forall name: string :: DiffAt(cache, listing, done, name, olds, news)
  }

  ghost predicate IsDiff(cache: Clusters, listing: Clusters,
                         olds: map<string, Option<ClusterInfo>>, news: map<string, Option<ClusterInfo>>) {
    IsDiffOn(cache, listing, listing.Keys + cache.Keys, olds, news)
  }

  lemma ExtendDiff(cache: Clusters, listing: Clusters, done: set<string>, name: string,
                   olds: map<string, Option<ClusterInfo>>, news: map<string, Option<ClusterInfo>>,
                   o: Option<ClusterInfo>)
    requires IsDiffOn(cache, listing, done, olds, news)
    requires o.Some? <==> name in cache
    ensures var n := if name in listing then Some(Copied(listing[name])) else None;
            if Differs(cache, listing, name)
            then IsDiffOn(cache, listing, done + {name}, olds[name := o], news[name := n])
            else IsDiffOn(cache, listing, done + {name}, olds, news)
  {
    assert forall other: string :: DiffAt(cache, listing, done, other, olds, news);
    var n := if name in listing then Some(Copied(listing[name])) else None;
    if Differs(cache, listing, name) {
      var olds', news' := olds[name := o], news[name := n];
      forall other: string
        ensures DiffAt(cache, listing, done + {name}, other, olds', news')
      {
        assert DiffAt(cache, listing, done, other, olds, news);
      }
    } else {
      forall other: string
        ensures DiffAt(cache, listing, done + {name}, other, olds, news)
      {
        assert DiffAt(cache, listing, done, other, olds, news);
      }
    }
  }

  /** With no entry in the diff, a refresh changes nothing. */
  lemma DiffIsRefresh(cache: Clusters, listing: Clusters,
                      olds: map<string, Option<ClusterInfo>>, news: map<string, Option<ClusterInfo>>)
    requires IsDiff(cache, listing, olds, news)
    ensures |olds| == 0 ==> Refreshed(cache, listing) == cache
    ensures olds.Keys == news.Keys
    ensures forall name :: name in olds <==> Differs(cache, listing, name)
    ensures forall name | name in olds :: olds[name].Some? || news[name].Some?
  {
    forall name: string
      ensures name in olds <==> Differs(cache, listing, name)
      ensures name in olds <==> name in news
      ensures name in olds ==> olds[name].Some? || news[name].Some?
    {
      assert DiffAt(cache, listing, listing.Keys + cache.Keys, name, olds, news);
    }
    if |olds| == 0 {
      assert forall name | name in cache :: !Differs(cache, listing, name);
      assert forall name | name in listing :: !Differs(cache, listing, name);
      assert Refreshed(cache, listing).Keys == cache.Keys;
    }
  }

  /** Applying the diff to the cache is the refresh. */
  lemma AppliedDiff(cache: Clusters, listing: Clusters, olds: map<string, Option<ClusterInfo>>,
                    news: map<string, Option<ClusterInfo>>, after: Clusters)
    requires IsDiff(cache, listing, olds, news) && olds.Keys == news.Keys
    requires forall name | name in olds ::
               if news[name].None? then name !in after else name in after && after[name] == news[name].value
    requires forall name | name !in olds :: (name in after <==> name in cache)
    requires forall name | name !in olds && name in cache :: after[name] == cache[name]
    ensures after == Refreshed(cache, listing)
  {
    var refreshed := Refreshed(cache, listing);
    forall name: string
      ensures name in after <==> name in refreshed
      ensures name in after ==> after[name] == refreshed[name]
    {
      assert DiffAt(cache, listing, listing.Keys + cache.Keys, name, olds, news);
    }
  }

  /** What a configuration must say about its clusters: names are not empty, initial versions are
      positive, below the increment and all different, and an enabled cluster has an address. */
  ghost predicate SoundClusters(increment: int, clusters: Clusters) {
    && (forall name | name in clusters ::
          && name != "" && 1 <= clusters[name].initialVersion <= increment - 1
          && !(clusters[name].enabled && clusters[name].rpcAddress == ""))
    && (forall a, b | a in clusters && b in clusters && clusters[a].initialVersion == clusters[b].initialVersion :: a == b)
  }

  lemma SoundMeansValid(increment: int, clusters: Clusters)
    ensures SoundClusters(increment, clusters) <==> ValidClusters(increment, clusters) && DistinctVersions(clusters)
  {
    if SoundClusters(increment, clusters) {
      forall name | name in clusters ensures ValidCluster(increment, name, clusters[name]) {}
    }
    if ValidClusters(increment, clusters) {
      assert forall name | name in clusters :: ValidCluster(increment, name, clusters[name]);
    }
  }

  class Metadata {
    const increment: int
    const masterCluster: string
    const currentCluster: string
    var clusterInfo: Clusters
    var versionToClusterName: map<int, string>

    /** The index belongs to the cluster map. Distinctness is checked at construction only. */
    ghost predicate Valid()
      reads this
    {
      && 0 < increment <= MAX_INT32
      && ValidClusters(increment, clusterInfo)
      && IsReverseIndex(clusterInfo, versionToClusterName)
    }

    constructor (increment: int, masterCluster: string, currentCluster: string, clusters: Clusters, index: map<int, string>)
      requires 0 < increment <= MAX_INT32 && ValidClusters(increment, clusters) && IsReverseIndex(clusters, index)
      ensures Valid() && clusterInfo == clusters && this.increment == increment
      ensures this.masterCluster == masterCluster && this.currentCluster == currentCluster
    {
      this.increment, this.masterCluster, this.currentCluster := increment, masterCluster, currentCluster;
      clusterInfo, versionToClusterName := clusters, index;
    }

    /** Construction succeeds exactly on a sound configuration; every other one panics. */
    static method New(increment: int, masterCluster: string, currentCluster: string, clusters: Clusters)
      returns (r: Checked<Metadata>)
      ensures r.Ok? <==>
                && 0 < increment <= MAX_INT32
                && masterCluster in clusters && currentCluster in clusters
                && SoundClusters(increment, clusters)
      ensures r.Ok? ==> fresh(r.value) && r.value.Valid() && r.value.clusterInfo == clusters
                        && r.value.increment == increment
                        && r.value.masterCluster == masterCluster && r.value.currentCluster == currentCluster
    {
      SoundMeansValid(increment, clusters);
      if |clusters| == 0 {
        return Panicked;
      }
      if masterCluster == "" || currentCluster == "" {
        return Panicked;
      }
      if increment == 0 || increment > MAX_INT32 {
        return Panicked;
      }
      var index := UpdateVersionToClusterName(clusters, increment);
      if index.None? {
        return Panicked;
      }
      if currentCluster !in clusters || masterCluster !in clusters {
        return Panicked;
      }
      assert ValidCluster(increment, masterCluster, clusters[masterCluster]);
      IndexSizeDetectsDuplicates(clusters, index.value);
      if |index.value| != |clusters| {
        return Panicked;
      }
      var m := new Metadata(increment, masterCluster, currentCluster, clusters, index.value);
      return Ok(m);
    }

    /** Lists all rows of the store through the paging iterator; the first error ends it. */
    method ListAllClusterMetadata(fn: PagingIterator.PaginationFn<StoredRow>, ghost bound: nat) returns (r: ListResult)
      requires PagingIterator.Ends(fn, [], bound)
      ensures r == ListingOf(fn, bound)
      ensures r.Listed? ==> ListsRows(r.clusters, StoredRows(fn, bound))
    {
      CollectedHasEveryRow(StoredRows(fn, bound));
      var pager := new PagingIterator.Pager(fn, [], bound);
      PagingIterator.DeliveriesAreAllPages(fn, [], bound);
      r := CollectRows(pager, StoredRows(fn, bound), PagingIterator.ChainError(fn, [], bound));
    }

    /** The loop over the iterator. */
    static method CollectRows(pager: PagingIterator.Pager<StoredRow>, ghost rows: seq<StoredRow>,
                              ghost error: Option<PagingIterator.Error>) returns (r: ListResult)
      requires pager.Valid() && pager.Remaining() == Feed(rows, error)
      modifies pager
      ensures match error
              case Some(e) => r == ListError(e)
              case None => r == Listed(Collected(rows))
    {
      var result: Clusters := map[];
      ghost var left := rows;
      var more := pager.HasNext();
      while more
        invariant pager.Valid() && pager.Remaining() == Feed(left, error)
        invariant more == (pager.Remaining() != [])
        invariant AddRows(result, left) == Collected(rows)
        decreases |left|
      {
        var item := pager.Next();
        FeedStep(left, error, item.value, pager.Remaining());
        if item.value.Failed? {
          return ListError(item.value.error);
        }
        result := result[item.value.item.name := InfoOf(item.value.item)];
        left := left[1..];
        more := pager.HasNext();
      }
      return Listed(result);
    }

    /** Compares cache and listing into the old and new entries that differ; `None` is nil. */
    static method Diff(cache: Clusters, listing: Clusters)
      returns (olds: map<string, Option<ClusterInfo>>, news: map<string, Option<ClusterInfo>>)
      ensures IsDiff(cache, listing, olds, news)
    {
      olds, news := DiffListed(cache, listing);
      olds, news := DiffRemoved(cache, listing, olds, news);
    }

    /** The first loop: listed clusters that are new or changed. */
    static method DiffListed(cache: Clusters, listing: Clusters)
      returns (olds: map<string, Option<ClusterInfo>>, news: map<string, Option<ClusterInfo>>)
      ensures IsDiffOn(cache, listing, listing.Keys, olds, news)
    {
      olds, news := map[], map[];
      var todo := listing.Keys;
      ghost var done: set<string> := {};
      while todo != {}
        invariant listing.Keys == todo + done
        invariant IsDiffOn(cache, listing, done, olds, news)
        decreases |todo|
      {
        var name :| name in todo;
        todo := todo - {name};
        var info := listing[name];
        if name !in cache {
          ExtendDiff(cache, listing, done, name, olds, news, None);
          olds, news := olds[name := None], news[name := Some(Copied(info))];
        } else {
          ExtendDiff(cache, listing, done, name, olds, news, Some(Copied(cache[name])));
          if info.version > cache[name].version && !SameKeyFields(info, cache[name]) {
            olds, news := olds[name := Some(Copied(cache[name]))], news[name := Some(Copied(info))];
          }
        }
        done := done + {name};
      }
    }

    /** The second loop: cached clusters that are no longer listed. */
    static method DiffRemoved(cache: Clusters, listing: Clusters,
                              olds0: map<string, Option<ClusterInfo>>, news0: map<string, Option<ClusterInfo>>)
      returns (olds: map<string, Option<ClusterInfo>>, news: map<string, Option<ClusterInfo>>)
      requires IsDiffOn(cache, listing, listing.Keys, olds0, news0)
      ensures IsDiff(cache, listing, olds, news)
    {
      olds, news := olds0, news0;
      ghost var done := listing.Keys;
      var todo := cache.Keys;
      while todo != {}
        invariant forall name | name in todo :: name in cache
        invariant forall name | name in cache :: name in todo || name in done
        invariant forall name | name in listing :: name in done
        invariant forall name | name in done :: name in listing || name in cache
        invariant IsDiffOn(cache, listing, done, olds, news)
        decreases |todo|
      {
        var name :| name in todo;
        todo := todo - {name};
        if name !in listing {
          ExtendDiff(cache, listing, done, name, olds, news, Some(cache[name]));
          olds, news := olds[name := Some(cache[name])], news[name := None];
          done := done + {name};
        }
      }
      assert done == listing.Keys + cache.Keys;
    }

    /** Applies a diff to the cluster map: an old entry without a new one is deleted, every other
        entry is stored. */
    method UpdateClusterInfoLocked(olds: map<string, Option<ClusterInfo>>, news: map<string, Option<ClusterInfo>>)
      requires olds.Keys == news.Keys
      requires forall name | name in olds :: olds[name].Some? || news[name].Some?
      modifies this`clusterInfo
      ensures forall name | name in olds ::
                if news[name].None? then name !in clusterInfo
                else name in clusterInfo && clusterInfo[name] == news[name].value
      ensures forall name | name !in olds :: (name in clusterInfo <==> name in old(clusterInfo))
      ensures forall name | name !in olds && name in old(clusterInfo) :: clusterInfo[name] == old(clusterInfo)[name]
    {
      var todo := olds.Keys;
      while todo != {}
        invariant todo <= olds.Keys
        invariant forall name | name in olds && name !in todo ::
                    if news[name].None? then name !in clusterInfo
                    else name in clusterInfo && clusterInfo[name] == news[name].value
        invariant forall name | name !in olds || name in todo ::
                    (name in clusterInfo <==> name in old(clusterInfo))
        invariant forall name | (name !in olds || name in todo) && name in old(clusterInfo) ::
                    clusterInfo[name] == old(clusterInfo)[name]
        decreases |todo|
      {
        var name :| name in todo;
        todo := todo - {name};
        if olds[name].Some? && news[name].None? {
          clusterInfo := clusterInfo - {name};
        } else {
          clusterInfo := clusterInfo[name := news[name].value];
        }
      }
    }

    /** One refresh. A failed listing changes nothing; otherwise the cluster map becomes the
        refreshed one, and the reverse index follows unless a bad row panics first. */
    method RefreshClusterMetadata(fn: PagingIterator.PaginationFn<StoredRow>, ghost bound: nat) returns (r: RefreshResult)
      requires Valid() && PagingIterator.Ends(fn, [], bound)
      modifies this
      ensures match ListingOf(fn, bound)
              case ListError(e) =>
                && r == ListingFailed(e) && Valid()
                && clusterInfo == old(clusterInfo) && versionToClusterName == old(versionToClusterName)
              case Listed(listing) =>
                && clusterInfo == Refreshed(old(clusterInfo), listing)
                && FollowsRows(old(clusterInfo), clusterInfo, StoredRows(fn, bound))
                && (r == Updated || r == RefreshPanicked)
                && (r == Updated <==> ValidClusters(increment, clusterInfo))
                && (r == Updated ==> Valid())
                && ((forall name :: !Differs(old(clusterInfo), listing, name)) ==>
                      r == Updated && versionToClusterName == old(versionToClusterName))
    {
      var listed := ListAllClusterMetadata(fn, bound);
      if listed.ListError? {
        return ListingFailed(listed.error);
      }
      var cache := clusterInfo;
      RefreshFollowsRows(cache, StoredRows(fn, bound));
      var olds, news := Diff(cache, listed.clusters);
      DiffIsRefresh(cache, listed.clusters, olds, news);
      if |olds| > 0 {
        UpdateClusterInfoLocked(olds, news);
        AppliedDiff(cache, listed.clusters, olds, news, clusterInfo);
        var index := UpdateVersionToClusterName(clusterInfo, increment);
        if index.None? {
          return RefreshPanicked;
        }
        versionToClusterName := index.value;
      }
      return Updated;
    }
  }
}
