/** The in-memory store: maps, a hand-kept path index, and hand-kept counters. */
module MemStore {
  import opened Schema
  import opened Folds
  import opened Relational
  import opened AlbumStats
  import opened Listings
  import opened Text

  /** Everything a MemStore holds, as one value. */
  datatype Mem = Mem(
    blobs: map<string, Blob>, blobStates: map<string, BlobState>, items: map<string, Item>,
    itemsByPath: map<string, string>, stats: map<StatKey, AlbumStat>, jobs: map<nat, Job>, nextJobID: nat,
    devices: map<string, Device>, pairingCodes: map<string, PairingCode>)

  /** The path index points back from every item's path to the item, and nowhere else. */
  ghost predicate Indexed(items: map<string, Item>, itemsByPath: map<string, string>) {
    && (forall id :: id in items ==> items[id].relPath in itemsByPath && itemsByPath[items[id].relPath] == id)
    && (forall p :: p in itemsByPath ==> itemsByPath[p] in items && items[itemsByPath[p]].relPath == p)
  }

  /** A counter row as MemStore keeps it: the latest capture starts at 0 and only ever grows from there. */
  function Clamp(k: StatKey, r: StatRow): AlbumStat {
    AlbumStat(k.album, k.year, k.month, r.itemCount, r.sizeBytes, AtLeastZero(r.latest))
  }

  function AtLeastZero(latest: Option<int>): int {
    match latest
    case None => 0
    case Some(l) => if l > 0 then l else 0
  }

  /** A missing key reads as the zero value. */
  function StatAt(stats: map<StatKey, AlbumStat>, k: StatKey): AlbumStat {
    if k in stats then stats[k] else AlbumStat("", 0, 0, 0, 0, 0)
  }

  function Counted(st: AlbumStat, it: Item, sizeBytes: int): AlbumStat {
    AlbumStat(it.album, it.year, it.month, st.itemCount + 1, st.sizeBytes + sizeBytes,
              if it.capturedAtMs > st.latestCapturedAtMs then it.capturedAtMs else st.latestCapturedAtMs)
  }

  ghost function Derived(items: map<string, Item>, blobs: map<string, Blob>): map<StatKey, AlbumStat> {
    map k | k in Keys(items) :: Clamp(k, Aggregate(items, blobs, k))
  }

  /** Counting one more item is the clamped image of the relational upsert. */
  lemma CountedIsClamped(items: map<string, Item>, blobs: map<string, Blob>, it: Item)
    requires it.itemID !in items && it.hash in blobs
    ensures var k := KeyOf(it);
            Derived(items[it.itemID := it], blobs) ==
            Derived(items, blobs)[k := Counted(StatAt(Derived(items, blobs), k), it, blobs[it.hash].sizeBytes)]
  {
    hide Aggregate, Keys, Group;
    var key, items2 := KeyOf(it), items[it.itemID := it];
    AggregateAdds(items, blobs, it);
    KeysAdd(items, it.itemID, it);
    if key !in Keys(items) {
      EmptyAggregate(items, blobs, key);
    }
    forall k | k in Keys(items) && k != key
      ensures Aggregate(items2, blobs, k) == Aggregate(items, blobs, k)
    {
      AggregateOther(items, blobs, it, k);
    }
  }

  /**
   * The counters after an item has left a group: the row goes with the last item, else its latest capture is
   * looked up anew.
   */
  ghost function Uncounted(stats: map<StatKey, AlbumStat>, rest: map<string, Item>, k: StatKey,
                           sizeBytes: int): map<StatKey, AlbumStat> {
    var st := StatAt(stats, k);
    if st.itemCount - 1 <= 0 then stats - {k}
    else stats[k := st.(itemCount := st.itemCount - 1, sizeBytes := st.sizeBytes - sizeBytes,
                        latestCapturedAtMs := AtLeastZero(LatestIn(rest, k)))]
  }

  ghost predicate KeyedItems(items: map<string, Item>, blobs: map<string, Blob>) {
    forall id :: id in items ==> items[id].itemID == id && items[id].hash in blobs
  }

  lemma KeyedItemsStay(items: map<string, Item>, blobs: map<string, Blob>, it: Item, id: string)
    requires KeyedItems(items, blobs)
    ensures it.hash in blobs ==> KeyedItems(items[it.itemID := it], blobs)
    ensures KeyedItems(items - {id}, blobs)
  {
  }

  lemma IndexGrows(items: map<string, Item>, itemsByPath: map<string, string>, it: Item)
    requires Indexed(items, itemsByPath) && it.itemID !in items && it.relPath !in itemsByPath
    ensures Indexed(items[it.itemID := it], itemsByPath[it.relPath := it.itemID])
  {
  }

  lemma IndexShrinks(items: map<string, Item>, itemsByPath: map<string, string>, id: string)
    requires Indexed(items, itemsByPath) && id in items
    ensures Indexed(items - {id}, itemsByPath - {items[id].relPath})
  {
  }

  function StatKeyOf(st: AlbumStat): StatKey {
    StatKey(st.album, st.year, st.month)
  }

  ghost predicate KeyedStats(stats: map<StatKey, AlbumStat>) {
    forall k :: k in stats ==> StatKeyOf(stats[k]) == k
  }

  /** sortAlbumStats: album ascending, then newest month first. */
  predicate StatBefore(a: AlbumStat, b: AlbumStat) {
    KeyBefore(StatKeyOf(a), StatKeyOf(b))
  }

  predicate ItemBefore(a: Item, b: Item) {
    Lt(a.itemID, b.itemID)
  }

  predicate JobBelow(a: Job, b: Job) {
    a.jobID < b.jobID
  }

  function StatRows(stats: map<StatKey, AlbumStat>): set<AlbumStat> {
    Rows(stats, (st: AlbumStat) => true)
  }

  function PlacementRows(items: map<string, Item>, hash: string): set<Item> {
    Rows(items, (it: Item) => it.hash == hash)
  }

  function StateRows(jobs: map<nat, Job>, state: JobState): set<Job> {
    Rows(jobs, (j: Job) => j.state == state)
  }

  lemma StatsAreOrdered(stats: map<StatKey, AlbumStat>)
    requires KeyedStats(stats)
    ensures Orders(StatBefore, StatRows(stats))
  {
    hide KeyBefore;
    KeysAreOrdered(stats.Keys);
  }

  lemma ItemsAreOrdered(items: map<string, Item>, hash: string)
    requires forall id :: id in items ==> items[id].itemID == id
    ensures Orders(ItemBefore, PlacementRows(items, hash))
  {
    hide Lt;
    IdsAreOrdered(items.Keys);
  }

  lemma JobsAreOrdered(jobs: map<nat, Job>, state: JobState)
    requires Keyed(jobs)
    ensures Orders(JobBelow, StateRows(jobs, state))
  {
  }

  lemma CountedStaysKeyed(stats: map<StatKey, AlbumStat>, it: Item, sizeBytes: int)
    requires KeyedStats(stats)
    ensures KeyedStats(stats[KeyOf(it) := Counted(StatAt(stats, KeyOf(it)), it, sizeBytes)])
  {
  }

  lemma UncountedStaysKeyed(stats: map<StatKey, AlbumStat>, rest: map<string, Item>, k: StatKey, sizeBytes: int)
    requires KeyedStats(stats)
    ensures KeyedStats(Uncounted(stats, rest, k, sizeBytes))
  {
    hide LatestIn, AtLeastZero;
  }

  /** The answer of InsertItem: first the blob, then the id, then the path. */
  function InsertItemReply(m: Mem, it: Item): Reply {
    if it.hash !in m.blobs then NotFound
    else if it.itemID in m.items || it.relPath in m.itemsByPath then AlreadyExists
    else Done
  }

  // ------------------------------------------------------------------ the same, column by column

  /** The counters after one more item: its own row has grown, the others are as they were. */
  predicate OneMoreItem(was: map<StatKey, AlbumStat>, stats: map<StatKey, AlbumStat>, it: Item, sizeBytes: int) {
    var key := StatKey(it.album, it.year, it.month);
    var latest := if key in was then was[key].latestCapturedAtMs else 0;
    && key in stats && stats - {key} == was - {key}
    && stats[key].album == it.album && stats[key].year == it.year && stats[key].month == it.month
    && stats[key].itemCount == 1 + (if key in was then was[key].itemCount else 0)
    && stats[key].sizeBytes == sizeBytes + (if key in was then was[key].sizeBytes else 0)
    && stats[key].latestCapturedAtMs == if it.capturedAtMs > latest then it.capturedAtMs else latest
  }

  lemma CountedColumns(stats: map<StatKey, AlbumStat>, it: Item, sizeBytes: int)
    ensures OneMoreItem(stats, stats[KeyOf(it) := Counted(StatAt(stats, KeyOf(it)), it, sizeBytes)], it, sizeBytes)
  {
  }

  /** The items of an album and month. */
  function Members(items: map<string, Item>, album: string, year: int, month: int): set<string> {
    set id | id in items && items[id].album == album && items[id].year == year && items[id].month == month
  }

  /** The size of each item's blob. */
  function Sizes(items: map<string, Item>, blobs: map<string, Blob>): string -> int {
    id => if id in items && items[id].hash in blobs then blobs[items[id].hash].sizeBytes else 0
  }

  /** The greatest capture of some items, and not below 0. */
  predicate IsLatest(items: map<string, Item>, members: set<string>, latest: int) {
    && latest >= 0 && (forall id :: id in members && id in items ==> items[id].capturedAtMs <= latest)
    && (latest == 0 || exists id :: id in members && id in items && items[id].capturedAtMs == latest)
  }

  lemma LatestColumns(items: map<string, Item>, k: StatKey, latest: int)
    ensures AtLeastZero(LatestIn(items, k)) == latest <==>
            IsLatest(items, Members(items, k.album, k.year, k.month), latest)
  {
    var g := Group(items, k);
    assert g == Members(items, k.album, k.year, k.month);
    if g != {} {
      var m := Max(id => Captured(items, id), g);
      var top :| top in g && Captured(items, top) == m;
      assert forall id :: id in g ==> Captured(items, id) <= m;
    }
  }

  /** The counters after an item has gone: its row has shrunk, or gone with its last item. */
  ghost predicate OneItemLess(was: map<StatKey, AlbumStat>, stats: map<StatKey, AlbumStat>, it: Item, sizeBytes: int,
                              rest: map<string, Item>) {
    var key := StatKey(it.album, it.year, it.month);
    && stats - {key} == was - {key} && (key in stats <==> key in was && was[key].itemCount > 1)
    && (key in stats ==>
          && stats[key].itemCount == was[key].itemCount - 1 && stats[key].sizeBytes == was[key].sizeBytes - sizeBytes
          && stats[key].album == was[key].album && stats[key].year == was[key].year
          && stats[key].month == was[key].month
          && IsLatest(rest, Members(rest, it.album, it.year, it.month), stats[key].latestCapturedAtMs))
  }

  lemma UncountedColumns(stats: map<StatKey, AlbumStat>, rest: map<string, Item>, it: Item, sizeBytes: int)
    ensures OneItemLess(stats, Uncounted(stats, rest, KeyOf(it), sizeBytes), it, sizeBytes, rest)
  {
    hide AtLeastZero, LatestIn, Members, IsLatest;
    LatestColumns(rest, KeyOf(it), AtLeastZero(LatestIn(rest, KeyOf(it))));
  }

  /** COUNT, SUM and MAX of a group, as the in-memory store returns them. */
  ghost predicate IsDerived(items: map<string, Item>, blobs: map<string, Blob>, row: AlbumStat) {
    var members := Members(items, row.album, row.year, row.month);
    && members != {} && row.itemCount == |members| && row.sizeBytes == Sum(Sizes(items, blobs), members)
    && IsLatest(items, members, row.latestCapturedAtMs)
  }

  lemma DerivedColumns(items: map<string, Item>, blobs: map<string, Blob>, row: AlbumStat)
    ensures row in StatRows(Derived(items, blobs)) <==> IsDerived(items, blobs, row)
  {
    var k := StatKey(row.album, row.year, row.month);
    var members := Members(items, row.album, row.year, row.month);
    assert members == Group(items, k);
    if members != {} {
      var id :| id in members;
      assert KeyOf(items[id]) == k;
    }
    if k in Keys(items) {
      var id :| id in items && KeyOf(items[id]) == k;
      assert id in members;
    }
    SumSame((id: string) => Size(items, blobs, id), Sizes(items, blobs), members);
    LatestColumns(items, k, row.latestCapturedAtMs);
    hide AtLeastZero, LatestIn, IsLatest, Members;
    RowIsDerived(items, blobs, row, k);
  }

  lemma RowIsDerived(items: map<string, Item>, blobs: map<string, Blob>, row: AlbumStat, k: StatKey)
    requires k == StatKey(row.album, row.year, row.month)
    ensures row in StatRows(Derived(items, blobs)) <==>
            k in Keys(items) && row == Clamp(k, Aggregate(items, blobs, k))
  {
    hide Aggregate;
    var derived := Derived(items, blobs);
    if row in StatRows(derived) {
      var j :| j in derived && derived[j] == row;
      assert StatKeyOf(row) == j;
    }
    if k in Keys(items) {
      assert derived[k] in StatRows(derived);
    }
  }

  lemma RowsOf(stats: map<StatKey, AlbumStat>)
    ensures forall st :: st in StatRows(stats) <==> exists k :: k in stats && stats[k] == st
  {
  }

  /** ORDER BY album, year DESC, month DESC, in the columns. */
  lemma StatsByColumns(list: seq<AlbumStat>, rows: set<AlbumStat>)
    requires InOrder(list, rows, StatBefore)
    ensures forall row :: row in list <==> row in rows
    ensures forall i, j :: 0 <= i < j < |list| ==>
              || Lt(list[i].album, list[j].album)
              || (list[i].album == list[j].album && list[i].year > list[j].year)
              || (list[i].album == list[j].album && list[i].year == list[j].year && list[i].month > list[j].month)
  {
    hide Lt;
    forall i, j | 0 <= i < j < |list|
      ensures KeyBefore(StatKeyOf(list[i]), StatKeyOf(list[j]))
    {
      assert StatBefore(list[i], list[j]);
    }
  }

  lemma ItemsByColumns(list: seq<Item>, items: map<string, Item>, hash: string)
    requires InOrder(list, PlacementRows(items, hash), ItemBefore)
    requires forall id :: id in items ==> items[id].itemID == id
    ensures forall it :: it in list <==> it.itemID in items && items[it.itemID] == it && it.hash == hash
    ensures forall i, j :: 0 <= i < j < |list| ==> Lt(list[i].itemID, list[j].itemID)
  {
    hide Lt;
    forall i, j | 0 <= i < j < |list|
      ensures Lt(list[i].itemID, list[j].itemID)
    {
      assert ItemBefore(list[i], list[j]);
    }
  }

  lemma JobsByColumns(list: seq<Job>, jobs: map<nat, Job>, state: JobState)
    requires InOrder(list, StateRows(jobs, state), JobBelow) && Keyed(jobs)
    ensures forall j :: j in list <==> j.jobID in jobs && jobs[j.jobID] == j && j.state == state
    ensures forall i, j :: 0 <= i < j < |list| ==> list[i].jobID < list[j].jobID
  {
    forall i, j | 0 <= i < j < |list|
      ensures list[i].jobID < list[j].jobID
    {
      assert JobBelow(list[i], list[j]);
    }
  }

  class MemStore {
    var blobs: map<string, Blob>
    var blobStates: map<string, BlobState>
    var items: map<string, Item>
    var itemsByPath: map<string, string>
    var stats: map<StatKey, AlbumStat>
    var jobs: map<nat, Job>
    var nextJobID: nat
    var devices: map<string, Device>
    var pairingCodes: map<string, PairingCode>

    function State(): Mem
      reads this
    {
      Mem(blobs, blobStates, items, itemsByPath, stats, jobs, nextJobID, devices, pairingCodes)
    }

    ghost predicate Valid()
      reads this
    {
      && Indexed(items, itemsByPath) && KeyedItems(items, blobs)
      && Keyed(jobs) && KeyedStats(stats)
    }

    constructor ()
      ensures Valid()
      ensures State() == Mem(map[], map[], map[], map[], map[], map[], 0, map[], map[])
    {
      blobs, blobStates, items, itemsByPath, stats := map[], map[], map[], map[], map[];
      jobs, nextJobID, devices, pairingCodes := map[], 0, map[], map[];
    }

    // ---------------------------------------------------------------- blobs

    method BlobByHash(hash: string) returns (r: Reply)
      ensures r == if hash in blobs then BlobIs(blobs[hash]) else NotFound
    {
      r := if hash in blobs then BlobIs(blobs[hash]) else NotFound;
    }

    method InsertBlob(b: Blob) returns (r: Reply)
      requires Valid()
      modifies this`blobs, this`blobStates
      ensures Valid()
      ensures r == if b.hash in old(blobs) then AlreadyExists else Done
      ensures State() == if b.hash in old(blobs) then old(State()) else
                old(State()).(blobs := old(blobs)[b.hash := b], blobStates := old(blobStates)[b.hash := Stored])
    {
      if b.hash in blobs {
        return AlreadyExists;
      }
      blobs, blobStates := blobs[b.hash := b], blobStates[b.hash := Stored];
      r := Done;
    }

    method SetBlobState(hash: string, state: BlobState) returns (r: Reply)
      requires Valid()
      modifies this`blobStates
      ensures Valid()
      ensures r == if hash in old(blobs) then Done else NotFound
      ensures State() == if r == NotFound then old(State())
                else old(State()).(blobStates := old(blobStates)[hash := state])
    {
      if hash !in blobs {
        return NotFound;
      }
      blobStates := blobStates[hash := state];
      r := Done;
    }

    method SetBlobStoredHash(hash: string, storedHash: string, now: int) returns (r: Reply)
      requires Valid()
      modifies this`blobs
      ensures Valid()
      ensures r == if hash in old(blobs) then Done else NotFound
      ensures State() == if hash !in old(blobs) then old(State()) else
                old(State()).(blobs := old(blobs)[hash := old(blobs)[hash].(storedHash := storedHash,
                                                                            replacedAt := Some(now))])
    {
      if hash !in blobs {
        return NotFound;
      }
      blobs := blobs[hash := blobs[hash].(storedHash := storedHash, replacedAt := Some(now))];
      r := Done;
    }

    method SetBlobMedia(hash: string, width: int, height: int, durationMs: int) returns (r: Reply)
      requires Valid()
      modifies this`blobs
      ensures Valid()
      ensures r == if hash in old(blobs) then Done else NotFound
      ensures State() == if hash !in old(blobs) then old(State()) else
                old(State()).(blobs := old(blobs)[hash := old(blobs)[hash].(width := width, height := height,
                                                                            durationMs := durationMs)])
    {
      if hash !in blobs {
        return NotFound;
      }
      blobs := blobs[hash := blobs[hash].(width := width, height := height, durationMs := durationMs)];
      r := Done;
    }

    // ---------------------------------------------------------------- items and counters

    method InsertItem(it: Item) returns (r: Reply)
      requires Valid()
      modifies this`items, this`itemsByPath, this`stats
      ensures Valid()
      ensures r == InsertItemReply(old(State()), it)
      ensures r != Done ==> State() == old(State())
      ensures r == Done ==> State() == old(State()).(
                items := old(items)[it.itemID := it], itemsByPath := old(itemsByPath)[it.relPath := it.itemID],
                stats := old(stats)[KeyOf(it) := Counted(StatAt(old(stats), KeyOf(it)), it,
                                                         old(blobs)[it.hash].sizeBytes)])
      ensures r == if it.hash !in old(blobs) then NotFound
                   else if it.itemID in old(items)
                           || exists id :: id in old(items) && old(items)[id].relPath == it.relPath then AlreadyExists
                   else Done
      ensures r == Done ==> OneMoreItem(old(stats), stats, it, old(blobs)[it.hash].sizeBytes)
    {
      if it.hash !in blobs {
        return NotFound;
      }
      if it.itemID in items {
        return AlreadyExists;
      }
      if it.relPath in itemsByPath {
        return AlreadyExists;
      }
      IndexGrows(items, itemsByPath, it);
      CountedStaysKeyed(stats, it, blobs[it.hash].sizeBytes);
      KeyedItemsStay(items, blobs, it, "");
      CountedColumns(stats, it, blobs[it.hash].sizeBytes);
      hide OneMoreItem, Indexed, KeyedItems, KeyedStats, Keyed, Counted, StatAt;
      var b := blobs[it.hash];
      items := items[it.itemID := it];
      itemsByPath := itemsByPath[it.relPath := it.itemID];
      stats := Count(stats, it, b.sizeBytes);
      r := Done;
    }

    /** Takes one item into the counters. */
    static method Count(stats: map<StatKey, AlbumStat>, it: Item, sizeBytes: int)
      returns (stats2: map<StatKey, AlbumStat>)
      ensures stats2 == stats[KeyOf(it) := Counted(StatAt(stats, KeyOf(it)), it, sizeBytes)]
    {
      var key := StatKey(it.album, it.year, it.month);
      var st := StatAt(stats, key);
      st := st.(album := it.album, year := it.year, month := it.month);
      st := st.(itemCount := st.itemCount + 1, sizeBytes := st.sizeBytes + sizeBytes);
      if it.capturedAtMs > st.latestCapturedAtMs {
        st := st.(latestCapturedAtMs := it.capturedAtMs);
      }
      stats2 := stats[key := st];
    }

    method ItemByPath(relPath: string) returns (r: Reply)
      requires Valid()
      ensures r.ItemIs? || r == NotFound
      ensures r.ItemIs? ==> r.item.relPath == relPath && r.item.itemID in items && items[r.item.itemID] == r.item
      ensures r == NotFound <==> forall id :: id in items ==> items[id].relPath != relPath
    {
      if relPath !in itemsByPath {
        return NotFound;
      }
      r := ItemIs(items[itemsByPath[relPath]]);
    }

    method ItemByID(itemID: string) returns (r: Reply)
      ensures r == if itemID in items then ItemIs(items[itemID]) else NotFound
    {
      r := if itemID in items then ItemIs(items[itemID]) else NotFound;
    }

    method DeleteItem(itemID: string) returns (r: Reply)
      requires Valid()
      modifies this`items, this`itemsByPath, this`stats
      ensures Valid()
      ensures r == if itemID in old(items) then Done else NotFound
      ensures r == NotFound ==> State() == old(State())
      ensures r == Done ==>
                var it := old(items)[itemID];
                State() == old(State()).(
                  items := old(items) - {itemID}, itemsByPath := old(itemsByPath) - {it.relPath},
                  stats := Uncounted(old(stats), old(items) - {itemID}, KeyOf(it), old(blobs)[it.hash].sizeBytes))
      ensures r == Done ==>
                var it := old(items)[itemID];
                OneItemLess(old(stats), stats, it, old(blobs)[it.hash].sizeBytes, items)
    {
      if itemID !in items {
        return NotFound;
      }
      IndexShrinks(items, itemsByPath, itemID);
      KeyedItemsStay(items, blobs, items[itemID], itemID);
      hide OneItemLess, Indexed, LatestIn, AtLeastZero, Uncounted, KeyedStats, Keyed;
      var it := items[itemID];
      var b := blobs[it.hash];
      var key := StatKey(it.album, it.year, it.month);
      assert key == KeyOf(it);
      hide KeyedItems, KeyOf;
      items := items - {itemID};
      itemsByPath := itemsByPath - {it.relPath};
      UncountedStaysKeyed(stats, items, key, b.sizeBytes);
      UncountedColumns(stats, items, it, b.sizeBytes);
      stats := Uncount(stats, items, key, b.sizeBytes);
      r := Done;
    }

    /** Takes one item of the group out of the counters, given the items that are left. */
    static method Uncount(stats: map<StatKey, AlbumStat>, rest: map<string, Item>, key: StatKey, sizeBytes: int)
      returns (stats2: map<StatKey, AlbumStat>)
      ensures stats2 == Uncounted(stats, rest, key, sizeBytes)
    {
      hide LatestIn, AtLeastZero;
      var st := StatAt(stats, key);
      st := st.(itemCount := st.itemCount - 1, sizeBytes := st.sizeBytes - sizeBytes);
      if st.itemCount <= 0 {
        return stats - {key};
      }
      var latest := ScanLatest(rest, key);
      st := st.(latestCapturedAtMs := latest);
      stats2 := stats[key := st];
    }

    /** The loop that looks for the newest item left in a group, visiting the items in any order. */
    static method ScanLatest(items: map<string, Item>, key: StatKey) returns (latest: int)
      ensures latest == AtLeastZero(LatestIn(items, key))
    {
      latest := 0;
      var todo := items.Keys;
      while todo != {}
        invariant todo <= items.Keys && latest >= 0
        invariant forall id :: id in Group(items, key) && id !in todo ==> items[id].capturedAtMs <= latest
        invariant latest == 0 || exists id :: id in Group(items, key) && items[id].capturedAtMs == latest
        decreases |todo|
      {
        var id :| id in todo;
        todo := todo - {id};
        var other := items[id];
        if other.album == key.album && other.year == key.year && other.month == key.month &&
          other.capturedAtMs > latest {
          assert id in Group(items, key);
          latest := other.capturedAtMs;
        }
      }
    }

    method AlbumStat(key: StatKey) returns (r: Reply)
      ensures r == if key in stats then StatIs(stats[key]) else NotFound
    {
      r := if key in stats then StatIs(stats[key]) else NotFound;
    }

    /** Every counter row, sorted. */
    method AlbumStats() returns (r: Reply)
      requires Valid()
      ensures r.StatsAre? && InOrder(r.stats, StatRows(stats), StatBefore)
      ensures forall st :: st in r.stats <==> exists k :: k in stats && stats[k] == st
      ensures forall i, j :: 0 <= i < j < |r.stats| ==>
                var a, b := r.stats[i], r.stats[j];
                Lt(a.album, b.album)
                || (a.album == b.album && (a.year > b.year || (a.year == b.year && a.month > b.month)))
    {
      hide Rows;
      StatsAreOrdered(stats);
      var out := SortedRows(stats, (st: AlbumStat) => true, StatBefore);
      RowsOf(stats);
      StatsByColumns(out, StatRows(stats));
      r := StatsAre(out);
    }

    /** The items of one blob, sorted by id. */
    method ItemsByHash(hash: string) returns (r: Reply)
      requires Valid()
      ensures r.ItemsAre? && InOrder(r.items, PlacementRows(items, hash), ItemBefore)
      ensures forall it :: it in r.items <==> it.itemID in items && items[it.itemID] == it && it.hash == hash
      ensures forall i, j :: 0 <= i < j < |r.items| ==> Lt(r.items[i].itemID, r.items[j].itemID)
    {
      hide Rows, Indexed;
      ItemsAreOrdered(items, hash);
      var out := SortedRows(items, (it: Item) => it.hash == hash, ItemBefore);
      ItemsByColumns(out, items, hash);
      r := ItemsAre(out);
    }

    /** Recomputes every counter from the items, sorted. */
    method DeriveAlbumStats() returns (r: Reply)
      requires Valid()
      ensures r.StatsAre? && InOrder(r.stats, StatRows(Derived(items, blobs)), StatBefore)
      ensures forall i, j :: 0 <= i < j < |r.stats| ==>
                var a, b := r.stats[i], r.stats[j];
                Lt(a.album, b.album)
                || (a.album == b.album && (a.year > b.year || (a.year == b.year && a.month > b.month)))
      ensures forall st :: st in r.stats <==> IsDerived(items, blobs, st)
    {
      hide Rows, Indexed, Keys, Aggregate;
      var derived := Derive();
      StatsAreOrdered(derived);
      var out := SortedRows(derived, (st: AlbumStat) => true, StatBefore);
      StatsByColumns(out, StatRows(derived));
      hide IsLatest, Members, Sizes;
      forall st
        ensures st in StatRows(derived) <==> IsDerived(items, blobs, st)
      {
        DerivedColumns(items, blobs, st);
      }
      r := StatsAre(out);
    }

    /** One pass over the items, in any order. */
    method Derive() returns (derived: map<StatKey, AlbumStat>)
      requires Valid()
      ensures derived == Derived(items, blobs)
    {
      derived := map[];
      var todo := items.Keys;
      NothingDerived(items, blobs);
      hide Derived, Indexed;
      while todo != {}
        invariant todo <= items.Keys && derived == Derived(items - todo, blobs)
        decreases |todo|
      {
        var id :| id in todo;
        var it := items[id];
        OneMoreDerived(items, blobs, todo, id);
        todo := todo - {id};
        derived := Count(derived, it, blobs[it.hash].sizeBytes);
      }
      assert items - {} == items;
    }

    static lemma NothingDerived(items: map<string, Item>, blobs: map<string, Blob>)
      ensures Derived(items - items.Keys, blobs) == map[]
    {
      assert items - items.Keys == map[];
    }

    static lemma OneMoreDerived(items: map<string, Item>, blobs: map<string, Blob>, todo: set<string>, id: string)
      requires id in items && id in todo && items[id].itemID == id && items[id].hash in blobs
      ensures var before, k := Derived(items - todo, blobs), KeyOf(items[id]);
              Derived(items - (todo - {id}), blobs) ==
              before[k := Counted(StatAt(before, k), items[id], blobs[items[id].hash].sizeBytes)]
    {
      hide Derived;
      assert items - (todo - {id}) == (items - todo)[id := items[id]];
      CountedIsClamped(items - todo, blobs, items[id]);
    }

    // ---------------------------------------------------------------- jobs

    method EnqueueJob(j: NewJob, now: int) returns (id: nat)
      requires Valid()
      modifies this`jobs, this`nextJobID
      ensures Valid() && id == old(nextJobID) + 1
      ensures State() == old(State()).(nextJobID := id, jobs := old(jobs)[id := Job(
                id, j.kind, j.payload,
                if j.priority != 0 then j.priority else if j.kind == Thumbnail then 10 else 100,
                Queued, 0, j.nextAttemptAtMs, "", now, now)])
    {
      var priority := j.priority;
      if priority == 0 {
        priority := PRIORITY_TRANSCODE;
        if j.kind == Thumbnail {
          priority := PRIORITY_THUMBNAIL;
        }
      }
      nextJobID := nextJobID + 1;
      jobs := jobs[nextJobID := Job(nextJobID, j.kind, j.payload, priority, Queued, 0, j.nextAttemptAtMs, "", now,
                                    now)];
      id := nextJobID;
    }

    method ClaimJob(now: int) returns (r: Reply)
      requires Valid()
      modifies this`jobs
      ensures Valid()
      ensures r.JobIs? || r == NotFound
      ensures r == NotFound ==> State() == old(State()) && forall id: nat :: !Due(old(jobs), now, id)
      ensures r.JobIs? ==>
                var id := r.job.jobID;
                && IsNext(old(jobs), now, id) && r.job == Claimed(old(jobs)[id], now)
                && State() == old(State()).(jobs := old(jobs)[id := r.job])
      ensures r == NotFound <==>
              forall id :: id in old(jobs) ==> !(old(jobs)[id].state == Queued && old(jobs)[id].nextAttemptAtMs <= now)
      ensures r.JobIs? ==>
                && r.job.jobID in old(jobs)
                && var j := old(jobs)[r.job.jobID];
                   && j.state == Queued && j.nextAttemptAtMs <= now
                   && r.job == j.(state := Running, attempts := j.attempts + 1, updatedAt := now)
                   && forall o :: o in old(jobs) && old(jobs)[o].state == Queued && old(jobs)[o].nextAttemptAtMs <= now
                                  && o != j.jobID ==>
                        || j.priority < old(jobs)[o].priority
                        || (j.priority == old(jobs)[o].priority && j.nextAttemptAtMs < old(jobs)[o].nextAttemptAtMs)
                        || (j.priority == old(jobs)[o].priority && j.nextAttemptAtMs == old(jobs)[o].nextAttemptAtMs
                            && j.jobID < o)
    {
      var best := ScanForNext(jobs, now);
      if best.None? {
        return NotFound;
      }
      NextIsLeast(jobs, now, best.value.jobID);
      var claimed := best.value.(state := Running, attempts := best.value.attempts + 1, updatedAt := now);
      jobs := jobs[claimed.jobID := claimed];
      r := JobIs(claimed);
    }

    /** The scan that finds the job to claim, visiting the jobs in any order. */
    static method ScanForNext(jobs: map<nat, Job>, now: int) returns (best: Option<Job>)
      requires Keyed(jobs)
      ensures best.None? ==> forall id: nat :: !Due(jobs, now, id)
      ensures best.Some? ==> IsNext(jobs, now, best.value.jobID) && jobs[best.value.jobID] == best.value
      ensures best.None? <==>
              forall id :: id in jobs ==> !(jobs[id].state == Queued && jobs[id].nextAttemptAtMs <= now)
      ensures best.Some? ==>
                var j := best.value;
                && j.jobID in jobs && jobs[j.jobID] == j && j.state == Queued && j.nextAttemptAtMs <= now
                && forall o :: o in jobs && jobs[o].state == Queued && jobs[o].nextAttemptAtMs <= now
                               && o != j.jobID ==>
                     || j.priority < jobs[o].priority
                     || (j.priority == jobs[o].priority && j.nextAttemptAtMs < jobs[o].nextAttemptAtMs)
                     || (j.priority == jobs[o].priority && j.nextAttemptAtMs == jobs[o].nextAttemptAtMs && j.jobID < o)
    {
      hide Before;
      best := None;
      var todo := jobs.Keys;
      while todo != {}
        invariant todo <= jobs.Keys
        invariant best.None? ==> forall id :: id in jobs && id !in todo ==> !Due(jobs, now, id)
        invariant best.Some? ==>
                    && Due(jobs, now, best.value.jobID) && jobs[best.value.jobID] == best.value
                    && forall id :: id in jobs && id !in todo && Due(jobs, now, id) && id != best.value.jobID ==>
                         Before(best.value, jobs[id])
        decreases |todo|
      {
        var id :| id in todo;
        todo := todo - {id};
        var job := jobs[id];
        if job.state != Queued || job.nextAttemptAtMs > now {
          continue;
        }
        if best.None? {
          best := Some(job);
        } else if Before(job, best.value) {
          BeforeIsTransitive(job);
          best := Some(job);
        } else {
          BeforeIsStrict(best.value, job, job);
        }
      }
      if best.Some? {
        NextIsLeast(jobs, now, best.value.jobID);
      }
    }

    static lemma BeforeIsTransitive(a: Job)
      ensures forall b, c :: Before(a, b) && Before(b, c) ==> Before(a, c)
    {
      forall b, c | Before(a, b) && Before(b, c)
        ensures Before(a, c)
      {
        BeforeIsStrict(a, b, c);
      }
    }

    method CompleteJob(id: nat, now: int) returns (r: Reply)
      requires Valid()
      modifies this`jobs
      ensures Valid()
      ensures r == if id in old(jobs) then Done else NotFound
      ensures State() == if id !in old(jobs) then old(State()) else
                old(State()).(jobs := old(jobs)[id := old(jobs)[id].(state := Finished, lastError := "",
                                                                     updatedAt := now)])
    {
      if id !in jobs {
        return NotFound;
      }
      var job := jobs[id];
      job := job.(state := Finished, lastError := "", updatedAt := now);
      jobs := jobs[id := job];
      r := Done;
    }

    method FailJob(id: nat, cause: string, next: int, maxAttempts: int, now: int) returns (r: Reply)
      requires Valid()
      modifies this`jobs
      ensures Valid()
      ensures r == if id in old(jobs) then Done else NotFound
      ensures id !in old(jobs) ==> State() == old(State())
      ensures id in old(jobs) ==>
                var spent := old(jobs)[id].attempts >= maxAttempts;
                State() == old(State()).(jobs := old(jobs)[id := old(jobs)[id].(
                  state := if spent then Failed else Queued, nextAttemptAtMs := if spent then 0 else next,
                  lastError := cause, updatedAt := now)])
    {
      if id !in jobs {
        return NotFound;
      }
      var job := jobs[id];
      job := job.(lastError := cause, updatedAt := now);
      if job.attempts >= maxAttempts {
        job := job.(state := Failed, nextAttemptAtMs := 0);
      } else {
        job := job.(state := Queued, nextAttemptAtMs := next);
      }
      jobs := jobs[id := job];
      r := Done;
    }

    method JobByID(id: nat) returns (r: Reply)
      ensures r == if id in jobs then JobIs(jobs[id]) else NotFound
    {
      r := if id in jobs then JobIs(jobs[id]) else NotFound;
    }

    /** The jobs in one state, sorted by number, up to a limit if there is one. */
    method JobsByState(state: JobState, limit: int) returns (r: Reply)
      requires Valid()
      ensures r.JobsAre?
      ensures exists all :: InOrder(all, StateRows(jobs, state), JobBelow) && r.jobs == Limited(all, limit)
      ensures exists all: seq<Job> ::
                && (forall j :: j in all <==> j.jobID in jobs && jobs[j.jobID] == j && j.state == state)
                && (forall i, j :: 0 <= i < j < |all| ==> all[i].jobID < all[j].jobID)
                && r.jobs == if 0 < limit < |all| then all[..limit] else all
    {
      hide Rows, Indexed;
      JobsAreOrdered(jobs, state);
      var out := SortedRows(jobs, (j: Job) => j.state == state, JobBelow);
      JobsByColumns(out, jobs, state);
      if limit > 0 && |out| > limit {
        return JobsAre(out[..limit]);
      }
      r := JobsAre(out);
    }

    method RequeueRunningJobs(now: int) returns (moved: int)
      requires Valid()
      modifies this`jobs
      ensures Valid()
      ensures moved == |set id | id in old(jobs) && old(jobs)[id].state == Running|
      ensures State() == old(State()).(jobs := jobs) && jobs.Keys == old(jobs).Keys
      ensures forall id :: id in jobs ==>
                             var j := old(jobs)[id];
                             jobs[id] == if j.state == Running then j.(state := Queued, updatedAt := now) else j
      ensures moved == |RunningJobs(old(jobs))| && jobs == Requeued(old(jobs), now)
    {
      assert RunningJobs(jobs) == set id | id in jobs && jobs[id].state == Running;
      moved := RequeueLoop(now);
    }

    /** The loop over all jobs, in any order, that puts the running ones back. */
    method RequeueLoop(now: int) returns (moved: int)
      modifies this`jobs
      ensures moved == |RunningJobs(old(jobs))| && jobs == Requeued(old(jobs), now)
    {
      moved := 0;
      var todo := jobs.Keys;
      ghost var was, running := jobs, RunningJobs(jobs);
      assert running - todo == {} && Halfway(was, jobs, todo, now);
      hide Requeued, Halfway;
      while todo != {}
        invariant todo <= was.Keys && jobs.Keys == was.Keys
        invariant Halfway(was, jobs, todo, now)
        invariant moved == |running - todo|
        decreases |todo|
      {
        var id :| id in todo;
        TakeOut(running, todo, id);
        OneMore(was, jobs, todo, now, id);
        todo := todo - {id};
        var job := jobs[id];
        if job.state == Running {
          job := job.(state := Queued, updatedAt := now);
          jobs := jobs[id := job];
          moved := moved + 1;
        }
      }
      assert running - {} == running;
      AllDone(was, jobs, now);
    }

    /** The jobs that have been visited are returned to the queue, the others are as they were. */
    static ghost predicate Halfway(was: map<nat, Job>, jobs: map<nat, Job>, todo: set<nat>, now: int) {
      jobs.Keys == was.Keys
      && forall id :: id in was ==> jobs[id] == if id in todo then was[id] else Returned(was[id], now)
    }

    static lemma OneMore(was: map<nat, Job>, jobs: map<nat, Job>, todo: set<nat>, now: int, id: nat)
      requires Halfway(was, jobs, todo, now) && id in todo && id in was
      ensures jobs[id] == was[id] && (id in RunningJobs(was) <==> was[id].state == Running)
      ensures Halfway(was, jobs[id := Returned(was[id], now)], todo - {id}, now)
      ensures was[id].state != Running ==> Halfway(was, jobs, todo - {id}, now)
    {
    }

    static lemma AllDone(was: map<nat, Job>, jobs: map<nat, Job>, now: int)
      requires Halfway(was, jobs, {}, now)
      ensures jobs == Requeued(was, now)
    {
    }

    static lemma TakenOut<V>(m: map<string, V>, s: set<string>)
      requires s <= m.Keys
      ensures |m - s| == |m| - |s|
    {
      assert (m - s).Keys == m.Keys - s && |(m - s).Keys| == |m - s| && |m.Keys| == |m|;
    }

    static lemma TakeOut<T>(s: set<T>, todo: set<T>, x: T)
      requires x in todo
      ensures |s - (todo - {x})| == |s - todo| + if x in s then 1 else 0
    {
      if x in s {
        assert s - (todo - {x}) == (s - todo) + {x};
      } else {
        assert s - (todo - {x}) == s - todo;
      }
    }

    // ---------------------------------------------------------------- devices and pairing codes

    method InsertDevice(d: Device) returns (r: Reply)
      requires Valid()
      modifies this`devices
      ensures Valid()
      ensures r == if d.deviceID in old(devices) then AlreadyExists else Done
      ensures State() == if r == AlreadyExists then old(State())
                else old(State()).(devices := old(devices)[d.deviceID := d])
    {
      if d.deviceID in devices {
        return AlreadyExists;
      }
      devices := devices[d.deviceID := d];
      r := Done;
    }

    method InsertPairingCode(c: PairingCode) returns (r: Reply)
      requires Valid()
      modifies this`pairingCodes
      ensures Valid()
      ensures r == if c.codeHash in old(pairingCodes) then AlreadyExists else Done
      ensures State() == if r == AlreadyExists then old(State()) else
                old(State()).(pairingCodes := old(pairingCodes)[c.codeHash := c])
    {
      if c.codeHash in pairingCodes {
        return AlreadyExists;
      }
      pairingCodes := pairingCodes[c.codeHash := c];
      r := Done;
    }

    method PairingCodeByHash(hash: string) returns (r: Reply)
      ensures r == if hash in pairingCodes then CodeIs(pairingCodes[hash]) else NotFound
    {
      r := if hash in pairingCodes then CodeIs(pairingCodes[hash]) else NotFound;
    }

    method MarkPairingCodeUsed(hash: string, now: int) returns (r: Reply)
      requires Valid()
      modifies this`pairingCodes
      ensures Valid()
      ensures r == if hash !in old(pairingCodes) then NotFound
                   else if old(pairingCodes)[hash].usedAtMs != 0 then AlreadyExists else Done
      ensures State() == if r != Done then old(State()) else
                old(State()).(pairingCodes := old(pairingCodes)[hash := old(pairingCodes)[hash].(usedAtMs := now)])
    {
      if hash !in pairingCodes {
        return NotFound;
      }
      var pc := pairingCodes[hash];
      if pc.usedAtMs != 0 {
        return AlreadyExists;
      }
      pairingCodes := pairingCodes[hash := pc.(usedAtMs := now)];
      r := Done;
    }

    method IncrementPairingCodeAttempts(hash: string) returns (r: Reply)
      requires Valid()
      modifies this`pairingCodes
      ensures Valid()
      ensures r == if hash !in old(pairingCodes) then NotFound else Number(old(pairingCodes)[hash].attempts + 1)
      ensures State() == if r == NotFound then old(State()) else
                old(State()).(pairingCodes := old(pairingCodes)[hash :=
                  old(pairingCodes)[hash].(attempts := old(pairingCodes)[hash].attempts + 1)])
    {
      if hash !in pairingCodes {
        return NotFound;
      }
      var pc := pairingCodes[hash];
      pc := pc.(attempts := pc.attempts + 1);
      pairingCodes := pairingCodes[hash := pc];
      r := Number(pc.attempts);
    }

    static function Expired(codes: map<string, PairingCode>, before: int): set<string> {
      set h | h in codes && codes[h].expiresAtMs < before
    }

    method DeletePairingCodesBefore(before: int) returns (removed: int)
      requires Valid()
      modifies this`pairingCodes
      ensures Valid()
      ensures removed == |Expired(old(pairingCodes), before)|
      ensures State() == old(State()).(pairingCodes := old(pairingCodes) - Expired(old(pairingCodes), before))
      ensures forall h :: h in pairingCodes <==> h in old(pairingCodes) && old(pairingCodes)[h].expiresAtMs >= before
      ensures forall h :: h in pairingCodes ==> pairingCodes[h] == old(pairingCodes)[h]
      ensures removed == |old(pairingCodes)| - |pairingCodes|
    {
      removed := 0;
      var todo := pairingCodes.Keys;
      ghost var was, expired := pairingCodes, Expired(pairingCodes, before);
      assert expired - todo == {};
      while todo != {}
        invariant todo <= was.Keys && removed == |expired - todo|
        invariant forall h :: h in pairingCodes <==> h in was && (h in todo || h !in expired)
        invariant forall h :: h in pairingCodes ==> pairingCodes[h] == was[h]
        decreases |todo|
      {
        var hash :| hash in todo;
        TakeOut(expired, todo, hash);
        todo := todo - {hash};
        if pairingCodes[hash].expiresAtMs < before {
          pairingCodes := pairingCodes - {hash};
          removed := removed + 1;
        }
      }
      assert expired - {} == expired;
      assert pairingCodes == was - expired;
      TakenOut(was, expired);
    }
  }
}
