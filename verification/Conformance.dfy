/** The in-memory store and the SQLite store give the same answers, call after call. */
module Conformance {
  import opened Schema
  import opened Relational
  import opened AlbumStats
  import opened MemStore
  import opened Listings
  import opened Text
  import JobQueue

  function Clamped(stats: map<StatKey, StatRow>): map<StatKey, AlbumStat> {
    map k | k in stats :: Clamp(k, stats[k])
  }

  function Scanned(codes: map<string, CodeRow>): map<string, PairingCode> {
    map h | h in codes :: ScanCode(h, codes[h])
  }

  /**
   * What ties a MemStore to a database: equal tables, the counters up to the clamp, used codes marked by a
   * time that is not 0.
   */
  ghost predicate Sim(db: Db, m: Mem) {
    && Sound(db) && Indexed(m.items, m.itemsByPath)
    && m.blobs == db.blobs && m.blobStates == db.blobStates && m.items == db.items
    && m.stats == Clamped(db.stats)
    && m.jobs == db.jobs && m.nextJobID == db.lastJobID && NumberedJobs(db.jobs, db.lastJobID)
    && m.devices == db.devices
    && CodesAgree(db.codes, m.pairingCodes)
  }

  ghost predicate CodesAgree(codes: map<string, CodeRow>, pairingCodes: map<string, PairingCode>) {
    pairingCodes == Scanned(codes) && forall h :: h in codes ==> codes[h].usedAt != Some(0)
  }

  predicate NumberedJobs(jobs: map<nat, Job>, lastJobID: nat) {
    forall id :: id in jobs ==> jobs[id].jobID == id && id <= lastJobID
  }

  predicate Numbered(db: Db) {
    NumberedJobs(db.jobs, db.lastJobID)
  }

  predicate NonNegative(r: StatRow) {
    r.latest.Some? && r.latest.value >= 0
  }

  /**
   * When both stores answer a call alike: an item that names a stored blob meets the schema's CHECK, and names a
   * known device or none unless its keys are taken anyway; counters that are read hold a capture time that is not
   * negative; and the clock does not show 0 when a code is burned.
   */
  ghost predicate Fits(db: Db, op: Op, now: int) {
    match op
    case OpInsertItem(it) => FitsItem(db, it)
    case OpAlbumStat(k) => k in db.stats ==> NonNegative(db.stats[k])
    case OpAlbumStats => AllNonNegative(db.stats)
    case OpDeriveAlbumStats => AllNonNegative(db.stats)
    case OpMarkPairingCodeUsed(_) => now != 0
    case _ => true
  }

  ghost predicate FitsItem(db: Db, it: Item) {
    it.hash in db.blobs ==>
      && 1 <= it.month <= 12
      && (it.deviceID == "" || it.deviceID in db.devices || it.itemID in db.items || PathTaken(db, it.relPath))
  }

  lemma PathIndex(db: Db, m: Mem, relPath: string)
    requires Indexed(m.items, m.itemsByPath) && m.items == db.items
    ensures relPath in m.itemsByPath <==> PathTaken(db, relPath)
  {
  }

  /** The answers to an insert agree exactly for the items that fit. */
  lemma InsertItemAgreesExactly(db: Db, m: Mem, it: Item)
    requires Sim(db, m)
    ensures InsertItemReply(m, it) == InsertItem(db, it).1 <==> FitsItem(db, it)
  {
    hide Sound, Clamped, CodesAgree, NumberedJobs, Indexed, PathTaken, AddToAlbumStats;
    assert it.relPath in m.itemsByPath <==> PathTaken(db, it.relPath) by { PathIndex(db, m, it.relPath); }
  }

  /** The answers to a counter read agree exactly when the latest capture is not negative. */
  lemma AlbumStatAgreesExactly(db: Db, m: Mem, k: StatKey)
    requires Sim(db, m)
    ensures (if k in m.stats then StatIs(m.stats[k]) else NotFound) == AlbumStatOf(db, k) <==>
            (k in db.stats ==> NonNegative(db.stats[k]))
  {
    hide CodesAgree, NumberedJobs, Indexed, Aggregate, UniquePaths;
    if k in db.stats {
      RowsHaveLatest(db, k);
    }
  }

  lemma RowsHaveLatest(db: Db, k: StatKey)
    requires Sound(db) && k in db.stats
    ensures db.stats[k].latest.Some? && db.stats[k].itemCount >= 1
    ensures db.stats[k] == Aggregate(db.items, db.blobs, k) && k in Keys(db.items)
  {
    hide Aggregate, Keys, UniquePaths;
    NonEmptyAggregate(db.items, db.blobs, k);
  }

  /** The clamp commutes with counting an item in ... */
  lemma ClampedAdd(stats: map<StatKey, StatRow>, it: Item, sizeBytes: int)
    requires KeyOf(it) in stats ==> stats[KeyOf(it)].latest.Some?
    ensures var k := KeyOf(it);
            Clamped(AddToAlbumStats(stats, k, sizeBytes, it.capturedAtMs)) ==
            Clamped(stats)[k := Counted(StatAt(Clamped(stats), k), it, sizeBytes)]
  {
  }

  /** ... and with counting it out again. */
  lemma ClampedRemove(stats: map<StatKey, StatRow>, rest: map<string, Item>, k: StatKey, sizeBytes: int)
    requires k in stats
    ensures Clamped(RemoveFromAlbumStats(stats, rest, k, sizeBytes)) == Uncounted(Clamped(stats), rest, k, sizeBytes)
  {
    hide LatestIn;
  }

  lemma InsertItemSim(db: Db, m: Mem, it: Item)
    requires Sim(db, m) && FitsItem(db, it) && InsertItemReply(m, it) == Done
    ensures Sim(InsertItem(db, it).0, m.(
              items := m.items[it.itemID := it], itemsByPath := m.itemsByPath[it.relPath := it.itemID],
              stats := m.stats[KeyOf(it) := Counted(StatAt(m.stats, KeyOf(it)), it, m.blobs[it.hash].sizeBytes)]))
  {
    hide Sound, Clamped, CodesAgree, NumberedJobs, Indexed, PathTaken, AddToAlbumStats;
    InsertItemAgreesExactly(db, m, it);
    InsertItemKeepsSound(db, it);
    IndexGrows(m.items, m.itemsByPath, it);
    if KeyOf(it) in db.stats {
      RowsHaveLatest(db, KeyOf(it));
    }
    ClampedAdd(db.stats, it, db.blobs[it.hash].sizeBytes);
  }

  lemma DeleteItemSim(db: Db, m: Mem, id: string)
    requires Sim(db, m) && id in m.items
    ensures m.items[id].hash in m.blobs
    ensures var it := m.items[id];
            Sim(DeleteItem(db, id).0, m.(
              items := m.items - {id}, itemsByPath := m.itemsByPath - {it.relPath},
              stats := Uncounted(m.stats, m.items - {id}, KeyOf(it), m.blobs[it.hash].sizeBytes)))
  {
    hide Clamped, CodesAgree, NumberedJobs, Indexed, RemoveFromAlbumStats, Uncounted, UniquePaths, Aggregate;
    var it := m.items[id];
    DeleteItemKeepsSound(db, id);
    IndexShrinks(m.items, m.itemsByPath, id);
    assert KeyOf(it) in Keys(db.items);
    ClampedRemove(db.stats, db.items - {id}, KeyOf(it), db.blobs[it.hash].sizeBytes);
  }

  /** Derived counters are the stored ones, on both sides. */
  lemma DerivedIsStored(db: Db, m: Mem)
    requires Sim(db, m)
    ensures m.stats == Derived(m.items, m.blobs) && DeriveAlbumStats(db) == Relational.AlbumStats(db)
  {
    hide Aggregate, CodesAgree, NumberedJobs, Indexed, UniquePaths, Keys, ScanRows, ListedKeys, Clamp;
    ExactIsDerived(db);
  }

  ghost predicate AllNonNegative(stats: map<StatKey, StatRow>) {
    forall k :: k in stats ==> NonNegative(stats[k])
  }

  lemma ClampedIsKeyed(stats: map<StatKey, StatRow>)
    ensures KeyedStats(Clamped(stats)) && Clamped(stats).Keys == stats.Keys
  {
  }

  lemma ClampsToScan(k: StatKey, r: StatRow)
    requires r.latest.Some?
    ensures Clamp(k, r) == Scan(k, r) <==> NonNegative(r)
  {
  }

  /** The two lists of counters, derived or stored, agree exactly when no latest capture is negative. */
  lemma StatListsAgreeExactly(db: Db, m: Mem, list: seq<AlbumStat>)
    requires Sim(db, m) && InOrder(list, StatRows(m.stats), StatBefore)
    ensures StatsAre(list) == Relational.AlbumStats(db) <==> AllNonNegative(db.stats)
    ensures StatsAre(list) == DeriveAlbumStats(db) <==> AllNonNegative(db.stats)
  {
    DerivedIsStored(db, m);
    assert m.stats == Clamped(db.stats) by { hide Sound, CodesAgree, NumberedJobs, Indexed; }
    ClampedIsKeyed(db.stats);
    StatsAreOrdered(m.stats);
    var keys := db.stats.Keys;
    var ks := ListedKeys(keys);
    forall k | k in keys
      ensures m.stats[k] == Clamp(k, db.stats[k]) && (m.stats[k] == Scan(k, db.stats[k]) <==> NonNegative(db.stats[k]))
    {
      RowsHaveLatest(db, k);
      ClampsToScan(k, db.stats[k]);
    }
    hide Sim, Clamp, Scan, NonNegative, KeyBefore, Sound, DeriveAlbumStats, Clamped;
    ListedByKey(m.stats, keys, ks, KeyBefore, StatRows(m.stats), list, StatBefore);
    ScannedList(db.stats, keys, ks, list);
  }

  lemma ScannedList(stats: map<StatKey, StatRow>, keys: set<StatKey>, ks: seq<StatKey>, list: seq<AlbumStat>)
    requires keys == stats.Keys && (forall k :: k in ks <==> k in keys) && |list| == |ks|
    requires forall i :: 0 <= i < |ks| ==>
               ks[i] in stats && (list[i] == Scan(ks[i], stats[ks[i]]) <==> NonNegative(stats[ks[i]]))
    ensures list == ScanRows(stats, ks) <==> AllNonNegative(stats)
  {
    hide Scan, NonNegative;
    if AllNonNegative(stats) {
      assert list == ScanRows(stats, ks);
    }
    if list == ScanRows(stats, ks) {
      forall k | k in stats
        ensures NonNegative(stats[k])
      {
        var i :| 0 <= i < |ks| && ks[i] == k;
        assert list[i] == ScanRows(stats, ks)[i];
      }
    }
  }

  lemma ItemListIsSame(db: Db, m: Mem, hash: string, list: seq<Item>)
    requires Sound(db) && m.items == db.items && InOrder(list, PlacementRows(m.items, hash), ItemBefore)
    ensures ItemsAre(list) == ItemsByHash(db, hash)
  {
    hide Lt, CountersExact, UniquePaths;
    var ids := Placements(db.items, hash);
    IdsAreOrdered(ids);
    ItemsAreOrdered(db.items, hash);
    var ks := Listed(ids, Lt);
    ListedByKey(db.items, ids, ks, Lt, PlacementRows(db.items, hash), list, ItemBefore);
    assert list == ItemRows(db.items, ks);
  }

  lemma JobListIsSame(db: Db, m: Mem, state: JobState, list: seq<Job>)
    requires Keyed(db.jobs) && m.jobs == db.jobs && InOrder(list, StateRows(m.jobs, state), JobBelow)
    ensures list == JobRows(db.jobs, Listed(InState(db.jobs, state), Below))
  {
    var ids := InState(db.jobs, state);
    JobsAreOrdered(db.jobs, state);
    var ks := Listed(ids, Below);
    ListedByKey(db.jobs, ids, ks, Below, StateRows(db.jobs, state), list, JobBelow);
  }

  // ------------------------------------------------------------------ jobs and pairing codes

  /** The scan finds the very row the ordered SELECT finds. */
  lemma ClaimIsSame(db: Db, now: int, r: Reply)
    requires NumberedJobs(db.jobs, db.lastJobID)
    requires r == NotFound ==> forall id: nat :: !Due(db.jobs, now, id)
    requires r.JobIs? ==> IsNext(db.jobs, now, r.job.jobID) && r.job == Claimed(db.jobs[r.job.jobID], now)
    requires r.JobIs? || r == NotFound
    ensures var (db2, reply) := ClaimJob(db, now);
            && reply == r && NumberedJobs(db2.jobs, db2.lastJobID)
            && db2 == if r.JobIs? then db.(jobs := db.jobs[r.job.jobID := r.job]) else db
  {
    hide Before, ClaimJob;
    JobQueue.ClaimTakesNext(db, now);
    if r.JobIs? {
      assert r.job.jobID in JobQueue.DueJobs(db.jobs, now);
      JobQueue.NextIsUnique(db.jobs, now, r.job.jobID, ClaimJob(db, now).1.job.jobID);
    }
  }

  lemma CodeAgrees(codes: map<string, CodeRow>, pairingCodes: map<string, PairingCode>, h: string)
    requires CodesAgree(codes, pairingCodes)
    ensures h in codes <==> h in pairingCodes
    ensures h in codes ==>
              && pairingCodes[h] == ScanCode(h, codes[h])
              && (codes[h].usedAt.Some? <==> pairingCodes[h].usedAtMs != 0)
  {
  }

  lemma RewrittenCodeAgrees(codes: map<string, CodeRow>, pairingCodes: map<string, PairingCode>, h: string,
                            row: CodeRow)
    requires CodesAgree(codes, pairingCodes) && row.usedAt != Some(0)
    ensures CodesAgree(codes[h := row], pairingCodes[h := ScanCode(h, row)])
  {
  }

  lemma SweptCodesAgree(codes: map<string, CodeRow>, pairingCodes: map<string, PairingCode>, before: int)
    requires CodesAgree(codes, pairingCodes)
    ensures MemStore.Expired(pairingCodes, before) == ExpiredCodes(codes, before)
    ensures CodesAgree(codes - ExpiredCodes(codes, before), pairingCodes - ExpiredCodes(codes, before))
  {
  }

  // ------------------------------------------------------------------ one call on both stores

  predicate OnBlobs(op: Op) {
    op.OpInsertBlob? || op.OpBlobByHash? || op.OpSetBlobState? || op.OpSetBlobStoredHash? || op.OpSetBlobMedia?
  }

  predicate OnItems(op: Op) {
    op.OpInsertItem? || op.OpItemByID? || op.OpItemByPath? || op.OpItemsByHash? || op.OpDeleteItem?
  }

  predicate OnStats(op: Op) {
    op.OpAlbumStat? || op.OpAlbumStats? || op.OpDeriveAlbumStats?
  }

  predicate OnJobs(op: Op) {
    op.OpCompleteJob? || op.OpFailJob? || op.OpJobByID? || op.OpJobsByState?
  }

  predicate OnQueue(op: Op) {
    op.OpEnqueueJob? || op.OpClaimJob? || op.OpRequeueRunningJobs?
  }

  predicate OnCodes(op: Op) {
    op.OpPairingCodeByHash? || op.OpMarkPairingCodeUsed? || op.OpIncrementPairingCodeAttempts?
  }

  predicate OnDevices(op: Op) {
    op.OpInsertDevice? || op.OpInsertPairingCode? || op.OpDeletePairingCodesBefore?
  }

  method ApplyToBlobs(m: MemStore, ghost db: Db, op: Op, now: int) returns (r: Reply)
    requires m.Valid() && Sim(db, m.State()) && OnBlobs(op)
    modifies m
    ensures m.Valid() && r == Exec(db, op, now).1 && Sim(Exec(db, op, now).0, m.State())
  {
    BlobWritesStaySim(db, op, now);
    hide Sound, Clamped, CodesAgree, NumberedJobs, Indexed;
    match op
    case OpInsertBlob(b) => r := m.InsertBlob(b);
    case OpBlobByHash(h) => r := m.BlobByHash(h);
    case OpSetBlobState(h, s) => r := m.SetBlobState(h, s);
    case OpSetBlobStoredHash(h, s) => r := m.SetBlobStoredHash(h, s, now);
    case OpSetBlobMedia(h, w, ht, d) => r := m.SetBlobMedia(h, w, ht, d);
  }

  lemma BlobWritesStaySim(db: Db, op: Op, now: int)
    requires Sound(db) && NumberedJobs(db.jobs, db.lastJobID) && OnBlobs(op)
    ensures Sound(Exec(db, op, now).0) && Numbered(Exec(db, op, now).0)
  {
    ExecKeepsSound(db, op, now);
    hide Sound;
  }

  method ApplyToItems(m: MemStore, ghost db: Db, op: Op, now: int) returns (r: Reply)
    requires m.Valid() && Sim(db, m.State()) && OnItems(op)
    requires op.OpInsertItem? ==> FitsItem(db, op.it)
    modifies m
    ensures m.Valid() && r == Exec(db, op, now).1 && Sim(Exec(db, op, now).0, m.State())
  {
    hide Sim, FitsItem, Indexed, InsertItem, DeleteItem, PathTaken, Uncounted, InOrder, ItemsByHash, KeyedStats, Sound;
    match op
    case OpInsertItem(it) =>
      InsertItemAgreesExactly(db, m.State(), it);
      if InsertItemReply(m.State(), it) == Done {
        InsertItemSim(db, m.State(), it);
      } else {
        RejectedInsert(db, it);
      }
      r := m.InsertItem(it);
    case OpItemByID(id) =>
      SimItems(db, m.State());
      r := m.ItemByID(id);
    case OpItemByPath(p) =>
      SimItems(db, m.State());
      r := m.ItemByPath(p);
      SameItemByPath(db, p, r);
    case OpItemsByHash(h) =>
      SimItems(db, m.State());
      r := m.ItemsByHash(h);
      ItemListIsSame(db, m.State(), h, r.items);
    case OpDeleteItem(id) =>
      SimItems(db, m.State());
      DeleteItemReply(db, id);
      if id in m.items {
        DeleteItemSim(db, m.State(), id);
      }
      r := m.DeleteItem(id);
  }

  lemma SimItems(db: Db, m: Mem)
    requires Sim(db, m)
    ensures m.items == db.items && Sound(db)
  {
    hide Sound, Clamped, CodesAgree, NumberedJobs, Indexed;
  }

  lemma RejectedInsert(db: Db, it: Item)
    requires InsertItem(db, it).1 != Done
    ensures InsertItem(db, it).0 == db
  {
    hide PathTaken, AddToAlbumStats;
  }

  lemma DeleteItemReply(db: Db, id: string)
    requires Sound(db)
    ensures DeleteItem(db, id).1 == if id in db.items then Done else NotFound
    ensures id !in db.items ==> DeleteItem(db, id).0 == db
  {
    hide RemoveFromAlbumStats, UniquePaths, CountersExact;
  }

  lemma SameItemByPath(db: Db, relPath: string, r: Reply)
    requires Sound(db)
    requires r.ItemIs? || r == NotFound
    requires r.ItemIs? ==> r.item.relPath == relPath && r.item.itemID in db.items && db.items[r.item.itemID] == r.item
    requires r == NotFound <==> forall id :: id in db.items ==> db.items[id].relPath != relPath
    ensures r == ItemByPath(db, relPath)
  {
    hide CountersExact;
  }

  method ApplyToStats(m: MemStore, ghost db: Db, op: Op, now: int) returns (r: Reply)
    requires m.Valid() && Sim(db, m.State()) && OnStats(op) && Fits(db, op, now)
    ensures r == Exec(db, op, now).1 && Exec(db, op, now).0 == db
  {
    hide Sim, Indexed, Derived, NonNegative, AllNonNegative, InOrder, StatRows, KeyedStats;
    match op
    case OpAlbumStat(k) =>
      AlbumStatAgreesExactly(db, m.State(), k);
      r := m.AlbumStat(k);
    case OpAlbumStats =>
      r := m.AlbumStats();
      StatListsAgreeExactly(db, m.State(), r.stats);
    case OpDeriveAlbumStats =>
      DerivedIsStored(db, m.State());
      r := m.DeriveAlbumStats();
      StatListsAgreeExactly(db, m.State(), r.stats);
  }

  method ApplyToJobs(m: MemStore, ghost db: Db, op: Op, now: int) returns (r: Reply)
    requires m.Valid() && Sim(db, m.State()) && OnJobs(op)
    modifies m
    ensures m.Valid() && r == Exec(db, op, now).1 && Sim(Exec(db, op, now).0, m.State())
  {
    JobWritesStaySound(db, op, now);
    hide Sound, Clamped, CodesAgree, Indexed, NumberedJobs;
    match op
    case OpCompleteJob(id) => r := m.CompleteJob(id, now);
    case OpFailJob(id, c, n, max) => r := m.FailJob(id, c, n, max, now);
    case OpJobByID(id) => r := m.JobByID(id);
    case OpJobsByState(st, n) => r := ApplyJobList(m, db, st, n);
  }

  method ApplyJobList(m: MemStore, ghost db: Db, state: JobState, limit: int) returns (r: Reply)
    requires m.Valid() && Keyed(db.jobs) && m.jobs == db.jobs
    ensures r == JobsByState(db, state, limit)
  {
    hide InOrder, StateRows, Indexed;
    r := m.JobsByState(state, limit);
    ghost var all :| InOrder(all, StateRows(m.jobs, state), JobBelow) && r.jobs == Limited(all, limit);
    JobListIsSame(db, m.State(), state, all);
  }

  method ApplyToQueue(m: MemStore, ghost db: Db, op: Op, now: int) returns (r: Reply)
    requires m.Valid() && Sim(db, m.State()) && OnQueue(op)
    modifies m
    ensures m.Valid() && r == Exec(db, op, now).1 && Sim(Exec(db, op, now).0, m.State())
  {
    JobWritesStaySound(db, op, now);
    hide Sound, Clamped, CodesAgree, Indexed, Requeued, ClaimJob, IsNext, NumberedJobs, Due;
    match op
    case OpEnqueueJob(j) =>
      var id := m.EnqueueJob(j, now);
      r := IdIs(id);
    case OpClaimJob =>
      r := m.ClaimJob(now);
      ClaimIsSame(db, now, r);
    case OpRequeueRunningJobs =>
      var moved := m.RequeueRunningJobs(now);
      r := Number(moved);
  }

  lemma JobWritesStaySound(db: Db, op: Op, now: int)
    requires Sound(db) && NumberedJobs(db.jobs, db.lastJobID) && (OnJobs(op) || OnQueue(op))
    ensures Sound(Exec(db, op, now).0)
    ensures !op.OpClaimJob? ==> Numbered(Exec(db, op, now).0)
  {
    ExecKeepsSound(db, op, now);
    hide Sound, ClaimJob;
  }

  /** Devices and pairing codes can change on both sides together; nothing else refers to them. */
  lemma SimWithCodes(db: Db, m: Mem, codes: map<string, CodeRow>, pairingCodes: map<string, PairingCode>)
    requires Sim(db, m) && CodesAgree(codes, pairingCodes)
    ensures Sim(db.(codes := codes), m.(pairingCodes := pairingCodes))
  {
    hide CodesAgree, Clamped, NumberedJobs, Indexed, CountersExact, UniquePaths;
    assert CountersExact(db) == CountersExact(db.(codes := codes)) by { SameCounters(db, db.(codes := codes)); }
  }

  lemma SimWithDevices(db: Db, m: Mem, devices: map<string, Device>)
    requires Sim(db, m)
    ensures Sim(db.(devices := devices), m.(devices := devices))
  {
    hide CodesAgree, Clamped, NumberedJobs, Indexed, CountersExact, UniquePaths;
    assert CountersExact(db) == CountersExact(db.(devices := devices)) by { SameCounters(db, db.(devices := devices)); }
  }

  lemma SameCounters(db: Db, db2: Db)
    requires db2.stats == db.stats && db2.items == db.items && db2.blobs == db.blobs
    ensures CountersExact(db) == CountersExact(db2)
  {
    hide Exact;
  }

  lemma SimParts(db: Db, m: Mem)
    requires Sim(db, m)
    ensures m.devices == db.devices && CodesAgree(db.codes, m.pairingCodes)
  {
    hide CodesAgree, Clamped, NumberedJobs, Indexed, Sound;
  }

  method ApplyToDevices(m: MemStore, ghost db: Db, op: Op, now: int) returns (r: Reply)
    requires m.Valid() && Sim(db, m.State()) && OnDevices(op)
    modifies m
    ensures m.Valid() && r == Exec(db, op, now).1 && Sim(Exec(db, op, now).0, m.State())
  {
    ghost var mem, codes, pairingCodes := m.State(), db.codes, m.pairingCodes;
    SimParts(db, mem);
    hide Sim, CodesAgree, Indexed, ExpiredCodes;
    match op
    case OpInsertDevice(d) =>
      SimWithDevices(db, mem, db.devices[d.deviceID := d]);
      r := m.InsertDevice(d);
    case OpInsertPairingCode(c) =>
      ghost var row := CodeRow(c.expiresAtMs, if c.usedAtMs == 0 then None else Some(c.usedAtMs), c.attempts);
      CodeAgrees(codes, pairingCodes, c.codeHash);
      RewrittenCodeAgrees(codes, pairingCodes, c.codeHash, row);
      SimWithCodes(db, mem, codes[c.codeHash := row], pairingCodes[c.codeHash := c]);
      r := m.InsertPairingCode(c);
    case OpDeletePairingCodesBefore(t) =>
      ghost var expired := ExpiredCodes(codes, t);
      SweptCodesAgree(codes, pairingCodes, t);
      SimWithCodes(db, mem, codes - expired, pairingCodes - expired);
      var removed := m.DeletePairingCodesBefore(t);
      r := Number(removed);
  }

  /** Burning an unspent code keeps the stores related exactly when the clock does not show 0. */
  lemma MarkStaysSimExactly(db: Db, m: Mem, h: string, now: int)
    requires Sim(db, m) && h in db.codes && db.codes[h].usedAt == None
    ensures h in m.pairingCodes && m.pairingCodes[h].usedAtMs == 0
    ensures Sim(MarkPairingCodeUsed(db, h, now).0,
                m.(pairingCodes := m.pairingCodes[h := m.pairingCodes[h].(usedAtMs := now)]))
            <==> now != 0
  {
    SimParts(db, m);
    CodeAgrees(db.codes, m.pairingCodes, h);
    var row := db.codes[h].(usedAt := Some(now));
    if now != 0 {
      hide Sim, CodesAgree;
      RewrittenCodeSim(db, m, h, row);
    } else {
      var db2 := MarkPairingCodeUsed(db, h, now).0;
      assert db2.codes[h].usedAt == Some(0);
      hide Sound, Clamped, NumberedJobs, Indexed;
    }
  }

  method ApplyMark(m: MemStore, ghost db: Db, h: string, now: int) returns (r: Reply)
    requires m.Valid() && Sim(db, m.State()) && now != 0
    modifies m
    ensures m.Valid() && r == MarkPairingCodeUsed(db, h, now).1 && Sim(MarkPairingCodeUsed(db, h, now).0, m.State())
  {
    ghost var mem := m.State();
    SimParts(db, mem);
    CodeAgrees(db.codes, mem.pairingCodes, h);
    if h in db.codes {
      RewrittenCodeSim(db, mem, h, db.codes[h].(usedAt := Some(now)));
    }
    hide Sim, CodesAgree, Indexed;
    r := m.MarkPairingCodeUsed(h, now);
  }

  method ApplyIncrement(m: MemStore, ghost db: Db, h: string) returns (r: Reply)
    requires m.Valid() && Sim(db, m.State())
    modifies m
    ensures m.Valid() && r == IncrementPairingCodeAttempts(db, h).1
    ensures Sim(IncrementPairingCodeAttempts(db, h).0, m.State())
  {
    ghost var mem := m.State();
    SimParts(db, mem);
    CodeAgrees(db.codes, mem.pairingCodes, h);
    if h in db.codes {
      CodeIsUnused(db.codes, mem.pairingCodes, h);
      RewrittenCodeSim(db, mem, h, db.codes[h].(attempts := db.codes[h].attempts + 1));
    }
    hide Sim, CodesAgree, Indexed;
    r := m.IncrementPairingCodeAttempts(h);
  }

  method ApplyToCodes(m: MemStore, ghost db: Db, op: Op, now: int) returns (r: Reply)
    requires m.Valid() && Sim(db, m.State()) && OnCodes(op) && (op.OpMarkPairingCodeUsed? ==> now != 0)
    modifies m
    ensures m.Valid() && r == Exec(db, op, now).1 && Sim(Exec(db, op, now).0, m.State())
  {
    hide Sim, MarkPairingCodeUsed, IncrementPairingCodeAttempts;
    match op
    case OpPairingCodeByHash(h) =>
      SimParts(db, m.State());
      CodeAgrees(db.codes, m.pairingCodes, h);
      r := m.PairingCodeByHash(h);
    case OpMarkPairingCodeUsed(h) => r := ApplyMark(m, db, h, now);
    case OpIncrementPairingCodeAttempts(h) => r := ApplyIncrement(m, db, h);
  }

  lemma RewrittenCodeSim(db: Db, m: Mem, h: string, row: CodeRow)
    requires Sim(db, m) && row.usedAt != Some(0)
    ensures Sim(db.(codes := db.codes[h := row]), m.(pairingCodes := m.pairingCodes[h := ScanCode(h, row)]))
  {
    SimParts(db, m);
    hide Sim, CodesAgree;
    RewrittenCodeAgrees(db.codes, m.pairingCodes, h, row);
    SimWithCodes(db, m, db.codes[h := row], m.pairingCodes[h := ScanCode(h, row)]);
  }

  lemma CodeIsUnused(codes: map<string, CodeRow>, pairingCodes: map<string, PairingCode>, h: string)
    requires CodesAgree(codes, pairingCodes) && h in codes
    ensures codes[h].usedAt != Some(0)
  {
  }

  /** One call that fits gets the same answer from both stores, and leaves them related. */
  method Apply(m: MemStore, ghost db: Db, op: Op, now: int) returns (r: Reply)
    requires m.Valid() && Sim(db, m.State()) && Fits(db, op, now)
    modifies m
    ensures m.Valid() && r == Exec(db, op, now).1 && Sim(Exec(db, op, now).0, m.State())
  {
    hide Sim, Exec;
    if OnBlobs(op) {
      r := ApplyToBlobs(m, db, op, now);
    } else if OnItems(op) {
      r := ApplyToItems(m, db, op, now);
    } else if OnStats(op) {
      r := ApplyToStats(m, db, op, now);
    } else if OnJobs(op) {
      r := ApplyToJobs(m, db, op, now);
    } else if OnQueue(op) {
      r := ApplyToQueue(m, db, op, now);
    } else if OnCodes(op) {
      r := ApplyToCodes(m, db, op, now);
    } else {
      r := ApplyToDevices(m, db, op, now);
    }
  }

  // ------------------------------------------------------------------ whole runs

  ghost predicate FitsAll(db: Db, calls: seq<Call>)
    decreases |calls|
  {
    calls == [] || (Fits(db, calls[0].op, calls[0].now) && FitsAll(Exec(db, calls[0].op, calls[0].now).0, calls[1..]))
  }

  /** Any sequence of calls that fit gets the same answers from both stores, one by one. */
  method Run(m: MemStore, ghost db: Db, calls: seq<Call>) returns (replies: seq<Reply>)
    requires m.Valid() && Sim(db, m.State()) && FitsAll(db, calls)
    modifies m
    ensures m.Valid() && replies == Replies(db, calls) && Sim(After(db, calls), m.State())
    decreases |calls|
  {
    hide Sim, Exec, Fits;
    if calls == [] {
      return [];
    }
    var reply := Apply(m, db, calls[0].op, calls[0].now);
    var rest := Run(m, Exec(db, calls[0].op, calls[0].now).0, calls[1..]);
    replies := [reply] + rest;
  }

  /**
   * What a caller can see to: items with a month of the calendar, a capture time that is not negative, and a
   * device that was registered before, or none; and a clock that does not show 0 when a code is burned.
   */
  predicate Plain(known: set<string>, calls: seq<Call>)
    decreases |calls|
  {
    calls == [] ||
    (&& (calls[0].op.OpMarkPairingCodeUsed? ==> calls[0].now != 0) && PlainOp(known, calls[0].op)
     && Plain(if calls[0].op.OpInsertDevice? then known + {calls[0].op.d.deviceID} else known, calls[1..]))
  }

  predicate PlainOp(known: set<string>, op: Op) {
    op.OpInsertItem? ==>
      1 <= op.it.month <= 12 && op.it.capturedAtMs >= 0 && (op.it.deviceID == "" || op.it.deviceID in known)
  }

  ghost predicate PlainItems(items: map<string, Item>) {
    forall id :: id in items ==> items[id].capturedAtMs >= 0
  }

  lemma PlainCountersFit(db: Db, k: StatKey)
    requires Sound(db) && PlainItems(db.items) && k in db.stats
    ensures NonNegative(db.stats[k])
  {
    hide UniquePaths, Keys;
    RowsHaveLatest(db, k);
  }

  lemma PlainOpFits(db: Db, known: set<string>, op: Op, now: int)
    requires Sound(db) && PlainItems(db.items) && known <= db.devices.Keys && PlainOp(known, op)
    requires op.OpMarkPairingCodeUsed? ==> now != 0
    ensures Fits(db, op, now)
  {
    hide Sound, NonNegative, PlainItems, PathTaken;
    forall k | k in db.stats
      ensures NonNegative(db.stats[k])
    {
      PlainCountersFit(db, k);
    }
  }

  lemma PlainOpKeeps(db: Db, known: set<string>, op: Op, now: int)
    requires PlainItems(db.items) && known <= db.devices.Keys && PlainOp(known, op)
    ensures PlainItems(Exec(db, op, now).0.items)
    ensures (if op.OpInsertDevice? then known + {op.d.deviceID} else known) <= Exec(db, op, now).0.devices.Keys
  {
    if op.OpInsertItem? || op.OpDeleteItem? {
      hide AddToAlbumStats, RemoveFromAlbumStats, PathTaken;
    } else {
      hide PlainItems, Exec;
      ItemsStay(db, op, now);
      DevicesGrow(db, op, now);
    }
  }

  lemma ItemsStay(db: Db, op: Op, now: int)
    requires !op.OpInsertItem? && !op.OpDeleteItem?
    ensures Exec(db, op, now).0.items == db.items
  {
    hide Exec;
    if op.OpInsertBlob? || op.OpSetBlobStoredHash? || op.OpSetBlobMedia? {
      BlobWrites(db, op, now);
    } else {
      OthersLeaveItems(db, op, now);
    }
  }

  lemma DevicesGrow(db: Db, op: Op, now: int)
    requires !op.OpInsertItem? && !op.OpDeleteItem?
    ensures db.devices.Keys <= Exec(db, op, now).0.devices.Keys
    ensures op.OpInsertDevice? ==> op.d.deviceID in Exec(db, op, now).0.devices.Keys
  {
    hide IsNext, Due, Requeued, ExpiredCodes, RunningJobs, AlbumStatOf, Scan, Aggregate, PathTaken, ItemByPath;
  }

  lemma {:induction false} PlainCallsFit(db: Db, known: set<string>, calls: seq<Call>)
    requires Sound(db) && PlainItems(db.items) && known <= db.devices.Keys && Plain(known, calls)
    ensures FitsAll(db, calls)
    decreases |calls|
  {
    if calls != [] {
      hide Sound, PlainItems, Exec, Fits, PlainOp;
      var op, now := calls[0].op, calls[0].now;
      PlainOpFits(db, known, op, now);
      PlainOpKeeps(db, known, op, now);
      ExecKeepsSound(db, op, now);
      PlainCallsFit(Exec(db, op, now).0, if op.OpInsertDevice? then known + {op.d.deviceID} else known, calls[1..]);
    }
  }

  /** Both stores, started empty, answer any sequence of plain calls alike. */
  method RunFromEmpty(calls: seq<Call>) returns (replies: seq<Reply>)
    requires Plain({}, calls)
    ensures replies == Replies(EMPTY_DB, calls)
  {
    EmptyStoresAgree();
    PlainCallsFit(EMPTY_DB, {}, calls);
    hide Sim, FitsAll, After, Replies, Plain;
    var m := new MemStore();
    replies := Run(m, EMPTY_DB, calls);
  }

  lemma EmptyStoresAgree()
    ensures Sound(EMPTY_DB) && Sim(EMPTY_DB, Mem(map[], map[], map[], map[], map[], map[], 0, map[], map[]))
  {
  }

  // ------------------------------------------------------------------ a run on which the stores part

  const PHOTO := Blob("h", 1, "image/jpeg", Image, "a/1969/12/f.jpg", "", None, 0, 0, 0, 1)

  /** Taken before 1970. */
  const OLD_ITEM := Item("itm_1", "h", "a", 1969, 12, "f.jpg", "a/1969/12/f.jpg", -1, 0, "", 1)

  const SETUP := [Call(OpInsertBlob(PHOTO), 1), Call(OpInsertItem(OLD_ITEM), 1)]

  const READ := Call(OpAlbumStat(StatKey("a", 1969, 12)), 1)

  /** Three calls, from two empty stores: the last is answered differently, by the latest capture. */
  method AnswersPart() returns (replies: seq<Reply>)
    ensures |replies| == 3 && |Replies(EMPTY_DB, SETUP + [READ])| == 3
    ensures replies[..2] == Replies(EMPTY_DB, SETUP + [READ])[..2]
    ensures replies[2] == StatIs(AlbumStat("a", 1969, 12, 1, 1, 0))
    ensures Replies(EMPTY_DB, SETUP + [READ])[2] == StatIs(AlbumStat("a", 1969, 12, 1, 1, -1))
  {
    EmptyStoresAgree();
    SetupFits();
    ghost var db := After(EMPTY_DB, SETUP);
    SetupAnswers();
    hide Sim, FitsAll, After, Replies;
    var m := new MemStore();
    replies := Run(m, EMPTY_DB, SETUP);
    SimCounters(db, m.State());
    var last := m.AlbumStat(READ.op.key);
    replies := replies + [last];
  }

  lemma SimCounters(db: Db, m: Mem)
    requires Sim(db, m)
    ensures m.stats == Clamped(db.stats)
  {
    hide Sound, Clamped, CodesAgree, NumberedJobs, Indexed;
  }

  lemma SetupFits()
    ensures FitsAll(EMPTY_DB, SETUP)
  {
    var db1 := Exec(EMPTY_DB, SETUP[0].op, 1).0;
    assert SETUP[1..] == [SETUP[1]] && SETUP[1..][1..] == [];
    assert Fits(db1, SETUP[1].op, 1);
  }

  lemma SetupAnswers()
    ensures After(EMPTY_DB, SETUP).stats == map[StatKey("a", 1969, 12) := StatRow(1, 1, Some(-1))]
    ensures Replies(EMPTY_DB, SETUP) == [Done, Done]
    ensures Replies(EMPTY_DB, SETUP + [READ]) == [Done, Done, StatIs(AlbumStat("a", 1969, 12, 1, 1, -1))]
  {
    var db1 := Exec(EMPTY_DB, SETUP[0].op, 1).0;
    var db2 := Exec(db1, SETUP[1].op, 1).0;
    assert db1.items == map[] && !PathTaken(db1, OLD_ITEM.relPath);
    assert db2.stats == map[StatKey("a", 1969, 12) := StatRow(1, 1, Some(-1))];
    TwoCalls(EMPTY_DB, SETUP[0], SETUP[1], READ);
    assert [SETUP[0], SETUP[1]] == SETUP && [SETUP[0], SETUP[1], READ] == SETUP + [READ];
  }

  lemma TwoCalls(db: Db, a: Call, b: Call, c: Call)
    ensures var (db1, ra) := Exec(db, a.op, a.now);
            var (db2, rb) := Exec(db1, b.op, b.now);
            && After(db, [a, b]) == db2 && Replies(db, [a, b]) == [ra, rb]
            && Replies(db, [a, b, c]) == [ra, rb, Exec(db2, c.op, c.now).1]
  {
    hide Exec;
    var (db1, ra) := Exec(db, a.op, a.now);
    var (db2, rb) := Exec(db1, b.op, b.now);
    FirstCall(db, [a, b]);
    FirstCall(db, [a, b, c]);
    FirstCall(db1, [b]);
    FirstCall(db1, [b, c]);
    FirstCall(db2, [c]);
    assert [a, b][1..] == [b] && [a, b, c][1..] == [b, c] && [b, c][1..] == [c] && [b][1..] == [] && [c][1..] == [];
    assert Replies(db2, []) == [] && After(db2, []) == db2;
  }

  lemma FirstCall(db: Db, calls: seq<Call>)
    requires calls != []
    ensures var (next, reply) := Exec(db, calls[0].op, calls[0].now);
            After(db, calls) == After(next, calls[1..]) && Replies(db, calls) == [reply] + Replies(next, calls[1..])
  {
    hide Exec;
  }
}
