/**
 * The SQLite store as relations: every operation is one transaction that commits or leaves the database as it
 * was. A nullable column is an Option where NULL is told apart from a value, and otherwise the zero value that
 * stands for it in Go.
 */
module Relational {
  import opened Schema
  import opened Folds
  import opened Listings
  import opened Text

  datatype BlobState = Stored | Missing

  datatype StatKey = StatKey(album: string, year: int, month: int)

  /** One row of album_stats. */
  datatype StatRow = StatRow(itemCount: int, sizeBytes: int, latest: Option<int>)

  /** AlbumStat as it is returned: NULL reads as 0. */
  datatype AlbumStat = AlbumStat(album: string, year: int, month: int, itemCount: int, sizeBytes: int,
                                 latestCapturedAtMs: int)

  datatype JobKind = Thumbnail | Transcode | Probe

  datatype JobState = Queued | Running | Finished | Failed

  datatype NewJob = NewJob(kind: JobKind, payload: string, priority: int, nextAttemptAtMs: int)

  datatype Job = Job(
    jobID: nat, kind: JobKind, payload: string, priority: int, state: JobState, attempts: int,
    nextAttemptAtMs: int, lastError: string, createdAt: int, updatedAt: int)

  datatype Device = Device(
    deviceID: string, name: string, tokenHash: string, platform: string, appVersionCode: int,
    createdAt: int, lastSeenAt: int, revokedAt: int)

  /** PairingCode as it is passed around: 0 means not used. */
  datatype PairingCode = PairingCode(codeHash: string, expiresAtMs: int, usedAtMs: int, attempts: int)

  /** One row of pairing_codes. */
  datatype CodeRow = CodeRow(expiresAt: int, usedAt: Option<int>, attempts: int)

  datatype Db = Db(
    blobs: map<string, Blob>, blobStates: map<string, BlobState>, items: map<string, Item>,
    stats: map<StatKey, StatRow>, jobs: map<nat, Job>, lastJobID: nat,
    devices: map<string, Device>, codes: map<string, CodeRow>)

  datatype Reply =
    | Done
    | NotFound
    | AlreadyExists
    | Constraint
    | BlobIs(blob: Blob)
    | ItemIs(item: Item)
    | StatIs(stat: AlbumStat)
    | StatsAre(stats: seq<AlbumStat>)
    | ItemsAre(items: seq<Item>)
    | JobsAre(jobs: seq<Job>)
    | JobIs(job: Job)
    | CodeIs(code: PairingCode)
    | IdIs(id: nat)
    | Number(n: int)

  // ------------------------------------------------------------------ blobs

  function InsertBlob(db: Db, b: Blob): (Db, Reply) {
    if b.hash in db.blobs then (db, AlreadyExists)
    else (db.(blobs := db.blobs[b.hash := b], blobStates := db.blobStates[b.hash := Stored]), Done)
  }

  function BlobByHash(db: Db, hash: string): Reply {
    if hash in db.blobs then BlobIs(db.blobs[hash]) else NotFound
  }

  function SetBlobState(db: Db, hash: string, state: BlobState): (Db, Reply) {
    if hash !in db.blobs then (db, NotFound)
    else (db.(blobStates := db.blobStates[hash := state]), Done)
  }

  function SetBlobStoredHash(db: Db, hash: string, storedHash: string, now: int): (Db, Reply) {
    if hash !in db.blobs then (db, NotFound)
    else (db.(blobs := db.blobs[hash := db.blobs[hash].(storedHash := storedHash, replacedAt := Some(now))]), Done)
  }

  function SetBlobMedia(db: Db, hash: string, width: int, height: int, durationMs: int): (Db, Reply) {
    if hash !in db.blobs then (db, NotFound)
    else (db.(blobs := db.blobs[hash := db.blobs[hash].(width := width, height := height, durationMs := durationMs)]),
          Done)
  }

  // ------------------------------------------------------------------ items and their counters

  function KeyOf(it: Item): StatKey {
    StatKey(it.album, it.year, it.month)
  }

  ghost predicate PathTaken(db: Db, relPath: string) {
    exists id :: id in db.items && db.items[id].relPath == relPath
  }

  /** INSERT ... ON CONFLICT DO UPDATE on the counter row. */
  function AddToAlbumStats(stats: map<StatKey, StatRow>, k: StatKey, sizeBytes: int,
                           capturedAtMs: int): map<StatKey, StatRow> {
    if k !in stats then stats[k := StatRow(1, sizeBytes, Some(capturedAtMs))]
    else
      var r := stats[k];
      var before := match r.latest case Some(l) => l case None => capturedAtMs;
      stats[k := StatRow(r.itemCount + 1, r.sizeBytes + sizeBytes,
                         Some(if before >= capturedAtMs then before else capturedAtMs))]
  }

  /** SELECT MAX(captured_at_ms) over one group: NULL for an empty one. */
  ghost function LatestIn(items: map<string, Item>, k: StatKey): Option<int> {
    var g := Group(items, k);
    if g == {} then None else Some(Max(id => Captured(items, id), g))
  }

  /** UPDATE of the counter row, then DELETE of one that has run empty. */
  ghost function RemoveFromAlbumStats(stats: map<StatKey, StatRow>, items: map<string, Item>, k: StatKey,
                                      sizeBytes: int): map<StatKey, StatRow> {
    if k !in stats then stats
    else
      var r := StatRow(stats[k].itemCount - 1, stats[k].sizeBytes - sizeBytes, LatestIn(items, k));
      if r.itemCount <= 0 then stats - {k} else stats[k := r]
  }

  /** An insert checks the row first (CHECK), then its keys (PRIMARY KEY, UNIQUE), then its reference to a device. */
  ghost function InsertItem(db: Db, it: Item): (Db, Reply) {
    if it.hash !in db.blobs then (db, NotFound)
    else if !(1 <= it.month <= 12) then (db, Constraint)
    else if it.itemID in db.items || PathTaken(db, it.relPath) then (db, AlreadyExists)
    else if it.deviceID != "" && it.deviceID !in db.devices then (db, Constraint)
    else (db.(items := db.items[it.itemID := it],
              stats := AddToAlbumStats(db.stats, KeyOf(it), db.blobs[it.hash].sizeBytes, it.capturedAtMs)), Done)
  }

  function ItemByID(db: Db, itemID: string): Reply {
    if itemID in db.items then ItemIs(db.items[itemID]) else NotFound
  }

  ghost function ItemByPath(db: Db, relPath: string): Reply {
    if PathTaken(db, relPath) then
      var id :| id in db.items && db.items[id].relPath == relPath;
      ItemIs(db.items[id])
    else NotFound
  }

  ghost function DeleteItem(db: Db, itemID: string): (Db, Reply) {
    if itemID !in db.items || db.items[itemID].hash !in db.blobs then (db, NotFound)
    else
      var it := db.items[itemID];
      var rest := db.items - {itemID};
      (db.(items := rest, stats := RemoveFromAlbumStats(db.stats, rest, KeyOf(it), db.blobs[it.hash].sizeBytes)), Done)
  }

  function Scan(k: StatKey, r: StatRow): AlbumStat {
    AlbumStat(k.album, k.year, k.month, r.itemCount, r.sizeBytes, match r.latest case Some(l) => l case None => 0)
  }

  function AlbumStatOf(db: Db, k: StatKey): Reply {
    if k in db.stats then StatIs(Scan(k, db.stats[k])) else NotFound
  }

  /** ORDER BY album, year DESC, month DESC. */
  predicate KeyBefore(a: StatKey, b: StatKey) {
    Lt(a.album, b.album) || (a.album == b.album && (a.year > b.year || (a.year == b.year && a.month > b.month)))
  }

  lemma KeysAreOrdered(keys: set<StatKey>)
    ensures Orders(KeyBefore, keys)
  {
    hide Lt;
    forall a, b | a in keys && b in keys
      ensures !KeyBefore(a, a) && (a != b ==> KeyBefore(a, b) || KeyBefore(b, a))
    {
      LtTotal(a.album, b.album);
    }
    forall a, b, c | a in keys && b in keys && c in keys && KeyBefore(a, b) && KeyBefore(b, c)
      ensures KeyBefore(a, c)
    {
      if Lt(a.album, b.album) && Lt(b.album, c.album) {
        LtTransitive(a.album, b.album, c.album);
      }
    }
  }

  lemma IdsAreOrdered(ids: set<string>)
    ensures Orders(Lt, ids)
  {
    hide Lt;
    forall a, b | a in ids && b in ids
      ensures !Lt(a, a) && (a != b ==> Lt(a, b) || Lt(b, a))
    {
      LtTotal(a, b);
    }
    forall a, b, c | a in ids && b in ids && c in ids && Lt(a, b) && Lt(b, c)
      ensures Lt(a, c)
    {
      LtTransitive(a, b, c);
    }
  }

  function ScanRows(stats: map<StatKey, StatRow>, keys: seq<StatKey>): seq<AlbumStat>
    requires forall k :: k in keys ==> k in stats
  {
    seq(|keys|, i requires 0 <= i < |keys| => Scan(keys[i], stats[keys[i]]))
  }

  ghost function ListedKeys(keys: set<StatKey>): (list: seq<StatKey>)
    ensures InOrder(list, keys, KeyBefore)
  {
    KeysAreOrdered(keys);
    Listed(keys, KeyBefore)
  }

  ghost function AlbumStats(db: Db): Reply {
    StatsAre(ScanRows(db.stats, ListedKeys(db.stats.Keys)))
  }

  function Placements(items: map<string, Item>, hash: string): set<string> {
    set id | id in items && items[id].hash == hash
  }

  function ItemRows(items: map<string, Item>, ids: seq<string>): seq<Item>
    requires forall id :: id in ids ==> id in items
  {
    seq(|ids|, i requires 0 <= i < |ids| => items[ids[i]])
  }

  /** ... WHERE hash = ? ORDER BY item_id. */
  ghost function ItemsByHash(db: Db, hash: string): Reply {
    var ids := Placements(db.items, hash);
    IdsAreOrdered(ids);
    ItemsAre(ItemRows(db.items, Listed(ids, Lt)))
  }

  // ------------------------------------------------------------------ the aggregate, from items and blobs

  /** The items of one album and month. */
  function Group(items: map<string, Item>, k: StatKey): set<string> {
    set id | id in items && KeyOf(items[id]) == k
  }

  function Captured(items: map<string, Item>, id: string): int {
    if id in items then items[id].capturedAtMs else 0
  }

  function Size(items: map<string, Item>, blobs: map<string, Blob>, id: string): int {
    if id in items && items[id].hash in blobs then blobs[items[id].hash].sizeBytes else 0
  }

  function Keys(items: map<string, Item>): set<StatKey> {
    set id | id in items :: KeyOf(items[id])
  }

  /** COUNT, SUM and MAX over one group. */
  ghost function Aggregate(items: map<string, Item>, blobs: map<string, Blob>, k: StatKey): StatRow {
    var g := Group(items, k);
    StatRow(|g|, Sum(id => Size(items, blobs, id), g), LatestIn(items, k))
  }

  ghost function Aggregates(items: map<string, Item>, blobs: map<string, Blob>): map<StatKey, StatRow> {
    map k | k in Keys(items) :: Aggregate(items, blobs, k)
  }

  /** SELECT ... FROM items JOIN blobs GROUP BY album, year, month ORDER BY album, year DESC, month DESC. */
  ghost function DeriveAlbumStats(db: Db): Reply {
    StatsAre(ScanRows(Aggregates(db.items, db.blobs), ListedKeys(Keys(db.items))))
  }

  // ------------------------------------------------------------------ jobs

  const PRIORITY_THUMBNAIL := 10
  const PRIORITY_TRANSCODE := 100

  function DefaultPriority(kind: JobKind): int {
    if kind.Thumbnail? then PRIORITY_THUMBNAIL else PRIORITY_TRANSCODE
  }

  function EnqueueJob(db: Db, j: NewJob, now: int): (Db, Reply) {
    var id := db.lastJobID + 1;
    var priority := if j.priority == 0 then DefaultPriority(j.kind) else j.priority;
    (db.(jobs := db.jobs[id := Job(id, j.kind, j.payload, priority, Queued, 0, j.nextAttemptAtMs, "", now, now)],
         lastJobID := id), IdIs(id))
  }

  predicate Due(jobs: map<nat, Job>, now: int, id: nat) {
    id in jobs && jobs[id].state == Queued && jobs[id].nextAttemptAtMs <= now
  }

  /** ORDER BY priority, next_attempt_at, job_id. */
  predicate Before(a: Job, b: Job) {
    if a.priority != b.priority then a.priority < b.priority
    else if a.nextAttemptAtMs != b.nextAttemptAtMs then a.nextAttemptAtMs < b.nextAttemptAtMs
    else a.jobID < b.jobID
  }

  /** The row the SELECT ... LIMIT 1 returns. */
  ghost predicate IsNext(jobs: map<nat, Job>, now: int, id: nat) {
    Due(jobs, now, id) && forall other: nat :: Due(jobs, now, other) && other != id ==> Before(jobs[id], jobs[other])
  }

  /** In the columns: the queued job that is due with the least priority, then next attempt, then number. */
  lemma NextIsLeast(jobs: map<nat, Job>, now: int, id: nat)
    requires Keyed(jobs)
    ensures IsNext(jobs, now, id) <==>
            && id in jobs && jobs[id].state == Queued && jobs[id].nextAttemptAtMs <= now
            && forall o :: o in jobs && jobs[o].state == Queued && jobs[o].nextAttemptAtMs <= now && o != id ==>
                 || jobs[id].priority < jobs[o].priority
                 || (jobs[id].priority == jobs[o].priority && jobs[id].nextAttemptAtMs < jobs[o].nextAttemptAtMs)
                 || (jobs[id].priority == jobs[o].priority && jobs[id].nextAttemptAtMs == jobs[o].nextAttemptAtMs
                     && id < o)
  {
    if IsNext(jobs, now, id) {
      forall o | o in jobs && jobs[o].state == Queued && jobs[o].nextAttemptAtMs <= now && o != id
        ensures Before(jobs[id], jobs[o])
      {
        assert Due(jobs, now, o);
      }
    }
  }

  function Claimed(j: Job, now: int): Job {
    j.(state := Running, attempts := j.attempts + 1, updatedAt := now)
  }

  ghost function ClaimJob(db: Db, now: int): (Db, Reply) {
    if exists id: nat :: IsNext(db.jobs, now, id) then
      var id: nat :| IsNext(db.jobs, now, id);
      (db.(jobs := db.jobs[id := Claimed(db.jobs[id], now)]), JobIs(Claimed(db.jobs[id], now)))
    else (db, NotFound)
  }

  function CompleteJob(db: Db, id: nat, now: int): (Db, Reply) {
    if id !in db.jobs then (db, NotFound)
    else (db.(jobs := db.jobs[id := db.jobs[id].(state := Finished, lastError := "", updatedAt := now)]), Done)
  }

  function FailJob(db: Db, id: nat, cause: string, next: int, maxAttempts: int, now: int): (Db, Reply) {
    if id !in db.jobs then (db, NotFound)
    else
      var j := db.jobs[id];
      var spent := j.attempts >= maxAttempts;
      (db.(jobs := db.jobs[id := j.(state := if spent then Failed else Queued, lastError := cause,
                                    nextAttemptAtMs := if spent then 0 else next, updatedAt := now)]), Done)
  }

  function RunningJobs(jobs: map<nat, Job>): set<nat> {
    set id | id in jobs && jobs[id].state == Running
  }

  function Requeued(jobs: map<nat, Job>, now: int): map<nat, Job> {
    map id | id in jobs :: Returned(jobs[id], now)
  }

  function Returned(j: Job, now: int): Job {
    if j.state == Running then j.(state := Queued, updatedAt := now) else j
  }

  function RequeueRunningJobs(db: Db, now: int): (Db, Reply) {
    (db.(jobs := Requeued(db.jobs, now)), Number(|RunningJobs(db.jobs)|))
  }

  function JobByID(db: Db, id: nat): Reply {
    if id in db.jobs then JobIs(db.jobs[id]) else NotFound
  }

  predicate Below(a: nat, b: nat) {
    a < b
  }

  function InState(jobs: map<nat, Job>, state: JobState): set<nat> {
    set id | id in jobs && jobs[id].state == state
  }

  function JobRows(jobs: map<nat, Job>, ids: seq<nat>): seq<Job>
    requires forall id :: id in ids ==> id in jobs
  {
    seq(|ids|, i requires 0 <= i < |ids| => jobs[ids[i]])
  }

  /** LIMIT, where a limit that is not positive is none. */
  function Limited<T>(list: seq<T>, limit: int): seq<T> {
    if 0 < limit < |list| then list[..limit] else list
  }

  /** ... WHERE state = ? ORDER BY job_id LIMIT ?. */
  ghost function JobsByState(db: Db, state: JobState, limit: int): Reply {
    JobsAre(Limited(JobRows(db.jobs, Listed(InState(db.jobs, state), Below)), limit))
  }

  predicate Keyed(jobs: map<nat, Job>) {
    forall id :: id in jobs ==> jobs[id].jobID == id
  }

  lemma BeforeIsStrict(a: Job, b: Job, c: Job)
    ensures !Before(a, a)
    ensures Before(a, b) || Before(b, a) || a.jobID == b.jobID
    ensures Before(a, b) ==> !Before(b, a)
    ensures Before(a, b) && Before(b, c) ==> Before(a, c)
  {
  }

  // ------------------------------------------------------------------ devices and pairing codes

  function InsertDevice(db: Db, d: Device): (Db, Reply) {
    if d.deviceID in db.devices then (db, AlreadyExists)
    else (db.(devices := db.devices[d.deviceID := d]), Done)
  }

  function InsertPairingCode(db: Db, c: PairingCode): (Db, Reply) {
    if c.codeHash in db.codes then (db, AlreadyExists)
    else (db.(codes := db.codes[c.codeHash :=
            CodeRow(c.expiresAtMs, if c.usedAtMs == 0 then None else Some(c.usedAtMs), c.attempts)]), Done)
  }

  function ScanCode(hash: string, r: CodeRow): PairingCode {
    PairingCode(hash, r.expiresAt, match r.usedAt case Some(t) => t case None => 0, r.attempts)
  }

  function PairingCodeByHash(db: Db, hash: string): Reply {
    if hash in db.codes then CodeIs(ScanCode(hash, db.codes[hash])) else NotFound
  }

  /** UPDATE ... WHERE used_at IS NULL, which burns a code at most once. */
  function MarkPairingCodeUsed(db: Db, hash: string, now: int): (Db, Reply) {
    if hash !in db.codes then (db, NotFound)
    else if db.codes[hash].usedAt.Some? then (db, AlreadyExists)
    else (db.(codes := db.codes[hash := db.codes[hash].(usedAt := Some(now))]), Done)
  }

  function IncrementPairingCodeAttempts(db: Db, hash: string): (Db, Reply) {
    if hash !in db.codes then (db, NotFound)
    else
      var r := db.codes[hash];
      (db.(codes := db.codes[hash := r.(attempts := r.attempts + 1)]), Number(r.attempts + 1))
  }

  function ExpiredCodes(codes: map<string, CodeRow>, before: int): set<string> {
    set h | h in codes && codes[h].expiresAt < before
  }

  function DeletePairingCodesBefore(db: Db, before: int): (Db, Reply) {
    (db.(codes := db.codes - ExpiredCodes(db.codes, before)), Number(|ExpiredCodes(db.codes, before)|))
  }

  // ------------------------------------------------------------------ any operation

  datatype Op =
    | OpInsertBlob(b: Blob)
    | OpBlobByHash(hash: string)
    | OpSetBlobState(hash: string, state: BlobState)
    | OpSetBlobStoredHash(hash: string, storedHash: string)
    | OpSetBlobMedia(hash: string, width: int, height: int, durationMs: int)
    | OpInsertItem(it: Item)
    | OpItemByID(itemID: string)
    | OpItemByPath(relPath: string)
    | OpItemsByHash(hash: string)
    | OpDeleteItem(itemID: string)
    | OpAlbumStat(key: StatKey)
    | OpAlbumStats
    | OpDeriveAlbumStats
    | OpEnqueueJob(j: NewJob)
    | OpClaimJob
    | OpCompleteJob(jobID: nat)
    | OpFailJob(jobID: nat, cause: string, next: int, maxAttempts: int)
    | OpRequeueRunningJobs
    | OpJobByID(jobID: nat)
    | OpJobsByState(inState: JobState, limit: int)
    | OpInsertDevice(d: Device)
    | OpInsertPairingCode(c: PairingCode)
    | OpPairingCodeByHash(hash: string)
    | OpMarkPairingCodeUsed(hash: string)
    | OpIncrementPairingCodeAttempts(hash: string)
    | OpDeletePairingCodesBefore(before: int)

  /** One operation at one instant: the database after it, and the answer. */
  ghost function Exec(db: Db, op: Op, now: int): (Db, Reply) {
    match op
    case OpInsertBlob(b) => InsertBlob(db, b)
    case OpBlobByHash(h) => (db, BlobByHash(db, h))
    case OpSetBlobState(h, s) => SetBlobState(db, h, s)
    case OpSetBlobStoredHash(h, s) => SetBlobStoredHash(db, h, s, now)
    case OpSetBlobMedia(h, w, ht, d) => SetBlobMedia(db, h, w, ht, d)
    case OpInsertItem(it) => InsertItem(db, it)
    case OpItemByID(id) => (db, ItemByID(db, id))
    case OpItemByPath(p) => (db, ItemByPath(db, p))
    case OpItemsByHash(h) => (db, ItemsByHash(db, h))
    case OpDeleteItem(id) => DeleteItem(db, id)
    case OpAlbumStat(k) => (db, AlbumStatOf(db, k))
    case OpAlbumStats => (db, AlbumStats(db))
    case OpDeriveAlbumStats => (db, DeriveAlbumStats(db))
    case OpEnqueueJob(j) => EnqueueJob(db, j, now)
    case OpClaimJob => ClaimJob(db, now)
    case OpCompleteJob(id) => CompleteJob(db, id, now)
    case OpFailJob(id, c, n, m) => FailJob(db, id, c, n, m, now)
    case OpRequeueRunningJobs => RequeueRunningJobs(db, now)
    case OpJobByID(id) => (db, JobByID(db, id))
    case OpJobsByState(st, n) => (db, JobsByState(db, st, n))
    case OpInsertDevice(d) => InsertDevice(db, d)
    case OpInsertPairingCode(c) => InsertPairingCode(db, c)
    case OpPairingCodeByHash(h) => (db, PairingCodeByHash(db, h))
    case OpMarkPairingCodeUsed(h) => MarkPairingCodeUsed(db, h, now)
    case OpIncrementPairingCodeAttempts(h) => IncrementPairingCodeAttempts(db, h)
    case OpDeletePairingCodesBefore(t) => DeletePairingCodesBefore(db, t)
  }

  const EMPTY_DB := Db(map[], map[], map[], map[], map[], 0, map[], map[])

  datatype Call = Call(op: Op, now: int)

  /** The database after a sequence of calls. */
  ghost function After(db: Db, calls: seq<Call>): Db
    decreases |calls|
  {
    if calls == [] then db else After(Exec(db, calls[0].op, calls[0].now).0, calls[1..])
  }

  /** The answers a sequence of calls gets. */
  ghost function Replies(db: Db, calls: seq<Call>): seq<Reply>
    decreases |calls|
  {
    if calls == [] then []
    else
      var (next, reply) := Exec(db, calls[0].op, calls[0].now);
      [reply] + Replies(next, calls[1..])
  }
}
