/** album_stats is a cache: whatever happens, it equals the aggregate over items and blobs. */
module AlbumStats {
  import opened Schema
  import opened Folds
  import opened Relational

  /** What every transaction keeps: keys and references are sound, and the counters are exact. */
  ghost predicate Sound(db: Db) {
    && (forall id :: id in db.items ==> db.items[id].itemID == id && db.items[id].hash in db.blobs)
    && (forall h :: h in db.blobs ==> db.blobs[h].hash == h)
    && UniquePaths(db.items)
    && CountersExact(db)
  }

  ghost predicate UniquePaths(items: map<string, Item>) {
    forall i, j :: i in items && j in items && items[i].relPath == items[j].relPath ==> i == j
  }

  /** A counter row exists exactly for the groups that have items, and holds their count, size and latest capture. */
  ghost predicate CountersExact(db: Db) {
    Exact(db.stats, db.items, db.blobs)
  }

  ghost predicate Exact(stats: map<StatKey, StatRow>, items: map<string, Item>, blobs: map<string, Blob>) {
    stats.Keys == Keys(items) && forall k :: k in stats ==> stats[k] == Aggregate(items, blobs, k)
  }

  lemma KeysAreGroups(items: map<string, Item>, k: StatKey)
    ensures k in Keys(items) <==> Group(items, k) != {}
  {
    if k in Keys(items) {
      var id :| id in items && KeyOf(items[id]) == k;
      assert id in Group(items, k);
    }
    if Group(items, k) != {} {
      var id :| id in Group(items, k);
      assert KeyOf(items[id]) in Keys(items);
    }
  }

  /** The aggregate of a group depends on nothing but the group's own items and the sizes of their blobs. */
  lemma AggregateSame(items: map<string, Item>, blobs: map<string, Blob>, items2: map<string, Item>,
                      blobs2: map<string, Blob>, k: StatKey)
    requires Group(items, k) == Group(items2, k)
    requires forall id :: id in Group(items, k) ==>
               items2[id] == items[id] && Size(items2, blobs2, id) == Size(items, blobs, id)
    ensures Aggregate(items2, blobs2, k) == Aggregate(items, blobs, k)
  {
    var g := Group(items, k);
    SumSame(id => Size(items, blobs, id), id => Size(items2, blobs2, id), g);
    LatestSame(items, items2, k);
  }

  lemma LatestSame(items: map<string, Item>, items2: map<string, Item>, k: StatKey)
    requires Group(items, k) == Group(items2, k) && forall id :: id in Group(items, k) ==> items2[id] == items[id]
    ensures LatestIn(items2, k) == LatestIn(items, k)
  {
    var g := Group(items, k);
    if g != {} {
      MaxSame(id => Captured(items, id), id => Captured(items2, id), g);
    }
  }

  lemma MaxSame(f: string -> int, h: string -> int, g: set<string>)
    requires g != {} && forall id :: id in g ==> f(id) == h(id)
    ensures Max(f, g) == Max(h, g)
  {
  }

  /** Adding an item moves its group's aggregate the way the upsert moves the row. */
  lemma AggregateAdds(items: map<string, Item>, blobs: map<string, Blob>, it: Item)
    requires it.itemID !in items && it.hash in blobs
    ensures var k, items2 := KeyOf(it), items[it.itemID := it];
            var before, now := Aggregate(items, blobs, k), Aggregate(items2, blobs, k);
            && now.itemCount == before.itemCount + 1
            && now.sizeBytes == before.sizeBytes + blobs[it.hash].sizeBytes
            && now.latest == Some(match before.latest
                                  case None => it.capturedAtMs
                                  case Some(l) => if l >= it.capturedAtMs then l else it.capturedAtMs)
  {
    hide Max, Group;
    var k, items2 := KeyOf(it), items[it.itemID := it];
    var g := Group(items, k);
    GroupGains(items, it);
    SizeAdds(items, blobs, it);
    MaxAdds(id => Captured(items, id), id => Captured(items2, id), g, it.itemID);
  }

  lemma GroupGains(items: map<string, Item>, it: Item)
    requires it.itemID !in items
    ensures Group(items[it.itemID := it], KeyOf(it)) == Group(items, KeyOf(it)) + {it.itemID}
    ensures it.itemID !in Group(items, KeyOf(it)) && forall id :: id in Group(items, KeyOf(it)) ==> id in items
  {
  }

  lemma SizeAdds(items: map<string, Item>, blobs: map<string, Blob>, it: Item)
    requires it.itemID !in items && it.hash in blobs
    ensures var g, items2 := Group(items, KeyOf(it)), items[it.itemID := it];
            Sum(id => Size(items2, blobs, id), g + {it.itemID}) ==
                Sum(id => Size(items, blobs, id), g) + blobs[it.hash].sizeBytes
  {
    hide Group;
    var g, items2 := Group(items, KeyOf(it)), items[it.itemID := it];
    GroupGains(items, it);
    SumSame(id => Size(items, blobs, id), id => Size(items2, blobs, id), g);
    SumAdds(id => Size(items2, blobs, id), g, it.itemID);
  }

  lemma MaxAdds(f: string -> int, h: string -> int, g: set<string>, x: string)
    requires x !in g && forall id :: id in g ==> f(id) == h(id)
    ensures Max(h, g + {x}) == if g == {} || Max(f, g) <= h(x) then h(x) else Max(f, g)
  {
    assert x in g + {x};
    if g != {} {
      var y :| y in g && f(y) == Max(f, g);
      assert y in g + {x};
    }
  }

  lemma AggregateOther(items: map<string, Item>, blobs: map<string, Blob>, it: Item, k: StatKey)
    requires it.itemID !in items && k != KeyOf(it)
    ensures Aggregate(items[it.itemID := it], blobs, k) == Aggregate(items, blobs, k)
  {
    assert Group(items[it.itemID := it], k) == Group(items, k);
    AggregateSame(items, blobs, items[it.itemID := it], blobs, k);
  }

  lemma InsertItemKeepsSound(db: Db, it: Item)
    requires Sound(db)
    ensures Sound(InsertItem(db, it).0)
  {
    hide Aggregate, Group, LatestIn, Keys, AddToAlbumStats, UniquePaths, Exact;
    var db2 := InsertItem(db, it).0;
    if it.hash in db.blobs && it.itemID !in db.items && !PathTaken(db, it.relPath) {
      PathsStayUnique(db, it);
      UpsertIsExact(db, it);
    }
  }

  lemma PathsStayUnique(db: Db, it: Item)
    requires UniquePaths(db.items) && it.itemID !in db.items && !PathTaken(db, it.relPath)
    ensures UniquePaths(db.items[it.itemID := it])
  {
  }

  /** The upsert moves the counters as the new item moves the aggregates. */
  lemma UpsertIsExact(db: Db, it: Item)
    requires CountersExact(db) && it.hash in db.blobs && it.itemID !in db.items
    ensures Exact(AddToAlbumStats(db.stats, KeyOf(it), db.blobs[it.hash].sizeBytes, it.capturedAtMs),
                  db.items[it.itemID := it], db.blobs)
  {
    hide Aggregate, Group, LatestIn, Keys;
    var key, items2 := KeyOf(it), db.items[it.itemID := it];
    var stats2 := AddToAlbumStats(db.stats, key, db.blobs[it.hash].sizeBytes, it.capturedAtMs);
    AggregateAdds(db.items, db.blobs, it);
    KeysAdd(db.items, it.itemID, it);
    if key in db.stats {
      NonEmptyAggregate(db.items, db.blobs, key);
    } else {
      EmptyAggregate(db.items, db.blobs, key);
    }
    forall k | k in stats2
      ensures stats2[k] == Aggregate(items2, db.blobs, k)
    {
      if k != key {
        AggregateOther(db.items, db.blobs, it, k);
      }
    }
  }

  lemma KeysAdd(items: map<string, Item>, id: string, it: Item)
    requires id !in items
    ensures Keys(items[id := it]) == Keys(items) + {KeyOf(it)}
  {
    var items2 := items[id := it];
    forall k | k in Keys(items) + {KeyOf(it)}
      ensures k in Keys(items2)
    {
      if k in Keys(items) {
        var j :| j in items && KeyOf(items[j]) == k;
        assert j in items2 && items2[j] == items[j];
      } else {
        assert id in items2 && KeyOf(items2[id]) == k;
      }
    }
  }

  lemma EmptyAggregate(items: map<string, Item>, blobs: map<string, Blob>, k: StatKey)
    requires k !in Keys(items)
    ensures Aggregate(items, blobs, k) == StatRow(0, 0, None)
  {
    KeysAreGroups(items, k);
  }

  lemma NonEmptyAggregate(items: map<string, Item>, blobs: map<string, Blob>, k: StatKey)
    requires k in Keys(items)
    ensures Aggregate(items, blobs, k).itemCount >= 1 && Aggregate(items, blobs, k).latest.Some?
  {
    KeysAreGroups(items, k);
  }

  /** Deleting an item undoes what inserting it did to the groups. */
  lemma DeleteItemKeepsSound(db: Db, id: string)
    requires Sound(db)
    ensures Sound(DeleteItem(db, id).0)
    ensures DeleteItem(db, id).1 == if id in db.items then Done else NotFound
  {
    hide Aggregate, Group, LatestIn, Keys, RemoveFromAlbumStats, UniquePaths, Exact;
    if id in db.items {
      RemovalIsExact(db, id);
      assert UniquePaths(db.items - {id}) by { FewerPathsStayUnique(db.items, id); }
    }
  }

  lemma FewerPathsStayUnique(items: map<string, Item>, id: string)
    requires UniquePaths(items)
    ensures UniquePaths(items - {id})
  {
  }

  lemma RemovalIsExact(db: Db, id: string)
    requires CountersExact(db) && id in db.items && db.items[id].itemID == id && db.items[id].hash in db.blobs
    ensures var it, rest := db.items[id], db.items - {id};
            Exact(RemoveFromAlbumStats(db.stats, rest, KeyOf(it), db.blobs[it.hash].sizeBytes), rest, db.blobs)
  {
    hide Aggregate, Group, LatestIn, Keys;
    var it, rest := db.items[id], db.items - {id};
    var key := KeyOf(it);
    assert rest[it.itemID := it] == db.items;
    AggregateAdds(rest, db.blobs, it);
    KeysAdd(rest, it.itemID, it);
    LatestIsAggregated(rest, db.blobs, key);
    if key in Keys(rest) {
      NonEmptyAggregate(rest, db.blobs, key);
    } else {
      EmptyAggregate(rest, db.blobs, key);
    }
    var stats2 := RemoveFromAlbumStats(db.stats, rest, key, db.blobs[it.hash].sizeBytes);
    assert key in db.stats && db.stats[key] == Aggregate(db.items, db.blobs, key);
    forall k | k in stats2
      ensures stats2[k] == Aggregate(rest, db.blobs, k)
    {
      if k != key {
        AggregateOther(rest, db.blobs, it, k);
      }
    }
  }

  lemma LatestIsAggregated(items: map<string, Item>, blobs: map<string, Blob>, k: StatKey)
    ensures Aggregate(items, blobs, k).latest == LatestIn(items, k)
  {
  }

  predicate SameBlobs(blobs: map<string, Blob>, blobs2: map<string, Blob>) {
    forall h :: h in blobs ==>
      && h in blobs2 && blobs2[h].hash == blobs[h].hash && blobs2[h].sizeBytes == blobs[h].sizeBytes
      && blobs2[h].relPath == blobs[h].relPath
  }

  lemma RewriteKeepsBlobs(blobs: map<string, Blob>, h: string, b: Blob)
    requires h in blobs ==>
               b.hash == blobs[h].hash && b.sizeBytes == blobs[h].sizeBytes && b.relPath == blobs[h].relPath
    ensures SameBlobs(blobs, blobs[h := b])
  {
  }

  /**
   * The three writes to blobs: only a blob under its own hash is added, and hash, size and path of a stored
   * one stay.
   */
  lemma BlobWrites(db: Db, op: Op, now: int)
    requires op.OpInsertBlob? || op.OpSetBlobStoredHash? || op.OpSetBlobMedia?
    ensures var db2 := Exec(db, op, now).0;
            && SameBlobs(db.blobs, db2.blobs) && db2.items == db.items && db2.stats == db.stats
            && forall g :: g in db2.blobs ==> g in db.blobs || db2.blobs[g].hash == g
  {
    hide SameBlobs;
    if op.OpInsertBlob? {
      if op.b.hash !in db.blobs {
        RewriteKeepsBlobs(db.blobs, op.b.hash, op.b);
      }
    } else if op.hash in db.blobs {
      var stored := db.blobs[op.hash];
      if op.OpSetBlobStoredHash? {
        RewriteKeepsBlobs(db.blobs, op.hash, stored.(storedHash := op.storedHash, replacedAt := Some(now)));
      } else {
        RewriteKeepsBlobs(db.blobs, op.hash,
                          stored.(width := op.width, height := op.height, durationMs := op.durationMs));
      }
    }
    Unchanged(db.blobs);
  }

  /** No transaction changes the hash, the size or the canonical path of a blob that is stored. */
  lemma BlobsKeepHashAndSize(db: Db, op: Op, now: int)
    ensures SameBlobs(db.blobs, Exec(db, op, now).0.blobs)
  {
    hide Exec, SameBlobs;
    if op.OpInsertBlob? || op.OpSetBlobStoredHash? || op.OpSetBlobMedia? {
      BlobWrites(db, op, now);
    } else {
      if op.OpInsertItem? || op.OpDeleteItem? {
        ItemWritesLeaveBlobs(db, op, now);
      } else {
        OthersLeaveItems(db, op, now);
      }
      Unchanged(db.blobs);
    }
  }

  lemma Unchanged(blobs: map<string, Blob>)
    ensures SameBlobs(blobs, blobs)
  {
  }

  lemma ItemWritesLeaveBlobs(db: Db, op: Op, now: int)
    requires op.OpInsertItem? || op.OpDeleteItem?
    ensures Exec(db, op, now).0.blobs == db.blobs
  {
    hide PathTaken, AddToAlbumStats, RemoveFromAlbumStats;
  }

  lemma BlobUpdateKeepsSound(db: Db, db2: Db)
    requires Sound(db) && db2.items == db.items && db2.stats == db.stats
    requires forall h :: h in db.blobs ==> h in db2.blobs && db2.blobs[h].sizeBytes == db.blobs[h].sizeBytes
    requires forall h :: h in db2.blobs ==> db2.blobs[h].hash == h
    ensures Sound(db2)
  {
    hide Aggregate, UniquePaths, Keys;
    forall k | k in db2.stats
      ensures db2.stats[k] == Aggregate(db2.items, db2.blobs, k)
    {
      AggregateSame(db.items, db.blobs, db2.items, db2.blobs, k);
    }
  }

  /** Most operations leave items, blobs and counters alone. */
  lemma OthersLeaveItems(db: Db, op: Op, now: int)
    requires !op.OpInsertItem? && !op.OpDeleteItem? && !op.OpInsertBlob? && !op.OpSetBlobStoredHash?
    requires !op.OpSetBlobMedia?
    ensures var db2 := Exec(db, op, now).0;
            db2.items == db.items && db2.blobs == db.blobs && db2.stats == db.stats
  {
    hide Due, IsNext, InsertItem, DeleteItem, Requeued, ExpiredCodes, PathTaken, RunningJobs, Scan, Aggregate;
    hide BlobByHash, ItemByID, ItemByPath, ItemsByHash, AlbumStatOf, AlbumStats, DeriveAlbumStats, JobByID, JobsByState;
    hide PairingCodeByHash, InsertBlob, SetBlobStoredHash, SetBlobMedia, DefaultPriority, Claimed;
  }

  lemma BlobWritesKeepSound(db: Db, op: Op, now: int)
    requires Sound(db) && (op.OpInsertBlob? || op.OpSetBlobStoredHash? || op.OpSetBlobMedia?)
    ensures Sound(Exec(db, op, now).0)
  {
    hide Exec, UniquePaths, Exact;
    BlobWrites(db, op, now);
    BlobUpdateKeepsSound(db, Exec(db, op, now).0);
  }

  /** Every operation keeps the counters exact, accepted or rejected. */
  lemma ExecKeepsSound(db: Db, op: Op, now: int)
    requires Sound(db)
    ensures Sound(Exec(db, op, now).0)
  {
    if op.OpInsertItem? {
      hide InsertItem, Sound;
      InsertItemKeepsSound(db, op.it);
    } else if op.OpDeleteItem? {
      hide DeleteItem, Sound;
      DeleteItemKeepsSound(db, op.itemID);
    } else if op.OpInsertBlob? || op.OpSetBlobStoredHash? || op.OpSetBlobMedia? {
      hide Exec, Sound;
      BlobWritesKeepSound(db, op, now);
    } else {
      hide Exec, UniquePaths, Exact;
      OthersLeaveItems(db, op, now);
    }
  }

  /**
   * Whatever sequence of operations runs, the stored counters equal the aggregate derived from items and
   * blobs, a counter row exists exactly when its group has items, and the counts add up to the number of items.
   */
  lemma {:induction false} CountersAlwaysExact(db: Db, calls: seq<Call>)
    requires Sound(db)
    ensures var end := After(db, calls);
            && Sound(end)
            && AlbumStats(end) == DeriveAlbumStats(end)
            && (forall k :: k in end.stats <==> Group(end.items, k) != {})
            && Sum((k: StatKey) => if k in end.stats then end.stats[k].itemCount else 0, end.stats.Keys) == |end.items|
    decreases |calls|
  {
    hide Sound, Exec;
    if calls == [] {
      SoundMeansExact(db);
    } else {
      ExecKeepsSound(db, calls[0].op, calls[0].now);
      CountersAlwaysExact(Exec(db, calls[0].op, calls[0].now).0, calls[1..]);
    }
  }

  lemma SoundMeansExact(db: Db)
    requires Sound(db)
    ensures AlbumStats(db) == DeriveAlbumStats(db)
    ensures forall k :: k in db.stats <==> Group(db.items, k) != {}
    ensures Sum((k: StatKey) => if k in db.stats then db.stats[k].itemCount else 0, db.stats.Keys) == |db.items|
  {
    hide Group, UniquePaths, Keys, Aggregate, Sum;
    ExactIsDerived(db);
    forall k: StatKey
      ensures k in db.stats <==> Group(db.items, k) != {}
    {
      KeysAreGroups(db.items, k);
    }
    CountsAddUp(db);
  }

  lemma ExactIsDerived(db: Db)
    requires CountersExact(db)
    ensures AlbumStats(db) == DeriveAlbumStats(db)
  {
    hide Aggregate, Keys, Scan;
  }

  lemma CountsAddUp(db: Db)
    requires CountersExact(db)
    ensures Sum((k: StatKey) => if k in db.stats then db.stats[k].itemCount else 0, db.stats.Keys) == |db.items|
  {
    hide Group, Keys, LatestIn, Size;
    SumSame((k: StatKey) => if k in db.stats then db.stats[k].itemCount else 0, GroupSizes(db.items), db.stats.Keys);
    GroupsPartition(db.items);
  }

  lemma NoKeys()
    ensures Keys(map[]) == {}
  {
  }

  lemma GroupAdds(items: map<string, Item>, id: string, it: Item, k: StatKey)
    requires id !in items
    ensures |Group(items[id := it], k)| == |Group(items, k)| + if k == KeyOf(it) then 1 else 0
  {
    if k == KeyOf(it) {
      assert Group(items[id := it], k) == Group(items, k) + {id};
    } else {
      assert Group(items[id := it], k) == Group(items, k);
    }
  }

  ghost function GroupSizes(items: map<string, Item>): StatKey -> int {
    (k: StatKey) => |Group(items, k)|
  }

  lemma PartitionAdds(items: map<string, Item>, id: string, it: Item)
    requires id !in items
    ensures Sum(GroupSizes(items[id := it]), Keys(items[id := it])) == Sum(GroupSizes(items), Keys(items)) + 1
  {
    hide Group, Keys;
    var key, items2 := KeyOf(it), items[id := it];
    var f, g := GroupSizes(items), GroupSizes(items2);
    KeysAdd(items, id, it);
    forall k: StatKey
      ensures g(k) == f(k) + if k == key then 1 else 0
    {
      GroupAdds(items, id, it, k);
    }
    KeysAreGroups(items, key);
    if key in Keys(items) {
      assert Keys(items) + {key} == Keys(items);
      SumChanges(f, g, Keys(items), key);
    } else {
      assert f(key) == 0;
      SumSame(f, g, Keys(items));
      SumAdds(g, Keys(items), key);
    }
  }

  /** Every item is in exactly one group. */
  lemma {:induction false} GroupsPartition(items: map<string, Item>)
    ensures Sum(GroupSizes(items), Keys(items)) == |items|
    decreases |items|
  {
    hide Keys, GroupSizes;
    if items == map[] {
      NoKeys();
    } else {
      var id :| id in items;
      var rest := items - {id};
      assert rest[id := items[id]] == items && |items| == |rest| + 1;
      GroupsPartition(rest);
      PartitionAdds(rest, id, items[id]);
    }
  }
}
