/**
 * Whole runs of the library: uploads are staged, placed and persisted, calls fail, and the process crashes
 * between placing and persisting. A path stays locked from Place until its item is persisted or lost. Items
 * are never deleted in these runs.
 */
module PlacementRuns {
  import opened Sanitize
  import opened SanitizeLaws
  import opened Paths
  import opened Schema
  import opened Disk
  import opened Placer

  /** A placement that succeeded and has not been persisted yet, with the request it answers. */
  datatype Ticket = Ticket(item: Item, request: Placement)

  datatype State = State(disk: Disk, db: Catalog, pending: map<string, Ticket>)

  /** The components an item was built from. */
  function Parts(it: Item): Resolved {
    Resolved(it.album, it.year, it.month, it.filename)
  }

  // ------------------------------------------------------------------ steps

  /** A verified upload of hash ends up as a file of its own in the staging directory. */
  ghost predicate Stage(cfg: Config, s: State, s2: State, hash: string) {
    && ValidHash(hash) && s.disk.IsDir(cfg.staging)
    && exists ino: nat :: ino !in s.disk.content && s2 == s.(disk := Disk(
         s.disk.names[cfg.Staged(hash) := File(ino)], s.disk.content[ino := hash]))
  }

  /** A call of Place that answers with an item. A new item's path must not be locked, and is locked by it. */
  ghost predicate PlaceOk(cfg: Config, s: State, s2: State, hash: string, pl: Placement, it: Item) {
    && PlaceStep(cfg, s.db, hash, pl, s.disk, s2.disk, Ok(it))
    && s2.db == s.db
    && (if Choose(cfg.u, s.db, hash, pl).Existing? then s2.pending == s.pending
        else it.relPath !in s.pending && s2.pending == s.pending[it.relPath := Ticket(it, pl)])
  }

  /**
   * A call of Place that fails, without or, when no item id can be drawn, with the bytes in place. A crash in the
   * middle of Place is such a call, or one that succeeds, and then the crash: see Crashes.CrashIsACall.
   */
  ghost predicate PlaceFails(cfg: Config, s: State, s2: State, hash: string, pl: Placement, e: PlaceError) {
    && PlaceStep(cfg, s.db, hash, pl, s.disk, s2.disk, Err(e)) && s2 == s.(disk := s2.disk)
    && (e == NoItemID ==> Choose(cfg.u, s.db, hash, pl).target.RelPath() !in s.pending)
  }

  /** The caller's transaction: the blob row unless it exists, and the item row; nothing if the item id is taken. */
  function Insert(db: Catalog, it: Item, blob: Blob): Catalog {
    if exists p :: p in db.items && db.items[p].itemID == it.itemID then db
    else Catalog(db.items[it.relPath := it], if it.hash in db.blobs then db.blobs else db.blobs[it.hash := blob])
  }

  ghost predicate Persist(s: State, s2: State, path: string, blob: Blob) {
    && path in s.pending
    && blob.hash == s.pending[path].item.hash && blob.relPath == path
    && s2 == s.(db := Insert(s.db, s.pending[path].item, blob), pending := s.pending - {path})
  }

  /** A caller gives up on an item it was answered, and with it the lock on the path. */
  ghost predicate GiveUp(s: State, s2: State, path: string) {
    s2 == s.(pending := s.pending - {path})
  }

  ghost predicate Crash(s: State, s2: State) {
    s2 == s.(pending := map[])
  }

  datatype Step =
    | StageStep(hash: string)
    | PlaceOkStep(hash: string, pl: Placement, item: Item)
    | PlaceFailsStep(hash: string, pl: Placement, error: PlaceError)
    | PersistStep(path: string, blob: Blob)
    | GiveUpStep(path: string)
    | CrashStep

  ghost predicate Next(cfg: Config, s: State, s2: State, step: Step) {
    match step
    case StageStep(h) => Stage(cfg, s, s2, h)
    case PlaceOkStep(h, pl, it) => PlaceOk(cfg, s, s2, h, pl, it)
    case PlaceFailsStep(h, pl, e) => PlaceFails(cfg, s, s2, h, pl, e)
    case PersistStep(path, blob) => Persist(s, s2, path, blob)
    case GiveUpStep(path) => GiveUp(s, s2, path)
    case CrashStep => Crash(s, s2)
  }

  /** An empty catalogue over any directory tree in which nothing is staged. */
  ghost predicate Init(cfg: Config, s: State) {
    && WellFormed(s.disk) && s.db == Catalog(map[], map[]) && s.pending == map[]
    && forall h :: cfg.Staged(h) !in s.disk.names
  }

  /** A run: states, and the step taken from each to the next. */
  ghost predicate Run(cfg: Config, states: seq<State>, steps: seq<Step>) {
    && |states| == |steps| + 1 && Init(cfg, states[0])
    && forall i :: 0 <= i < |steps| ==> Next(cfg, states[i], states[i + 1], steps[i])
  }

  // ------------------------------------------------------------------ what every step keeps

  /** An item stands at the path its components print, and the file there holds its bytes. */
  ghost predicate Stands(cfg: Config, d: Disk, path: string, it: Item) {
    && it.relPath == path && Built(Parts(it)) && it.filename != "" && Parts(it).RelPath() == path
    && ValidHash(it.hash)
    && d.Holds(Target(cfg.root, Parts(it)), it.hash)
  }

  /** A staged upload holds its bytes under no other name. */
  ghost predicate StagedAlone(cfg: Config, d: Disk, hash: string) {
    cfg.Staged(hash) in d.names ==>
      && d.Holds(cfg.Staged(hash), hash)
      && forall p :: p in d.names && d.names[p] == d.names[cfg.Staged(hash)] ==> p == cfg.Staged(hash)
  }

  ghost predicate Inv(cfg: Config, s: State) {
    && WellFormed(s.disk)
    && (forall h :: ValidHash(h) ==> StagedAlone(cfg, s.disk, h))
    && (forall p :: p in s.db.items ==> Stands(cfg, s.disk, p, s.db.items[p]))
    && (forall p :: p in s.pending ==> Stands(cfg, s.disk, p, s.pending[p].item) && p !in s.db.items)
    && (forall h :: h in s.db.blobs ==> Canonical(s.db, h))
    && (forall p :: p in s.pending ==> Expects(cfg, s.db, p, s.pending[p]))
  }

  /** A blob's canonical path is the path of one of its items. */
  predicate Canonical(db: Catalog, h: string) {
    h in db.blobs && db.blobs[h].hash == h
    && db.blobs[h].relPath in db.items && db.items[db.blobs[h].relPath].hash == h
  }

  /** Asked again before it is persisted, the collision rule would choose the same path. */
  predicate Expects(cfg: Config, db: Catalog, path: string, t: Ticket) {
    Choose(cfg.u, db, t.item.hash, t.request) == Fresh(Parts(t.item))
  }

  lemma InitInv(cfg: Config, s: State)
    requires Init(cfg, s)
    ensures Inv(cfg, s)
  {
  }

  /** Names in the staging directory are no targets. */
  lemma TargetsAreNotStaged(cfg: Config, r: Resolved)
    requires cfg.Valid()
    ensures cfg.root < Target(cfg.root, r)
    ensures forall h: string :: cfg.Staged(h) != Target(cfg.root, r)
    ensures Target(cfg.root, r) !in cfg.TempLinks()
  {
    hide CleanPath, PadInt;
    Apart(cfg, Target(cfg.root, r));
    assert forall h: string :: cfg.Staged(h) == cfg.staging + [h + STAGED_SUFFIX];
    assert forall x: string :: cfg.TempLink(x) == cfg.staging + [LINK_TMP_PREFIX + x];
  }

  lemma StagedInjective(cfg: Config, h: string, g: string)
    ensures cfg.Staged(h) == cfg.Staged(g) <==> h == g
  {
    assert cfg.Staged(h)[|cfg.staging|] == h + STAGED_SUFFIX && cfg.Staged(g)[|cfg.staging|] == g + STAGED_SUFFIX;
    AppendCancels(h, g, STAGED_SUFFIX);
  }

  lemma AddFileKeepsTree(d: Disk, d2: Disk, p: Path)
    requires WellFormed(d) && p != [] && d.IsDir(Parent(p)) && !d.IsDir(p)
    requires p in d2.names && d2.names[p].File? && d2.names == d.names[p := d2.names[p]]
    requires d2.names[p].ino in d2.content && forall i :: i in d.content ==> i in d2.content
    ensures WellFormed(d2)
  {
  }

  /** Staging hash in a fresh inode. */
  lemma StageDisk(cfg: Config, d: Disk, d2: Disk, hash: string, ino: nat)
    requires WellFormed(d) && d.IsDir(cfg.staging) && StagedAlone(cfg, d, hash) && ino !in d.content
    requires d2 == Disk(d.names[cfg.Staged(hash) := File(ino)], d.content[ino := hash])
    ensures WellFormed(d2) && StagedAlone(cfg, d2, hash)
    ensures forall h :: StagedAlone(cfg, d, h) ==> StagedAlone(cfg, d2, h)
    ensures forall p, h :: p != cfg.Staged(hash) && d.Holds(p, h) ==> d2.Holds(p, h)
  {
    var staged := cfg.Staged(hash);
    assert Parent(staged) == cfg.staging;
    assert forall p :: p in d.names && d.names[p].File? ==> d.names[p].ino != ino;
    AddFileKeepsTree(d, d2, staged);
    forall h | StagedAlone(cfg, d, h)
      ensures StagedAlone(cfg, d2, h)
    {
      StagedInjective(cfg, h, hash);
    }
  }

  lemma StageKeepsInv(cfg: Config, s: State, s2: State, hash: string)
    requires cfg.Valid() && Inv(cfg, s) && Stage(cfg, s, s2, hash)
    ensures Inv(cfg, s2)
  {
    hide CleanPath, PadInt, ValidHash, Choose, Target, Built, WellFormed, StagedAlone, Canonical, Expects;
    var ino: nat :| ino !in s.disk.content && s2 == s.(disk := Disk(
      s.disk.names[cfg.Staged(hash) := File(ino)], s.disk.content[ino := hash]));
    StageDisk(cfg, s.disk, s2.disk, hash, ino);
    forall p, it | Stands(cfg, s.disk, p, it)
      ensures Stands(cfg, s2.disk, p, it)
    {
      TargetsAreNotStaged(cfg, Parts(it));
    }
  }

  /** A failed placement leaves every file of the library and every staged upload alone. */
  lemma UntouchedKeeps(cfg: Config, d: Disk, d2: Disk)
    requires cfg.Valid() && Untouched(cfg, d, d2)
    ensures forall p, it :: Stands(cfg, d, p, it) ==> Stands(cfg, d2, p, it)
    ensures forall h :: ValidHash(h) && StagedAlone(cfg, d, h) ==> StagedAlone(cfg, d2, h)
  {
    hide CleanPath, PadInt, ValidHash, Target, Built, WellFormed;
    forall p, it | Stands(cfg, d, p, it)
      ensures Stands(cfg, d2, p, it)
    {
      TargetsAreNotStaged(cfg, Parts(it));
    }
    forall h | ValidHash(h) && StagedAlone(cfg, d, h)
      ensures StagedAlone(cfg, d2, h)
    {
      StagedStaysAlone(cfg, d, d2, h);
    }
  }

  lemma StagedStaysAlone(cfg: Config, d: Disk, d2: Disk, h: string)
    requires cfg.Valid() && Untouched(cfg, d, d2) && ValidHash(h) && StagedAlone(cfg, d, h)
    ensures StagedAlone(cfg, d2, h)
  {
    hide CleanPath, ValidHash, WellFormed;
    var staged := cfg.Staged(h);
    assert staged == cfg.staging + [h + STAGED_SUFFIX];
    assert !(cfg.root < staged) by {
      if cfg.root < staged {
        Apart(cfg, staged);
      }
    }
    assert staged !in cfg.TempLinks() by {
      forall x: string
        ensures cfg.TempLink(x) != staged
      {
        StagedIsNotTemp(cfg, h, x);
      }
    }
    forall p | staged in d2.names && p in d2.names && d2.names[p] == d2.names[staged]
      ensures p == staged
    {
      assert staged == cfg.staging + [h + STAGED_SUFFIX];
      assert staged in d.names && d.names[staged] == d2.names[staged];
    }
  }

  /** Paths that print alike are built from the same components. */
  lemma SamePathSameParts(r: Resolved, q: Resolved)
    requires Built(r) && Built(q) && r.RelPath() == q.RelPath()
    ensures r == q
  {
    hide PadInt, JoinRel;
    JoinRelRoundTrip(r, q);
  }

  /** The bytes a placement takes are the ones asked for. */
  lemma SourceHolds(cfg: Config, s: State, hash: string)
    requires cfg.Valid() && Inv(cfg, s) && ValidHash(hash) && Source(cfg, s.db, s.disk, hash).Some?
    ensures var src := Source(cfg, s.db, s.disk, hash).value;
            s.disk.Holds(src, hash) && (src == cfg.Staged(hash) || cfg.root < src)
  {
    hide CleanPath, PadInt, ValidHash, WellFormed, JoinRel, SafeAbs, Target;
    if cfg.Staged(hash) !in s.disk.names {
      assert Canonical(s.db, hash);
      var it := s.db.items[s.db.blobs[hash].relPath];
      assert Stands(cfg, s.disk, it.relPath, it);
      BuiltPathLands(cfg.root, Parts(it));
      TargetsAreNotStaged(cfg, Parts(it));
    }
  }

  /**
   * A free path that can be published on is the file of no other placement, not even when its name has come
   * out empty: then the longer name it was made from stands in a directory of that name.
   */
  lemma FreshTargetIsNew(cfg: Config, s: State, hash: string, pl: Placement, path: string, it: Item)
    requires cfg.Valid() && Inv(cfg, s) && ValidHash(hash) && Choose(cfg.u, s.db, hash, pl).Fresh?
    requires var t := Choose(cfg.u, s.db, hash, pl).target;
             !s.disk.IsDir(Target(cfg.root, t)) && Stands(cfg, s.disk, path, it) && path != t.RelPath()
    ensures Target(cfg.root, Parts(it)) != Target(cfg.root, Choose(cfg.u, s.db, hash, pl).target)
  {
    hide CleanPath, PadInt, ValidHash, WellFormed, JoinRel, SafeAbs, Target, Built, SuffixedFilename, Resolve;
    var t := Choose(cfg.u, s.db, hash, pl).target;
    FreshIsNamed(cfg, s, hash, pl);
    if Target(cfg.root, Parts(it)) == Target(cfg.root, t) {
      TargetsDiffer(cfg.root, Parts(it), t);
    }
  }

  lemma FreshIsNamed(cfg: Config, s: State, hash: string, pl: Placement)
    requires cfg.Valid() && Inv(cfg, s) && ValidHash(hash) && Choose(cfg.u, s.db, hash, pl).Fresh?
    requires !s.disk.IsDir(Target(cfg.root, Choose(cfg.u, s.db, hash, pl).target))
    ensures var t := Choose(cfg.u, s.db, hash, pl).target; Built(t) && t.filename != ""
  {
    hide CleanPath, PadInt, ValidHash, JoinRel, SafeAbs, SuffixedFilename, Resolve;
    var t := Choose(cfg.u, s.db, hash, pl).target;
    var r := BaseOf(cfg.u, pl);
    BaseAndSuffixedAreBuilt(cfg.u, hash, pl);
    if t.filename == "" {
      assert t == Suffixed(cfg.u, r, hash) && r.RelPath() in s.db.items;
      var it := s.db.items[r.RelPath()];
      assert Stands(cfg, s.disk, r.RelPath(), it);
      SamePathSameParts(Parts(it), r);
      DirAboveFile(cfg, s.disk, r, t);
    }
  }

  lemma DirAboveFile(cfg: Config, d: Disk, r: Resolved, t: Resolved)
    requires WellFormed(d) && Component(r.filename) && d.IsFile(Target(cfg.root, r))
    requires t == r.(filename := "")
    ensures d.IsDir(Target(cfg.root, t))
  {
    hide PadInt;
    var p := Target(cfg.root, r);
    assert p == cfg.root + r.Segments() && Parent(p) == cfg.root + r.Segments()[..3];
    assert r.Segments()[..3] == t.Segments()[..3];
  }

  /** Publishing puts the bytes in place, uses up the staged upload, and leaves everything else alone. */
  lemma PublishedKeeps(cfg: Config, db: Catalog, d: Disk, d2: Disk, hash: string, abs: Path)
    requires cfg.Valid() && WellFormed(d) && Published(cfg, db, d, d2, hash, abs) && cfg.root < abs
    requires forall h :: ValidHash(h) ==> StagedAlone(cfg, d, h)
    requires ValidHash(hash)
    requires var src := Source(cfg, db, d, hash).value;
             d.Holds(src, hash) && (src == cfg.Staged(hash) || cfg.root < src)
    ensures d2.Holds(abs, hash) && cfg.Staged(hash) !in d2.names
    ensures forall h :: ValidHash(h) ==> StagedAlone(cfg, d2, h)
    ensures forall p, it :: Stands(cfg, d, p, it) && Target(cfg.root, Parts(it)) != abs ==> Stands(cfg, d2, p, it)
  {
    hide CleanPath, PadInt, ValidHash, WellFormed, Target, Built, Published, NothingStaged, Touches, Source,
      LinkWasThere;
    forall h | ValidHash(h)
      ensures StagedAlone(cfg, d2, h)
    {
      PublishedKeepsStaged(cfg, db, d, d2, hash, abs, h);
    }
    PublishedHolds(cfg, db, d, d2, hash, abs);
    forall p, it | Stands(cfg, d, p, it) && Target(cfg.root, Parts(it)) != abs
      ensures Stands(cfg, d2, p, it)
    {
      TargetsAreNotStaged(cfg, Parts(it));
      PublishedKeepsFile(cfg, db, d, d2, hash, abs, Target(cfg.root, Parts(it)), it.hash);
    }
  }

  lemma PublishedHolds(cfg: Config, db: Catalog, d: Disk, d2: Disk, hash: string, abs: Path)
    requires cfg.Valid() && Published(cfg, db, d, d2, hash, abs) && cfg.root < abs
    requires StagedAlone(cfg, d, hash) && ValidHash(hash)
    requires d.Holds(Source(cfg, db, d, hash).value, hash)
    ensures d2.Holds(abs, hash) && cfg.Staged(hash) !in d2.names
  {
    hide CleanPath, ValidHash, WellFormed;
    var staged := cfg.Staged(hash);
    assert staged == cfg.staging + [hash + STAGED_SUFFIX];
    Apart(cfg, abs);
    forall x: string
      ensures cfg.TempLink(x) != staged
    {
      StagedIsNotTemp(cfg, hash, x);
    }
    assert staged !in cfg.TempLinks();
  }

  lemma PublishedKeepsFile(cfg: Config, db: Catalog, d: Disk, d2: Disk, hash: string, abs: Path, p: Path, h: string)
    requires Published(cfg, db, d, d2, hash, abs) && d.Holds(p, h) && p != abs && p !in cfg.TempLinks()
    requires p != cfg.Staged(hash)
    ensures d2.Holds(p, h)
  {
    hide WellFormed, Source, NothingStaged;
  }

  lemma PublishedKeepsStaged(cfg: Config, db: Catalog, d: Disk, d2: Disk, hash: string, abs: Path, h: string)
    requires cfg.Valid() && Published(cfg, db, d, d2, hash, abs) && cfg.root < abs
    requires StagedAlone(cfg, d, hash) && StagedAlone(cfg, d, h) && ValidHash(hash) && ValidHash(h)
    requires var src := Source(cfg, db, d, hash).value;
             d.Holds(src, hash) && (src == cfg.Staged(hash) || cfg.root < src)
    ensures StagedAlone(cfg, d2, h)
  {
    hide CleanPath, ValidHash, WellFormed;
    PublishedHolds(cfg, db, d, d2, hash, abs);
    var src := Source(cfg, db, d, hash).value;
    var staged := cfg.Staged(h);
    StagedInjective(cfg, h, hash);
    if h != hash && staged in d2.names {
      assert staged == cfg.staging + [h + STAGED_SUFFIX];
      Apart(cfg, abs);
      if cfg.root < src {
        Apart(cfg, src);
      }
      forall x: string
        ensures cfg.TempLink(x) != staged
      {
        StagedIsNotTemp(cfg, h, x);
      }
      assert staged !in cfg.TempLinks();
      assert staged in d.names && d2.names[staged] == d.names[staged];
      assert d.names[src] != d.names[staged];
      forall p | p in d2.names && d2.names[p] == d2.names[staged]
        ensures p == staged
      {
      }
    }
  }

  lemma PlaceOkKeepsInv(cfg: Config, s: State, s2: State, hash: string, pl: Placement, it: Item)
    requires cfg.Valid() && Inv(cfg, s) && PlaceOk(cfg, s, s2, hash, pl, it)
    ensures Inv(cfg, s2)
  {
    hide CleanPath, PadInt, ValidHash, WellFormed, JoinRel, SafeAbs, Target, Built, SuffixedFilename, Resolve,
      Published, SameDirectory, StagedAlone, Canonical, Source;
    if Choose(cfg.u, s.db, hash, pl).Fresh? {
      var t := Choose(cfg.u, s.db, hash, pl).target;
      assert Parts(it) == t && it.relPath == t.RelPath() && it.hash == hash;
      InstalledIsPublished(cfg, s, s2.disk, hash, Target(cfg.root, t));
      PublishedStands(cfg, s, s2.disk, hash, pl);
      ChosenIsFree(cfg, s.db, hash, pl);
      assert Stands(cfg, s2.disk, it.relPath, it);
    }
  }

  /** After publishing, the new target holds its bytes, and every other placement stands as before. */
  lemma PublishedStands(cfg: Config, s: State, d2: Disk, hash: string, pl: Placement)
    requires cfg.Valid() && Inv(cfg, s) && ValidHash(hash) && Choose(cfg.u, s.db, hash, pl).Fresh?
    requires Published(cfg, s.db, s.disk, d2, hash, Target(cfg.root, Choose(cfg.u, s.db, hash, pl).target))
    ensures var t := Choose(cfg.u, s.db, hash, pl).target;
            && WellFormed(d2) && Built(t) && t.filename != "" && d2.Holds(Target(cfg.root, t), hash)
            && (forall h :: ValidHash(h) ==> StagedAlone(cfg, d2, h))
            && (forall p, other :: Stands(cfg, s.disk, p, other) && p != t.RelPath() ==> Stands(cfg, d2, p, other))
  {
    hide CleanPath, PadInt, ValidHash, WellFormed, JoinRel, SafeAbs, Target, Built, SuffixedFilename, Resolve,
      Published, StagedAlone, Canonical, Source, Choose, Expects;
    var t := Choose(cfg.u, s.db, hash, pl).target;
    var abs := Target(cfg.root, t);
    PublishedFacts(cfg, s.db, s.disk, d2, hash, abs);
    ChosenIsBuilt(cfg, s.db, hash, pl);
    FreshIsNamed(cfg, s, hash, pl);
    SourceHolds(cfg, s, hash);
    PublishedKeeps(cfg, s.db, s.disk, d2, hash, abs);
    forall p, other | Stands(cfg, s.disk, p, other) && p != t.RelPath()
      ensures Stands(cfg, d2, p, other)
    {
      FreshTargetIsNew(cfg, s, hash, pl, p, other);
    }
  }

  /** In a run no canonical path is a directory, so that what is installed is published. */
  lemma InstalledIsPublished(cfg: Config, s: State, d2: Disk, hash: string, abs: Path)
    requires cfg.Valid() && Inv(cfg, s) && Installed(cfg, s.db, s.disk, d2, hash, abs)
    ensures Published(cfg, s.db, s.disk, d2, hash, abs)
  {
    hide CleanPath, PadInt, ValidHash, WellFormed, JoinRel, SafeAbs, Target, Built, StagedAlone, Expects, Published;
    if hash in s.db.blobs {
      assert Canonical(s.db, hash);
      var it := s.db.items[s.db.blobs[hash].relPath];
      assert Stands(cfg, s.disk, s.db.blobs[hash].relPath, it);
      BuiltPathLands(cfg.root, Parts(it));
    }
  }

  lemma PublishedFacts(cfg: Config, db: Catalog, d: Disk, d2: Disk, hash: string, abs: Path)
    requires Published(cfg, db, d, d2, hash, abs)
    ensures WellFormed(d2) && !d.IsDir(abs) && Source(cfg, db, d, hash).Some?
  {
  }

  lemma ChosenIsFree(cfg: Config, db: Catalog, hash: string, pl: Placement)
    requires Choose(cfg.u, db, hash, pl).Fresh?
    ensures Choose(cfg.u, db, hash, pl).target.RelPath() !in db.items
  {
    hide BaseOf, Suffixed, JoinRel, SuffixedFilename, PadInt;
  }

  /** Bytes in place without an item are the state after a placement that was given up. */
  lemma NoItemKeepsInv(cfg: Config, s: State, s2: State, hash: string, pl: Placement)
    requires cfg.Valid() && Inv(cfg, s) && PlaceFails(cfg, s, s2, hash, pl, NoItemID)
    ensures Inv(cfg, s2)
  {
    hide Inv, Installed, Choose, Target, ValidHash;
    var it := NewItem("", hash, Choose(cfg.u, s.db, hash, pl).target, pl, 0);
    var placed := s2.(pending := s.pending[it.relPath := Ticket(it, pl)]);
    PlaceOkKeepsInv(cfg, s, placed, hash, pl, it);
    assert s.pending[it.relPath := Ticket(it, pl)] - {it.relPath} == s.pending;
    GiveUpKeepsInv(cfg, placed, s2, it.relPath);
  }

  lemma PlaceFailsKeepsInv(cfg: Config, s: State, s2: State, hash: string, pl: Placement, e: PlaceError)
    requires cfg.Valid() && Inv(cfg, s) && PlaceFails(cfg, s, s2, hash, pl, e)
    ensures Inv(cfg, s2)
  {
    hide Inv, Untouched, Installed, Choose, Target, ValidHash;
    if e == NoItemID {
      NoItemKeepsInv(cfg, s, s2, hash, pl);
    } else {
      UntouchedKeepsInv(cfg, s, s2);
    }
  }

  lemma UntouchedKeepsInv(cfg: Config, s: State, s2: State)
    requires cfg.Valid() && Inv(cfg, s) && Untouched(cfg, s.disk, s2.disk) && s2 == s.(disk := s2.disk)
    ensures Inv(cfg, s2)
  {
    hide CleanPath, PadInt, ValidHash, StagedAlone, Stands, Canonical, Expects, Choose;
    UntouchedKeeps(cfg, s.disk, s2.disk);
    assert WellFormed(s2.disk);
  }

  /** Recording an item elsewhere changes no expectation of a placement that is still pending. */
  lemma InsertKeepsExpectation(cfg: Config, db: Catalog, it: Item, blob: Blob, path: string, t: Ticket)
    requires it.relPath !in db.items && path != it.relPath && Expects(cfg, db, path, t) && t.item.relPath == path
    requires Parts(t.item).RelPath() == path
    ensures Expects(cfg, Insert(db, it, blob), path, t)
  {
    hide PadInt, JoinRel, SuffixedFilename, Resolve;
  }

  lemma PersistKeepsInv(cfg: Config, s: State, s2: State, path: string, blob: Blob)
    requires cfg.Valid() && Inv(cfg, s) && Persist(s, s2, path, blob)
    ensures Inv(cfg, s2)
  {
    hide CleanPath, PadInt, ValidHash, WellFormed, JoinRel, Target, Built, StagedAlone, Expects, Choose;
    var it := s.pending[path].item;
    assert Stands(cfg, s.disk, path, it);
    forall p | p in s2.pending
      ensures Expects(cfg, s2.db, p, s2.pending[p])
    {
      assert Stands(cfg, s.disk, p, s.pending[p].item);
      InsertKeepsExpectation(cfg, s.db, it, blob, p, s.pending[p]);
    }
    forall h | h in s2.db.blobs
      ensures Canonical(s2.db, h)
    {
      assert h in s.db.blobs ==> Canonical(s.db, h);
    }
  }

  lemma NextKeepsInv(cfg: Config, s: State, s2: State, step: Step)
    requires cfg.Valid() && Inv(cfg, s) && Next(cfg, s, s2, step)
    ensures Inv(cfg, s2)
  {
    hide Inv, Stage, PlaceOk, PlaceFails, Persist;
    match step
    case StageStep(h) => StageKeepsInv(cfg, s, s2, h);
    case PlaceOkStep(h, pl, it) => PlaceOkKeepsInv(cfg, s, s2, h, pl, it);
    case PlaceFailsStep(h, pl, e) => PlaceFailsKeepsInv(cfg, s, s2, h, pl, e);
    case PersistStep(path, blob) => PersistKeepsInv(cfg, s, s2, path, blob);
    case GiveUpStep(path) => GiveUpKeepsInv(cfg, s, s2, path);
    case CrashStep => CrashKeepsInv(cfg, s, s2);
  }

  lemma GiveUpKeepsInv(cfg: Config, s: State, s2: State, path: string)
    requires Inv(cfg, s) && GiveUp(s, s2, path)
    ensures Inv(cfg, s2)
  {
    hide WellFormed, StagedAlone, Stands, Canonical, Expects;
  }

  lemma CrashKeepsInv(cfg: Config, s: State, s2: State)
    requires Inv(cfg, s) && Crash(s, s2)
    ensures Inv(cfg, s2)
  {
    hide WellFormed, StagedAlone, Stands, Canonical;
  }

  lemma {:induction false} RunInv(cfg: Config, states: seq<State>, steps: seq<Step>, i: nat)
    requires cfg.Valid() && Run(cfg, states, steps) && i < |states|
    ensures Inv(cfg, states[i])
  {
    hide Inv, Next, Init;
    if i == 0 {
      InitInv(cfg, states[0]);
    } else {
      RunInv(cfg, states, steps, i - 1);
      NextKeepsInv(cfg, states[i - 1], states[i], steps[i - 1]);
    }
  }

  // ------------------------------------------------------------------ the theorems

  /**
   * In every state of every run, every item's path and every blob's canonical path resolves to a file holding
   * exactly that row's hash.
   */
  lemma RowsNameTheirBytes(cfg: Config, states: seq<State>, steps: seq<Step>, i: nat)
    requires cfg.Valid() && Run(cfg, states, steps) && i < |states|
    ensures var s := states[i];
            forall p :: p in s.db.items ==>
              SafeAbs(cfg.root, p).Some? && s.disk.Holds(SafeAbs(cfg.root, p).value, s.db.items[p].hash)
    ensures var s := states[i];
            forall h :: h in s.db.blobs ==>
              var at := SafeAbs(cfg.root, s.db.blobs[h].relPath);
              at.Some? && s.disk.Holds(at.value, h)
  {
    hide CleanPath, PadInt, ValidHash, WellFormed, JoinRel, Target, SafeAbs, StagedAlone, Expects, Run;
    var s := states[i];
    RunInv(cfg, states, steps, i);
    forall p | p in s.db.items
      ensures SafeAbs(cfg.root, p).Some? && s.disk.Holds(SafeAbs(cfg.root, p).value, s.db.items[p].hash)
    {
      assert Stands(cfg, s.disk, p, s.db.items[p]);
      BuiltPathLands(cfg.root, Parts(s.db.items[p]));
    }
    forall h | h in s.db.blobs
      ensures var at := SafeAbs(cfg.root, s.db.blobs[h].relPath);
              at.Some? && s.disk.Holds(at.value, h)
    {
      assert Canonical(s.db, h);
    }
  }

  /** In every state of every run two items lie at different places, and none inside another. */
  lemma ItemsDoNotNest(cfg: Config, states: seq<State>, steps: seq<Step>, i: nat, p: string, q: string)
    requires cfg.Valid() && Run(cfg, states, steps) && i < |states|
    requires p in states[i].db.items && q in states[i].db.items && p != q
    ensures SafeAbs(cfg.root, p).Some? && SafeAbs(cfg.root, q).Some?
    ensures SafeAbs(cfg.root, p) != SafeAbs(cfg.root, q) && !(SafeAbs(cfg.root, p).value < SafeAbs(cfg.root, q).value)
  {
    hide CleanPath, PadInt, ValidHash, WellFormed, JoinRel, Target, SafeAbs, StagedAlone, Expects, Run;
    var s := states[i];
    RunInv(cfg, states, steps, i);
    assert Stands(cfg, s.disk, p, s.db.items[p]) && Stands(cfg, s.disk, q, s.db.items[q]);
    var a, b := Parts(s.db.items[p]), Parts(s.db.items[q]);
    BuiltPathLands(cfg.root, a);
    BuiltPathLands(cfg.root, b);
    if Target(cfg.root, a) == Target(cfg.root, b) {
      TargetsDiffer(cfg.root, a, b);
    }
    if Target(cfg.root, a) < Target(cfg.root, b) {
      DirsAbove(s.disk, Target(cfg.root, a), Target(cfg.root, b));
    }
  }

  /** Along a run no item is lost or changed. */
  lemma {:induction false} ItemsStay(cfg: Config, states: seq<State>, steps: seq<Step>, i: nat, j: nat, p: string)
    requires cfg.Valid() && Run(cfg, states, steps) && i <= j < |states| && p in states[i].db.items
    ensures p in states[j].db.items && states[j].db.items[p] == states[i].db.items[p]
    decreases j
  {
    hide Inv, Init, PlaceStep, WellFormed;
    if i < j {
      ItemsStay(cfg, states, steps, i, j - 1, p);
      RunInv(cfg, states, steps, j - 1);
      StepKeepsItem(cfg, states[j - 1], states[j], steps[j - 1], p);
    }
  }

  lemma StepKeepsItem(cfg: Config, s: State, s2: State, step: Step, p: string)
    requires Inv(cfg, s) && Next(cfg, s, s2, step) && p in s.db.items
    ensures p in s2.db.items && s2.db.items[p] == s.db.items[p]
  {
    hide PlaceStep, WellFormed, StagedAlone, Canonical, Expects, Built, Target;
    if step.PersistStep? {
      assert Stands(cfg, s.disk, step.path, s.pending[step.path].item);
    }
  }

  /** What the collision rule once found recorded it finds again as long as no item is lost. */
  lemma ExistingStays(cfg: Config, db: Catalog, db2: Catalog, hash: string, pl: Placement)
    requires forall p :: p in db.items ==> p in db2.items && db2.items[p] == db.items[p]
    requires Choose(cfg.u, db, hash, pl).Existing?
    ensures Choose(cfg.u, db2, hash, pl) == Choose(cfg.u, db, hash, pl)
  {
    hide PadInt, JoinRel, SuffixedFilename, Resolve;
  }

  lemma PersistedIsFound(cfg: Config, s: State, s2: State, path: string, blob: Blob)
    requires Inv(cfg, s) && Persist(s, s2, path, blob) && path in s2.db.items
    ensures var t := s.pending[path];
            Choose(cfg.u, s2.db, t.item.hash, t.request) == Existing(t.item) && s2.db.items[path] == t.item
  {
    hide PadInt, JoinRel, SuffixedFilename, Resolve, WellFormed, Built, Target, ValidHash, StagedAlone, Canonical;
    assert Stands(cfg, s.disk, path, s.pending[path].item);
    assert Expects(cfg, s.db, path, s.pending[path]);
  }

  /**
   * Once a placement is persisted, every later call with the same hash and the same request that answers at
   * all answers with that very item, and changes neither the disk nor the store.
   */
  lemma PlacedForGood(cfg: Config, states: seq<State>, steps: seq<Step>, i: nat, j: nat, path: string, blob: Blob)
    requires cfg.Valid() && Run(cfg, states, steps) && i < j < |states|
    requires steps[i] == PersistStep(path, blob) && path in states[i + 1].db.items
    ensures path in states[i].pending
    ensures var t := states[i].pending[path];
            forall d2, it :: PlaceStep(cfg, states[j].db, t.item.hash, t.request, states[j].disk, d2, Ok(it)) ==>
              it == t.item && d2 == states[j].disk
    ensures var t := states[i].pending[path];
            forall s2, it :: PlaceOk(cfg, states[j], s2, t.item.hash, t.request, it) ==> it == t.item && s2 == states[j]
    ensures var t := states[i].pending[path];
            Choose(cfg.u, states[j].db, t.item.hash, t.request) == Existing(t.item)
  {
    hide Inv, Init, Choose, Installed, WellFormed;
    assert Next(cfg, states[i], states[i + 1], steps[i]);
    var t := states[i].pending[path];
    RunInv(cfg, states, steps, i);
    PersistedIsFound(cfg, states[i], states[i + 1], path, blob);
    forall p | p in states[i + 1].db.items
      ensures p in states[j].db.items && states[j].db.items[p] == states[i + 1].db.items[p]
    {
      ItemsStay(cfg, states, steps, i + 1, j, p);
    }
    ExistingStays(cfg, states[i + 1].db, states[j].db, t.item.hash, t.request);
  }

  /** A new placement uses up the staged upload, if there was one. */
  lemma PlacedUsesUpload(cfg: Config, states: seq<State>, steps: seq<Step>, i: nat)
    requires cfg.Valid() && Run(cfg, states, steps) && i < |steps| && steps[i].PlaceOkStep?
    requires Choose(cfg.u, states[i].db, steps[i].hash, steps[i].pl).Fresh?
    ensures cfg.Staged(steps[i].hash) !in states[i + 1].disk.names
  {
    hide Inv, Init, Published, WellFormed, Choose, Target, ValidHash, CleanPath;
    var s, s2 := states[i], states[i + 1];
    assert Next(cfg, s, s2, steps[i]);
    RunInv(cfg, states, steps, i);
    var h, pl := steps[i].hash, steps[i].pl;
    var t := Choose(cfg.u, s.db, h, pl).target;
    InstalledIsPublished(cfg, s, s2.disk, h, Target(cfg.root, t));
    PublishedFacts(cfg, s.db, s.disk, s2.disk, h, Target(cfg.root, t));
    SourceHolds(cfg, s, h);
    TargetsAreNotStaged(cfg, t);
    assert StagedAlone(cfg, s.disk, h) by { InvStaged(cfg, s, h); }
    PublishedHolds(cfg, s.db, s.disk, s2.disk, h, Target(cfg.root, t));
  }

  /**
   * Why an item has the path it has, in any run: a new one stands under its sanitised name, unless an item with other
   * bytes already does, and its file is there; only then it is under the suffixed name.
   */
  lemma SuffixedOnlyIfTaken(cfg: Config, states: seq<State>, steps: seq<Step>, i: nat)
    requires cfg.Valid() && Run(cfg, states, steps) && i < |steps| && steps[i].PlaceOkStep?
    requires steps[i].item.relPath !in states[i].db.items
    ensures var s, h, pl, it := states[i], steps[i].hash, steps[i].pl, steps[i].item;
            var b := BasePath(cfg.u, pl);
            if b in s.db.items then
              && s.db.items[b].hash != h && s.db.items[b].relPath == b
              && s.disk.Holds(Target(cfg.root, Parts(s.db.items[b])), s.db.items[b].hash)
              && it.relPath == SuffixedPath(cfg.u, pl, h)
              && it.filename == SuffixedFilename(cfg.u, SanitizeFilename(cfg.u, pl.filename), h)
            else it.relPath == b && it.filename == SanitizeFilename(cfg.u, pl.filename)
  {
    hide Inv, Init, Installed, WellFormed, Choose, Target, ValidHash, CleanPath, BasePath, SuffixedPath, JoinRel;
    hide SanitizeAlbum, SanitizeFilename, SuffixedFilename;
    var s, h, pl := states[i], steps[i].hash, steps[i].pl;
    assert Next(cfg, s, states[i + 1], steps[i]);
    RunInv(cfg, states, steps, i);
    ChoiceExactly(cfg.u, s.db, h, pl);
    forall p | p in s.db.items
      ensures Stands(cfg, s.disk, p, s.db.items[p])
    {
      InvStands(cfg, s, p);
    }
    var c := Choose(cfg.u, s.db, h, pl);
    var it, b := steps[i].item, BasePath(cfg.u, pl);
    if c.Fresh? {
      Placer.NewItemFields(it.itemID, h, c.target, pl, it.createdAt);
      assert it.relPath == c.target.RelPath();
    }
  }

  /**
   * What a step can change at all, in any run: the catalogue only by persisting, the disk only by staging and placing;
   * staging adds one file, in an inode of its own, that holds its bytes, and after a crash nothing is pending.
   */
  lemma StepsChangeLittle(cfg: Config, states: seq<State>, steps: seq<Step>, i: nat)
    requires Run(cfg, states, steps) && i < |steps|
    ensures !steps[i].PersistStep? ==> states[i + 1].db == states[i].db
    ensures steps[i].PersistStep? || steps[i].GiveUpStep? || steps[i].CrashStep? ==>
              states[i + 1].disk == states[i].disk
    ensures steps[i].CrashStep? ==> states[i + 1].pending == map[]
    ensures steps[i].GiveUpStep? ==> states[i + 1].pending == states[i].pending - {steps[i].path}
    ensures steps[i].StageStep? ==>
              var staged, d, d2 := cfg.Staged(steps[i].hash), states[i].disk, states[i + 1].disk;
              && d2.Holds(staged, steps[i].hash) && d2.names[staged].ino !in d.content
              && d2.names - {staged} == d.names - {staged}
  {
    hide Init, PlaceStep, Insert, ValidHash;
    assert Next(cfg, states[i], states[i + 1], steps[i]);
  }

  /**
   * What persisting leaves in the catalogue, in any run: the item at its path, and the blob if its bytes were new,
   * unless the item's id is taken, and then nothing. Every other item and blob is as it was.
   */
  lemma PersistedExactly(cfg: Config, states: seq<State>, steps: seq<Step>, i: nat, path: string, blob: Blob)
    requires cfg.Valid() && Run(cfg, states, steps) && i < |steps| && steps[i] == PersistStep(path, blob)
    ensures path in states[i].pending && path !in states[i + 1].pending
    ensures var s, s2, it := states[i], states[i + 1], states[i].pending[path].item;
            if forall p :: p in s.db.items ==> s.db.items[p].itemID != it.itemID then
              && path in s2.db.items && s2.db.items[path] == it && s2.db.items - {path} == s.db.items
              && it.hash in s2.db.blobs && s2.db.blobs - {it.hash} == s.db.blobs - {it.hash}
              && s2.db.blobs[it.hash] == if it.hash in s.db.blobs then s.db.blobs[it.hash] else blob
            else s2.db == s.db
  {
    hide Inv, Init, WellFormed, Expects;
    var s := states[i];
    assert Next(cfg, s, states[i + 1], steps[i]);
    RunInv(cfg, states, steps, i);
    PendingIsNew(cfg, s, path);
    var it := s.pending[path].item;
    assert s.db.items[path := it] - {path} == s.db.items;
    assert s.db.blobs[it.hash := blob] - {it.hash} == s.db.blobs - {it.hash};
  }

  lemma PendingIsNew(cfg: Config, s: State, path: string)
    requires Inv(cfg, s) && path in s.pending
    ensures path !in s.db.items && s.pending[path].item.relPath == path
  {
  }

  lemma InvStands(cfg: Config, s: State, p: string)
    requires Inv(cfg, s) && p in s.db.items
    ensures Stands(cfg, s.disk, p, s.db.items[p])
  {
  }

  lemma InvStaged(cfg: Config, s: State, h: string)
    requires Inv(cfg, s) && ValidHash(h)
    ensures StagedAlone(cfg, s.disk, h)
  {
  }
}
