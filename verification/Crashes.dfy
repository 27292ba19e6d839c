/** A crash in the middle of a placement: whatever disk it leaves, some call of Place ends with that disk. */
module Crashes {
  import opened Sanitize
  import opened Paths
  import opened Schema
  import opened Disk
  import opened Placer

  /** After which call on the file system the process dies; making directories can be cut short anywhere. */
  datatype Point =
    | InAlbumDirs(made: nat)
    | AfterPublish
    | InStagingDirs(made: nat)
    | AfterLink
    | AfterLinkRename
    | AfterRemove

  function Dirs(d: Disk, p: Path, made: nat): Option<Disk> {
    if made <= |p| then MkdirAll(d, p[..made]) else None
  }

  /** The disk as the album's directories and those of the staging area have been made. */
  function LinkReady(cfg: Config, d: Disk, abs: Path): Option<Disk>
    requires abs != []
  {
    match MkdirAll(d, Parent(abs))
    case None => None
    case Some(d1) => MkdirAll(d1, cfg.staging)
  }

  function Linked(cfg: Config, db: Catalog, d: Disk, hash: string, abs: Path, suffix: string): Option<Disk>
    requires abs != []
  {
    match LinkReady(cfg, d, abs)
    case None => None
    case Some(d1) =>
      if cfg.Staged(hash) in d.names || Source(cfg, db, d, hash).None? then None
      else Link(d1, Source(cfg, db, d, hash).value, cfg.TempLink(suffix))
  }

  /** The disk a crash leaves at some point of a placement at abs, if the placement gets that far. */
  function DiskAt(cfg: Config, db: Catalog, d: Disk, hash: string, abs: Path, suffix: string, at: Point): Option<Disk>
    requires abs != []
  {
    match at
    case InAlbumDirs(made) => Dirs(d, Parent(abs), made)
    case AfterPublish =>
      if MkdirAll(d, Parent(abs)).None? || cfg.Staged(hash) !in d.names then None
      else Rename(MkdirAll(d, Parent(abs)).value, cfg.Staged(hash), abs)
    case InStagingDirs(made) =>
      if MkdirAll(d, Parent(abs)).None? then None else Dirs(MkdirAll(d, Parent(abs)).value, cfg.staging, made)
    case AfterLink => Linked(cfg, db, d, hash, abs, suffix)
    case AfterLinkRename =>
      if Linked(cfg, db, d, hash, abs, suffix).None? then None
      else Rename(Linked(cfg, db, d, hash, abs, suffix).value, cfg.TempLink(suffix), abs)
    case AfterRemove =>
      if Linked(cfg, db, d, hash, abs, suffix).None? then None
      else Remove(Linked(cfg, db, d, hash, abs, suffix).value, cfg.TempLink(suffix))
  }

  lemma PartOfDirs(cfg: Config, d: Disk, d1: Disk, abs: Path, p: Path, made: nat)
    requires WellFormed(d1) && Touches(d, d1, iset{}) && abs != [] && (p == Parent(abs) || p == cfg.staging)
    requires forall q :: q in d1.names && q !in d.names ==> q <= Parent(abs) || q <= cfg.staging
    ensures Dirs(d1, p, made).Some? ==> MoreDirs(cfg, d, Dirs(d1, p, made).value, abs)
  {
    hide MkdirAll, WellFormed;
    if Dirs(d1, p, made).Some? {
      MkdirAllFacts(d1, p[..made]);
      DirsOfPrefix(d1, Dirs(d1, p, made).value, p, made);
      TouchesAfterDirs(d, d1, Dirs(d1, p, made).value, iset{});
    }
  }

  lemma AlbumDirsMade(cfg: Config, d: Disk, abs: Path)
    requires WellFormed(d) && abs != []
    ensures MkdirAll(d, Parent(abs)).Some? ==> DirsMade(cfg, d, MkdirAll(d, Parent(abs)).value, abs)
  {
    hide MkdirAll, WellFormed;
    MkdirAllFacts(d, Parent(abs));
  }

  lemma LinkReadyIsDirs(cfg: Config, d: Disk, abs: Path)
    requires WellFormed(d) && abs != []
    ensures LinkReady(cfg, d, abs).Some? ==> DirsMade(cfg, d, LinkReady(cfg, d, abs).value, abs)
  {
    hide MkdirAll, WellFormed;
    AlbumDirsMade(cfg, d, abs);
    if LinkReady(cfg, d, abs).Some? {
      var d1 := MkdirAll(d, Parent(abs)).value;
      MkdirAllFacts(d1, cfg.staging);
      TouchesAfterDirs(d, d1, LinkReady(cfg, d, abs).value, iset{});
    }
  }

  lemma SourceIsInLibrary(cfg: Config, db: Catalog, d: Disk, hash: string)
    requires cfg.Valid() && cfg.Staged(hash) !in d.names && Source(cfg, db, d, hash).Some?
    ensures var src := Source(cfg, db, d, hash).value; d.IsFile(src) && cfg.root < src
  {
    hide CleanPath, SafeAbs;
    SafeAbsIsContainment(cfg.root, db.blobs[hash].relPath);
  }

  /** Every disk a crash can leave is one after a failed call, or one after a call that published. */
  lemma CrashLeavesAnOutcome(cfg: Config, db: Catalog, d: Disk, hash: string, abs: Path, suffix: string, at: Point)
    requires cfg.Valid() && WellFormed(d) && cfg.root < abs
    requires DiskAt(cfg, db, d, hash, abs, suffix, at).Some?
    ensures var d2 := DiskAt(cfg, db, d, hash, abs, suffix, at).value;
            Untouched(cfg, d, d2) || Published(cfg, db, d, d2, hash, abs)
  {
    hide CleanPath, MkdirAll, WellFormed, Link, Rename, Remove, Untouched, Published, Source, LinkReady;
    var d2 := DiskAt(cfg, db, d, hash, abs, suffix, at).value;
    AlbumDirsMade(cfg, d, abs);
    match at
    case InAlbumDirs(made) =>
      PartOfDirs(cfg, d, d, abs, Parent(abs), made);
      DirsLeftBehind(cfg, d, d2, abs);
    case InStagingDirs(made) =>
      PartOfDirs(cfg, d, MkdirAll(d, Parent(abs)).value, abs, cfg.staging, made);
      DirsLeftBehind(cfg, d, d2, abs);
    case AfterPublish =>
      StagedPublished(cfg, db, d, MkdirAll(d, Parent(abs)).value, d2, hash, abs);
    case AfterLinkRename =>
      LinkReadyIsDirs(cfg, d, abs);
      TempIsStaging(cfg, suffix);
      LinkPublished(cfg, db, d, LinkReady(cfg, d, abs).value, d2, hash, abs, cfg.TempLink(suffix));
    case _ =>
      LinkReadyIsDirs(cfg, d, abs);
      SourceIsInLibrary(cfg, db, d, hash);
      var d1 := LinkReady(cfg, d, abs).value;
      LinkLeftBehind(cfg, d, d1, Linked(cfg, db, d, hash, abs, suffix).value, d2, Source(cfg, db, d, hash).value,
                     suffix, abs);
  }

  lemma TempIsStaging(cfg: Config, suffix: string)
    ensures cfg.TempLink(suffix) in cfg.TempLinks() && exists x :: cfg.TempLink(suffix) == cfg.staging + [x]
  {
    assert cfg.TempLink(suffix) == cfg.staging + [LINK_TMP_PREFIX + suffix];
  }

  /** So a crash in the middle of Place is a call that fails or succeeds, and then the crash. */
  lemma CrashIsACall(cfg: Config, db: Catalog, d: Disk, hash: string, pl: Placement, suffix: string,
                     at: Point) returns (r: Result<Item>)
    requires cfg.Valid() && WellFormed(d) && ValidHash(hash) && Choose(cfg.u, db, hash, pl).Fresh?
    requires var abs := Target(cfg.root, Choose(cfg.u, db, hash, pl).target);
             abs != [] && DiskAt(cfg, db, d, hash, abs, suffix, at).Some?
    ensures var abs := Target(cfg.root, Choose(cfg.u, db, hash, pl).target);
            PlaceStep(cfg, db, hash, pl, d, DiskAt(cfg, db, d, hash, abs, suffix, at).value, r)
  {
    hide CleanPath, ValidHash, Choose, Target, Untouched, Published, DiskAt, WellFormed, SafeAbs;
    ChosenIsBuilt(cfg, db, hash, pl);
    var t := Choose(cfg.u, db, hash, pl).target;
    var abs := Target(cfg.root, t);
    CrashLeavesAnOutcome(cfg, db, d, hash, abs, suffix, at);
    var d2 := DiskAt(cfg, db, d, hash, abs, suffix, at).value;
    if Untouched(cfg, d, d2) {
      r := Err(IoFailed);
    } else {
      r := Ok(NewItem("", hash, t, pl, 0));
    }
  }
}
