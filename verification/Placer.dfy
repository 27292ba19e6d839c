/** Placing a blob in the library: choosing its path, and installing its bytes there. */
module Placer {
  import opened Sanitize
  import opened SanitizeLaws
  import opened SuffixLaws
  import opened Text
  import opened Paths
  import opened Schema
  import opened Disk

  /** core.Placement, with the calendar year and month at the capture site already read off the timestamp. */
  datatype Placement = Placement(
    album: string, year: int, month: int, capturedAtMs: int, capturedOffsetMin: int, filename: string)

  /** What the placer reads of the store: items by their unique path, blobs by hash. */
  datatype Catalog = Catalog(items: map<string, Item>, blobs: map<string, Blob>)

  datatype PlaceError = InvalidHash | NoSource | Collision | UnsafePath | StoreFailed | IoFailed | NoItemID

  datatype Result<+T> = Ok(value: T) | Err(error: PlaceError)

  /** What the collision rule decides: a new path, a placement already recorded, or nowhere to go. */
  datatype Choice = Fresh(target: Resolved) | Existing(item: Item) | Taken

  const STAGED_SUFFIX := ".part"
  const LINK_TMP_PREFIX := ".link-"

  /** Where the library and the uploads in flight live: two directories, neither inside the other. */
  datatype Config = Config(u: Unicode, root: Path, staging: Path) {
    ghost predicate Valid() {
      CleanPath(root) && !(root <= staging) && !(staging <= root)
    }

    function Staged(hash: string): Path {
      staging + [hash + STAGED_SUFFIX]
    }

    function TempLink(suffix: string): Path {
      staging + [LINK_TMP_PREFIX + suffix]
    }

    ghost function TempLinks(): iset<Path> {
      iset suffix: string :: TempLink(suffix)
    }
  }

  /** What the files of the staging directory are called. */
  lemma StagingNames(cfg: Config, hash: string, suffix: string)
    ensures cfg.Staged(hash) == cfg.staging + [hash + ".part"]
    ensures cfg.TempLink(suffix) == cfg.staging + [".link-" + suffix]
  {
  }

  function Suffixed(u: Unicode, r: Resolved, hash: string): Resolved {
    r.(filename := SuffixedFilename(u, r.filename, hash))
  }

  function BaseOf(u: Unicode, pl: Placement): Resolved {
    Resolve(u, pl.album, pl.year, pl.month, pl.filename)
  }

  /**
   * The collision rule: the base name if its path is free; the recorded item if the same bytes are there;
   * else the same with the hash-suffixed name, and an error if even that path belongs to other bytes.
   */
  function Choose(u: Unicode, db: Catalog, hash: string, pl: Placement): Choice {
    var r := BaseOf(u, pl);
    var s := Suffixed(u, r, hash);
    if r.RelPath() !in db.items then Fresh(r)
    else if db.items[r.RelPath()].hash == hash then Existing(db.items[r.RelPath()])
    else if s.RelPath() !in db.items then Fresh(s)
    else if db.items[s.RelPath()].hash == hash then Existing(db.items[s.RelPath()])
    else Taken
  }

  /** The two paths a placement can get, as text: under the sanitised name, and under that name with the suffix. */
  function BasePath(u: Unicode, pl: Placement): string {
    JoinRel(SanitizeAlbum(u, pl.album), pl.year, pl.month, SanitizeFilename(u, pl.filename))
  }

  function SuffixedPath(u: Unicode, pl: Placement, hash: string): string {
    JoinRel(SanitizeAlbum(u, pl.album), pl.year, pl.month,
            SuffixedFilename(u, SanitizeFilename(u, pl.filename), hash))
  }

  /** Items with other bytes stand at both paths. */
  predicate OthersAtBoth(u: Unicode, db: Catalog, hash: string, pl: Placement) {
    var b, s := BasePath(u, pl), SuffixedPath(u, pl, hash);
    b in db.items && db.items[b].hash != hash && s in db.items && db.items[s].hash != hash
  }

  /**
   * The collision rule in full: the sanitised name is what a placement gets as long as its path is free or has the
   * same bytes; the suffixed name only when other bytes are there; and nothing only when both paths have others.
   */
  lemma ChoiceExactly(u: Unicode, db: Catalog, hash: string, pl: Placement)
    ensures var b, s, c := BasePath(u, pl), SuffixedPath(u, pl, hash), Choose(u, db, hash, pl);
            && (c.Fresh? && c.target.RelPath() == b <==> b !in db.items)
            && (b !in db.items ==> c == Fresh(Resolved(SanitizeAlbum(u, pl.album), pl.year, pl.month,
                                                        SanitizeFilename(u, pl.filename))))
            && (b in db.items && db.items[b].hash == hash ==> c == Existing(db.items[b]))
            && (b in db.items && db.items[b].hash != hash && s !in db.items ==>
                  c == Fresh(Resolved(SanitizeAlbum(u, pl.album), pl.year, pl.month,
                                      SuffixedFilename(u, SanitizeFilename(u, pl.filename), hash)))
                  && c.target.RelPath() == s)
            && (b in db.items && db.items[b].hash != hash && s in db.items && db.items[s].hash == hash ==>
                  c == Existing(db.items[s]))
            && (c == Taken <==> b in db.items && db.items[b].hash != hash && s in db.items && db.items[s].hash != hash)
  {
    hide JoinRel, SanitizeAlbum, SanitizeFilename, SuffixedFilename;
    assert BaseOf(u, pl).RelPath() == BasePath(u, pl);
    assert Suffixed(u, BaseOf(u, pl), hash).RelPath() == SuffixedPath(u, pl, hash);
  }

  /** The bytes for hash: the staged upload, or the canonical file of the stored blob. */
  function Source(cfg: Config, db: Catalog, d: Disk, hash: string): Option<Path> {
    if cfg.Staged(hash) in d.names then Some(cfg.Staged(hash))
    else if hash !in db.blobs then None
    else
      var src := SafeAbs(cfg.root, db.blobs[hash].relPath);
      if src.Some? && d.IsFile(src.value) then src else None
  }

  /** Nothing but temporary links comes into being in the staging directory. */
  ghost predicate NothingStaged(cfg: Config, d: Disk, d2: Disk) {
    forall x: string :: cfg.staging + [x] in d2.names && cfg.staging + [x] !in cfg.TempLinks() ==>
        cfg.staging + [x] in d.names
  }

  /** Publishing hash at abs, and nothing else: the name now has the source's inode, and a staged upload is gone. */
  ghost predicate Published(cfg: Config, db: Catalog, d: Disk, d2: Disk, hash: string, abs: Path) {
    var src := Source(cfg, db, d, hash);
    && src.Some? && d.IsFile(src.value) && !d.IsDir(abs)
    && WellFormed(d2) && NothingStaged(cfg, d, d2) && d2.IsFile(abs) && d2.names[abs] == d.names[src.value]
    && (if src.value == cfg.Staged(hash) then
          Touches(d, d2, iset{src.value, abs}) &&
            (src.value in d2.names ==> abs in d.names && d.names[abs] == d.names[src.value])
        else Touches(d, d2, iset{abs}) || LinkWasThere(cfg, d, d2, src.value, abs))
  }

  /**
   * The one way a successful placement leaves a temporary link: the destination was that very file already,
   * and looking at it failed, so that it was linked and renamed over itself.
   */
  ghost predicate LinkWasThere(cfg: Config, d: Disk, d2: Disk, src: Path, abs: Path) {
    && src in d.names && abs in d.names && d.names[abs] == d.names[src]
    && exists t :: t in cfg.TempLinks() && Touches(d, d2, iset{t}) && t in d2.names && d2.names[t] == d.names[src]
  }

  /**
   * The canonical path is a directory, and the very one the placement asks for: the source takes the two for the
   * same file, and has nothing to do.
   */
  predicate SameDirectory(cfg: Config, db: Catalog, d: Disk, hash: string, abs: Path) {
    && cfg.Staged(hash) !in d.names && hash in db.blobs
    && SafeAbs(cfg.root, db.blobs[hash].relPath) == Some(abs) && d.IsDir(abs)
  }

  ghost predicate Installed(cfg: Config, db: Catalog, d: Disk, d2: Disk, hash: string, abs: Path) {
    Published(cfg, db, d, d2, hash, abs) || (SameDirectory(cfg, db, d, hash, abs) && d2 == d)
  }

  /** os.SameFile: one inode, or one directory. */
  predicate SameFile(n: Node, p: Path, m: Node, q: Path) {
    if n.Dir? then m.Dir? && p == q else n == m
  }

  /** A placement that failed: no file is touched, at worst a temporary link to a library file stays behind. */
  ghost predicate Untouched(cfg: Config, d: Disk, d2: Disk) {
    && WellFormed(d2) && NothingStaged(cfg, d, d2) && Touches(d, d2, cfg.TempLinks())
    && (forall t :: t in d2.names && t in cfg.TempLinks() && (t !in d.names || d.names[t] != d2.names[t]) ==>
          exists q :: q in d.names && cfg.root < q && d.names[q] == d2.names[t])
  }

  /** Everything that must hold for a reliable file system to be able to publish hash at abs. */
  ghost predicate Publishable(cfg: Config, db: Catalog, d: Disk, hash: string, abs: Path, tmp: Path) {
    var src := Source(cfg, db, d, hash);
    && src.Some? && d.IsFile(src.value) && !d.IsDir(abs)
    && abs != [] && MkdirAll(d, Parent(abs)).Some?
    && (src.value == cfg.Staged(hash) || (abs in d.names && d.names[abs] == d.names[src.value])
        || (tmp !in d.names && MkdirAll(d, cfg.staging).Some?))
  }

  ghost predicate Installable(cfg: Config, db: Catalog, d: Disk, hash: string, abs: Path, tmp: Path) {
    Publishable(cfg, db, d, hash, abs, tmp) || SameDirectory(cfg, db, d, hash, abs)
  }

  /** When a reliable file system lets a placement succeed. */
  ghost predicate Placeable(cfg: Config, db: Catalog, hash: string, pl: Placement, d: Disk, tmp: Path) {
    ValidHash(hash) &&
    match Choose(cfg.u, db, hash, pl)
    case Existing(_) => true
    case Taken => false
    case Fresh(t) => Installable(cfg, db, d, hash, Target(cfg.root, t), tmp)
  }

  /** The item built for a fresh target. */
  function NewItem(id: string, hash: string, r: Resolved, pl: Placement, now: int): Item {
    Item(id, hash, r.album, r.year, r.month, r.filename, r.RelPath(), pl.capturedAtMs, pl.capturedOffsetMin, "", now)
  }

  /** One call of Place, from the disk before to the disk after and the answer. */
  ghost predicate PlaceStep(cfg: Config, db: Catalog, hash: string, pl: Placement, d: Disk, d2: Disk, r: Result<Item>) {
    var c := Choose(cfg.u, db, hash, pl);
    match r
    case Ok(it) =>
      && ValidHash(hash)
      && (match c
          case Existing(occupant) => it == occupant && d2 == d
          case Fresh(t) =>
            && it == NewItem(it.itemID, hash, t, pl, it.createdAt)
            && Installed(cfg, db, d, d2, hash, Target(cfg.root, t))
          case Taken => false)
    case Err(NoItemID) => ValidHash(hash) && c.Fresh? && Installed(cfg, db, d, d2, hash, Target(cfg.root, c.target))
    case Err(e) => Untouched(cfg, d, d2) && (e == InvalidHash <==> !ValidHash(hash)) && (e == Collision ==> c == Taken)
  }

  lemma ChosenIsBuilt(cfg: Config, db: Catalog, hash: string, pl: Placement)
    requires cfg.Valid() && ValidHash(hash)
    ensures Choose(cfg.u, db, hash, pl).Fresh? ==>
              var t := Choose(cfg.u, db, hash, pl).target;
              && Built(t) && SafeAbs(cfg.root, t.RelPath()) == Some(Target(cfg.root, t))
              && cfg.root < Target(cfg.root, t) && !(cfg.staging <= Target(cfg.root, t))
  {
    hide PadInt, Resolve, SafeAbs, CleanPath, JoinRel, SuffixedFilename, ValidHash;
    if Choose(cfg.u, db, hash, pl).Fresh? {
      var r := BaseOf(cfg.u, pl);
      BaseAndSuffixedAreBuilt(cfg.u, hash, pl);
      var t := Choose(cfg.u, db, hash, pl).target;
      assert t == r || t == Suffixed(cfg.u, r, hash);
      BuiltPathLands(cfg.root, t);
      Apart(cfg, Target(cfg.root, t));
    }
  }

  /** On ASCII every path that is chosen lands exactly four segments deep, suffixed or not. */
  lemma AsciiLandsFourDeep(cfg: Config, db: Catalog, hash: string, pl: Placement)
    requires cfg.Valid() && ValidHash(hash) && cfg.u.AsciiExact() && Ascii(pl.filename)
    requires Choose(cfg.u, db, hash, pl).Fresh?
    ensures var t := Choose(cfg.u, db, hash, pl).target;
            Target(cfg.root, t) == cfg.root + t.Segments() && |Target(cfg.root, t)| == |cfg.root| + 4
  {
    hide CleanPath, PadInt, JoinRel, SafeAbs, SanitizeFilename, SuffixedFilename, SanitizeAlbum, DotOnly, ValidHash;
    SuffixedAsciiIsComponent(cfg.u, pl.filename, hash);
    SanitizeFilenameIsComponent(cfg.u, pl.filename);
  }

  lemma BaseAndSuffixedAreBuilt(u: Unicode, hash: string, pl: Placement)
    requires ValidHash(hash)
    ensures var r := BaseOf(u, pl);
            var s := Suffixed(u, r, hash);
            Built(r) && Built(s) && r.filename != "" && (s.filename == "" ==> Component(r.filename))
  {
    hide PadInt, SuffixedFilename, SanitizeAlbum, SanitizeFilename, ValidHash, DotOnly;
    ResolveIsBuilt(u, pl.album, pl.year, pl.month, pl.filename);
    SuffixedFilenameIsSafe(u, pl.filename, hash);
  }

  lemma PrefixesNest(a: Path, b: Path, p: Path)
    requires a <= p && b <= p
    ensures a <= b || b <= a
  {
    if |a| <= |b| {
      assert a == p[..|a|] == b[..|a|];
    } else {
      assert b == p[..|b|] == a[..|b|];
    }
  }

  lemma PrefixOfPrefix(a: Path, b: Path, p: Path)
    requires a <= b && b <= p
    ensures a <= p
  {
    assert a == b[..|a|] == p[..|a|];
  }

  /** Nothing below the library root is below the staging directory. */
  lemma Apart(cfg: Config, p: Path)
    requires cfg.Valid() && cfg.root <= p
    ensures !(cfg.staging <= p)
    ensures forall x: string :: cfg.staging + [x] != p && !(cfg.root <= cfg.staging + [x]) && !(cfg.staging + [x] <= p)
  {
    hide CleanPath;
    if cfg.staging <= p {
      PrefixesNest(cfg.root, cfg.staging, p);
    }
    forall x: string
      ensures cfg.staging + [x] != p && !(cfg.root <= cfg.staging + [x]) && !(cfg.staging + [x] <= p)
    {
      var q := cfg.staging + [x];
      assert cfg.staging <= q;
      if cfg.root <= q {
        PrefixesNest(cfg.root, cfg.staging, q);
      }
      if q <= p {
        PrefixOfPrefix(cfg.staging, q, p);
      }
    }
  }

  /** Staged uploads and temporary links never share a name. */
  lemma StagedIsNotTemp(cfg: Config, hash: string, suffix: string)
    requires ValidHash(hash)
    ensures cfg.Staged(hash) != cfg.TempLink(suffix)
  {
    var a, b := hash + STAGED_SUFFIX, LINK_TMP_PREFIX + suffix;
    assert IsHex(hash[0]);
    assert a[0] == hash[0] && b[0] == '.';
    assert cfg.Staged(hash)[|cfg.staging|] == a && cfg.TempLink(suffix)[|cfg.staging|] == b;
  }

  /** Directories on the way to abs or to the staging directory have been made; nothing else has happened. */
  ghost predicate MoreDirs(cfg: Config, d: Disk, d1: Disk, abs: Path) {
    && WellFormed(d1) && Touches(d, d1, iset{}) && abs != []
    && (forall q :: q in d1.names && q !in d.names ==> q <= Parent(abs) || q <= cfg.staging)
  }

  ghost predicate DirsMade(cfg: Config, d: Disk, d1: Disk, abs: Path) {
    MoreDirs(cfg, d, d1, abs) && d1.IsDir(Parent(abs)) && MkdirAll(d, Parent(abs)).Some?
  }

  /** Making directories adds no file, no name in the staging directory, and not the target. */
  lemma DirsMadeFacts(cfg: Config, d: Disk, d1: Disk, abs: Path)
    requires cfg.Valid() && cfg.root < abs && MoreDirs(cfg, d, d1, abs)
    ensures abs in d1.names <==> abs in d.names
    ensures abs in d.names ==> d1.names[abs] == d.names[abs]
    ensures forall x: string :: cfg.staging + [x] in d1.names <==> cfg.staging + [x] in d.names
    ensures NothingStaged(cfg, d, d1)
    ensures forall p :: d1.IsFile(p) <==> d.IsFile(p)
    ensures forall p :: p in d.names ==> d1.names[p] == d.names[p]
  {
    hide CleanPath, WellFormed, MkdirAll;
    assert cfg.root <= Parent(abs) && cfg.root <= abs;
    Apart(cfg, abs);
    Apart(cfg, Parent(abs));
    assert !(abs <= Parent(abs));
    if abs <= cfg.staging {
      PrefixOfPrefix(cfg.root, abs, cfg.staging);
    }
    forall x: string
      ensures cfg.staging + [x] in d1.names <==> cfg.staging + [x] in d.names
    {
      var q := cfg.staging + [x];
      assert !(q <= cfg.staging);
    }
  }

  lemma StagedPublished(cfg: Config, db: Catalog, d: Disk, d1: Disk, d2: Disk, hash: string, abs: Path)
    requires cfg.Valid() && cfg.root < abs && DirsMade(cfg, d, d1, abs)
    requires cfg.Staged(hash) in d.names && Rename(d1, cfg.Staged(hash), abs) == Some(d2)
    ensures Published(cfg, db, d, d2, hash, abs) && NoNewTemps(cfg, d, d2)
  {
    hide CleanPath, SafeAbs, MkdirAll, WellFormed;
    DirsMadeFacts(cfg, d, d1, abs);
    Apart(cfg, abs);
    assert cfg.Staged(hash) == cfg.staging + [hash + STAGED_SUFFIX];
    RenameFacts(d1, cfg.Staged(hash), abs);
  }

  lemma LinkPublished(cfg: Config, db: Catalog, d: Disk, d1: Disk, d2: Disk, hash: string, abs: Path, tmp: Path)
    requires cfg.Valid() && cfg.root < abs && DirsMade(cfg, d, d1, abs) && exists x :: tmp == cfg.staging + [x]
    requires cfg.Staged(hash) !in d.names && Source(cfg, db, d, hash).Some?
    requires tmp in cfg.TempLinks()
    requires var src := Source(cfg, db, d, hash).value;
             Link(d1, src, tmp).Some? && Rename(Link(d1, src, tmp).value, tmp, abs) == Some(d2)
    ensures Published(cfg, db, d, d2, hash, abs)
    ensures !(abs in d.names && d.names[abs] == d.names[Source(cfg, db, d, hash).value]) ==> NoNewTemps(cfg, d, d2)
  {
    hide CleanPath, SafeAbs, MkdirAll, WellFormed, Link, Rename, Touches;
    var src := Source(cfg, db, d, hash).value;
    DirsMadeFacts(cfg, d, d1, abs);
    Apart(cfg, abs);
    LinkThenRename(d1, src, tmp, abs);
    LinkNeedsFree(d1, src, tmp);
    RenameNeedsFile(Link(d1, src, tmp).value, tmp, abs);
    TouchesAfterDirs(d, d1, d2, iset{tmp, abs});
    LinkRenameNames(d1, src, tmp, abs);
    assert NothingStaged(cfg, d, d2);
    if abs in d.names && d.names[abs] == d.names[src] {
      assert iset{tmp, abs} == iset{abs, tmp};
      TouchesLess(d, d2, abs, tmp);
      assert d2.names[tmp] == d.names[src] by { LinkNoOp(d1, src, tmp, abs); }
      assert LinkWasThere(cfg, d, d2, src, abs);
    } else {
      TouchesLess(d, d2, tmp, abs);
    }
  }

  lemma LinkRenameNames(d: Disk, src: Path, tmp: Path, dst: Path)
    requires Link(d, src, tmp).Some? && Rename(Link(d, src, tmp).value, tmp, dst).Some?
    ensures forall p :: p in Rename(Link(d, src, tmp).value, tmp, dst).value.names ==>
              p in d.names || p == tmp || p == dst
  {
  }

  lemma LinkNoOp(d: Disk, src: Path, tmp: Path, dst: Path)
    requires Link(d, src, tmp).Some? && Rename(Link(d, src, tmp).value, tmp, dst).Some?
    requires tmp != dst && dst in d.names && d.names[dst] == d.names[src]
    ensures Rename(Link(d, src, tmp).value, tmp, dst).value == Link(d, src, tmp).value
  {
  }

  /** Where a name is taken already, the directories to it are there. */
  lemma ParentIsThere(d: Disk, abs: Path)
    requires WellFormed(d) && abs != []
    ensures abs in d.names ==> MkdirAll(d, Parent(abs)) == Some(d)
  {
  }

  lemma LinkNeedsFree(d: Disk, src: Path, tmp: Path)
    requires Link(d, src, tmp).Some?
    ensures tmp !in d.names && Link(d, src, tmp).value.names == d.names[tmp := d.names[src]]
  {
  }

  lemma RenameNeedsFile(d: Disk, src: Path, dst: Path)
    requires Rename(d, src, dst).Some?
    ensures !d.IsDir(dst)
  {
  }

  /** A failed rename leaves the temporary link, or has it removed again. */
  lemma LinkLeftBehind(cfg: Config, d: Disk, d1: Disk, d2: Disk, d3: Disk, src: Path, suffix: string, abs: Path)
    requires cfg.Valid() && cfg.root < abs && DirsMade(cfg, d, d1, abs) && cfg.root < src && d.IsFile(src)
    requires Link(d1, src, cfg.TempLink(suffix)) == Some(d2)
    requires d3 == d2 || Remove(d2, cfg.TempLink(suffix)) == Some(d3)
    ensures Untouched(cfg, d, d3)
  {
    hide CleanPath, MkdirAll, WellFormed, Touches;
    var tmp := cfg.TempLink(suffix);
    DirsMadeFacts(cfg, d, d1, abs);
    LinkFacts(d1, src, tmp);
    LinkNeedsFree(d1, src, tmp);
    TouchesAfterDirs(d, d1, d2, iset{tmp});
    RemoveKeepsTree(d2, tmp);
    assert tmp in cfg.TempLinks();
    if d3 != d2 {
      TouchesAfterRemove(d, d2, d3, tmp);
    }
    TouchesMore(d, d3, iset{tmp}, cfg.TempLinks());
    forall t | t in d3.names && t in cfg.TempLinks() && (t !in d.names || d.names[t] != d3.names[t])
      ensures exists q :: q in d.names && cfg.root < q && d.names[q] == d3.names[t]
    {
      assert t in d2.names && d3.names[t] == d2.names[t];
      assert exists x :: t == cfg.TempLink(x);
      assert t == tmp;
      assert src in d.names && d.names[src] == d3.names[t];
    }
  }

  lemma TouchesMore(d: Disk, d2: Disk, s: iset<Path>, t: iset<Path>)
    requires Touches(d, d2, s) && s <= t
    ensures Touches(d, d2, t)
  {
  }

  lemma TouchesAfterRemove(d: Disk, d2: Disk, d3: Disk, p: Path)
    requires Touches(d, d2, iset{p}) && Remove(d2, p) == Some(d3)
    ensures Touches(d, d3, iset{p})
  {
  }

  ghost predicate NoNewTemps(cfg: Config, d: Disk, d2: Disk) {
    forall x: string :: cfg.TempLink(x) in d2.names ==> cfg.TempLink(x) in d.names
  }

  /** There is no staged upload, and the path has the canonical file's inode already. */
  ghost predicate ThereAlready(cfg: Config, db: Catalog, d: Disk, hash: string, abs: Path) {
    var src := Source(cfg, db, d, hash);
    && cfg.Staged(hash) !in d.names && src.Some? && src.value in d.names
    && abs in d.names && d.names[abs] == d.names[src.value]
  }

  lemma DirsLeftBehind(cfg: Config, d: Disk, d1: Disk, abs: Path)
    requires cfg.Valid() && cfg.root < abs && MoreDirs(cfg, d, d1, abs)
    ensures Untouched(cfg, d, d1) && NoNewTemps(cfg, d, d1)
  {
    hide WellFormed, CleanPath;
    DirsMadeFacts(cfg, d, d1, abs);
  }

  /** On a reliable system, linking and renaming over works out exactly when the names allow it. */
  lemma LinkOutcome(cfg: Config, d: Disk, d1: Disk, src: Path, suffix: string, abs: Path)
    requires cfg.Valid() && cfg.root < abs && DirsMade(cfg, d, d1, abs) && d.IsFile(src) && d1.IsDir(cfg.staging)
    ensures var tmp := cfg.TempLink(suffix);
            && (Link(d1, src, tmp).Some? <==> tmp !in d.names)
            && (tmp !in d.names ==> (Rename(Link(d1, src, tmp).value, tmp, abs).Some? <==> !d.IsDir(abs)))
  {
    hide CleanPath, MkdirAll, WellFormed;
    var tmp := cfg.TempLink(suffix);
    DirsMadeFacts(cfg, d, d1, abs);
    Apart(cfg, abs);
    assert tmp == cfg.staging + [LINK_TMP_PREFIX + suffix] && Parent(tmp) == cfg.staging;
  }

  lemma RemoveKeepsTree(d: Disk, p: Path)
    requires WellFormed(d)
    ensures Remove(d, p).Some? ==> WellFormed(Remove(d, p).value)
  {
    if Remove(d, p).Some? {
      var d2 := Remove(d, p).value;
      assert forall q :: q in d2.names && q != [] ==> Parent(q) in d.names && d.names[Parent(q)] == Dir;
    }
  }

  class Placer {
    const cfg: Config
    const fs: FileSystem

    constructor (cfg: Config, fs: FileSystem)
      ensures this.cfg == cfg && this.fs == fs
    {
      this.cfg, this.fs := cfg, fs;
    }

    /** A store lookup; the store may be out of order for reasons of its own. */
    method ItemAt(db: Catalog, relPath: string) returns (r: Result<Option<Item>>)
      ensures r.Err? ==> fs.flaky && r.error == StoreFailed
      ensures r.Ok? ==> r.value == if relPath in db.items then Some(db.items[relPath]) else None
    {
      var fail: bool := *;
      if fs.flaky && fail {
        return Err(StoreFailed);
      }
      r := Ok(if relPath in db.items then Some(db.items[relPath]) else None);
    }

    method ResolveCollision(db: Catalog, hash: string, pl: Placement) returns (r: Result<Choice>)
      ensures r.Err? ==> fs.flaky && r.error == StoreFailed
      ensures r.Ok? ==> r.value == Choose(cfg.u, db, hash, pl)
      ensures r.Ok? ==>
                var b, s := BasePath(cfg.u, pl), SuffixedPath(cfg.u, pl, hash);
                && (b !in db.items ==> r.value.Fresh? && r.value.target.RelPath() == b)
                && (b in db.items && db.items[b].hash == hash ==> r.value == Existing(db.items[b]))
                && (b in db.items && db.items[b].hash != hash && s !in db.items ==>
                      r.value.Fresh? && r.value.target.RelPath() == s)
                && (b in db.items && db.items[b].hash != hash && s in db.items ==>
                      r.value == if db.items[s].hash == hash then Existing(db.items[s]) else Taken)
    {
      ChoiceExactly(cfg.u, db, hash, pl);
      hide SanitizeAlbum, SanitizeFilename, SuffixedFilename;
      var base := Resolve(cfg.u, pl.album, pl.year, pl.month, pl.filename);
      var occupant := ItemAt(db, base.RelPath());
      if occupant.Err? {
        return Err(occupant.error);
      }
      if occupant.value.None? {
        return Ok(Fresh(base));
      }
      if occupant.value.value.hash == hash {
        return Ok(Existing(occupant.value.value));
      }
      var suffixed := base.(filename := SuffixedFilename(cfg.u, base.filename, hash));
      occupant := ItemAt(db, suffixed.RelPath());
      if occupant.Err? {
        return Err(occupant.error);
      }
      r := match occupant.value
           case None => Ok(Fresh(suffixed))
           case Some(it) => if it.hash == hash then Ok(Existing(it)) else Ok(Taken);
    }

    /** Puts the blob's bytes at abs, from the staged upload if there is one. */
    method Install(db: Catalog, hash: string, abs: Path, tmpSuffix: string) returns (r: Result<()>)
      requires cfg.Valid() && WellFormed(fs.disk)
      requires cfg.root < abs && !fs.disk.IsDir(cfg.Staged(hash))
      modifies fs
      ensures r.Ok? ==> Installed(cfg, db, old(fs.disk), fs.disk, hash, abs)
      ensures r.Err? ==> Untouched(cfg, old(fs.disk), fs.disk)
      ensures r.Err? ==> r.error in {NoSource, UnsafePath, IoFailed, StoreFailed}
      ensures !fs.flaky ==> (r.Ok? <==> Installable(cfg, db, old(fs.disk), hash, abs, cfg.TempLink(tmpSuffix)))
      ensures r.Ok? && (fs.flaky ==> !ThereAlready(cfg, db, old(fs.disk), hash, abs)) ==>
                NoNewTemps(cfg, old(fs.disk), fs.disk)
    {
      hide SafeAbs, MkdirAll, WellFormed, CleanPath, Published, Untouched, NoNewTemps, ThereAlready;
      ghost var d0 := fs.disk;
      var staged := cfg.Staged(hash);
      assert staged == cfg.staging + [hash + STAGED_SUFFIX];
      ParentIsThere(d0, abs);
      var made := fs.MakeDirs(Parent(abs));
      DirsLeftBehind(cfg, d0, fs.disk, abs);
      if !made {
        return Err(IoFailed);
      }
      MkdirAllFacts(d0, Parent(abs));
      DirsMadeFacts(cfg, d0, fs.disk, abs);
      var st := fs.Stat(staged);
      match st {
        case Found(_) =>
          ghost var d1 := fs.disk;
          var ok := fs.RenameFile(staged, abs);
          if ok {
            StagedPublished(cfg, db, d0, d1, fs.disk, hash, abs);
            return Ok(());
          }
          return Err(IoFailed);
        case StatFailed =>
          return Err(IoFailed);
        case NotExist =>
          r := LinkCanonical(db, hash, abs, tmpSuffix, d0);
      }
    }

    /** Installs a second name for the blob's canonical file, by way of a temporary link and a rename. */
    method LinkCanonical(db: Catalog, hash: string, abs: Path, tmpSuffix: string,
                         ghost d0: Disk) returns (r: Result<()>)
      requires cfg.Valid() && cfg.root < abs && WellFormed(d0)
      requires DirsMade(cfg, d0, fs.disk, abs) && MkdirAll(d0, Parent(abs)) == Some(fs.disk)
      requires cfg.Staged(hash) !in d0.names
      modifies fs
      ensures r.Ok? ==> Installed(cfg, db, d0, fs.disk, hash, abs)
      ensures r.Err? ==> Untouched(cfg, d0, fs.disk) && r.error in {NoSource, UnsafePath, IoFailed, StoreFailed}
      ensures !fs.flaky ==> (r.Ok? <==> Installable(cfg, db, d0, hash, abs, cfg.TempLink(tmpSuffix)))
      ensures r.Ok? && (fs.flaky ==> !ThereAlready(cfg, db, d0, hash, abs)) ==> NoNewTemps(cfg, d0, fs.disk)
    {
      hide SafeAbs, MkdirAll, WellFormed, CleanPath, CleanOnto;
      ghost var d1 := fs.disk;
      ParentIsThere(d0, abs);
      DirsMadeFacts(cfg, d0, d1, abs);
      DirsLeftBehind(cfg, d0, d1, abs);
      if hash !in db.blobs {
        return Err(NoSource);
      }
      var src := SafeAbs(cfg.root, db.blobs[hash].relPath);
      if src.None? {
        return Err(UnsafePath);
      }
      SafeAbsIsContainment(cfg.root, db.blobs[hash].relPath);
      var srcInfo := fs.Stat(src.value);
      if !srcInfo.Found? {
        return Err(NoSource);
      }
      var dstInfo := fs.Stat(abs);
      if dstInfo.Found? && SameFile(srcInfo.node, src.value, dstInfo.node, abs) {
        return Ok(());
      }
      if srcInfo.node.Dir? {
        // A directory cannot be linked; the call would fail at the link.
        return Err(IoFailed);
      }
      r := LinkOver(db, hash, abs, src.value, tmpSuffix, d0, dstInfo.StatFailed?);
    }

    method LinkOver(db: Catalog, hash: string, abs: Path, src: Path, tmpSuffix: string, ghost d0: Disk,
                    ghost blind: bool)
      returns (r: Result<()>)
      requires cfg.Valid() && cfg.root < abs && WellFormed(d0)
      requires DirsMade(cfg, d0, fs.disk, abs) && cfg.Staged(hash) !in d0.names
      requires Source(cfg, db, d0, hash) == Some(src) && cfg.root < src
      requires if blind then fs.flaky else !(abs in d0.names && d0.names[abs] == d0.names[src])
      modifies fs
      ensures r.Ok? ==> Published(cfg, db, d0, fs.disk, hash, abs)
      ensures r.Err? ==> Untouched(cfg, d0, fs.disk) && r.error == IoFailed
      ensures !fs.flaky ==> (r.Ok? <==> Publishable(cfg, db, d0, hash, abs, cfg.TempLink(tmpSuffix)))
      ensures r.Ok? && (fs.flaky ==> !ThereAlready(cfg, db, d0, hash, abs)) ==> NoNewTemps(cfg, d0, fs.disk)
    {
      hide SafeAbs, MkdirAll, WellFormed, CleanPath, CleanOnto, Link, Rename, Remove, Published, Untouched,
        LinkWasThere, NoNewTemps;
      ghost var d1 := fs.disk;
      var tmp := cfg.TempLink(tmpSuffix);
      assert tmp == cfg.staging + [LINK_TMP_PREFIX + tmpSuffix] && tmp in cfg.TempLinks();
      var made := fs.MakeDirs(cfg.staging);
      MkdirAllAgain(d0, d1, cfg.staging);
      if !made {
        DirsLeftBehind(cfg, d0, fs.disk, abs);
        return Err(IoFailed);
      }
      MkdirAllFacts(d1, cfg.staging);
      ghost var d2 := fs.disk;
      assert DirsMade(cfg, d0, d2, abs);
      LinkOutcome(cfg, d0, d2, src, tmpSuffix, abs);
      var ok := fs.LinkFile(src, tmp);
      if !ok {
        DirsLeftBehind(cfg, d0, fs.disk, abs);
        return Err(IoFailed);
      }
      ghost var d3 := fs.disk;
      ok := fs.RenameFile(tmp, abs);
      if !ok {
        var _ := fs.RemoveFile(tmp);
        LinkLeftBehind(cfg, d0, d2, d3, fs.disk, src, tmpSuffix, abs);
        return Err(IoFailed);
      }
      LinkPublished(cfg, db, d0, d2, fs.disk, hash, abs, tmp);
      r := Ok(());
    }

    /** What an item built for a fresh target holds, field by field. */
    static lemma NewItemFields(id: string, hash: string, t: Resolved, pl: Placement, now: int)
      ensures var it := NewItem(id, hash, t, pl, now);
              && it.itemID == id && it.hash == hash && it.album == t.album && it.year == t.year && it.month == t.month
              && it.filename == t.filename && it.relPath == JoinRel(t.album, t.year, t.month, t.filename)
              && it.capturedAtMs == pl.capturedAtMs && it.capturedOffsetMin == pl.capturedOffsetMin
              && it.deviceID == "" && it.createdAt == now
    {
    }

    /**
     * Place resolves the placement, installs the bytes and returns the item for its caller to persist. Fresh
     * randomness and the clock are parameters; an item id that cannot be drawn fails the call after the bytes
     * are in place. On a reliable system it fails only for a reason.
     */
    method Place(db: Catalog, hash: string, pl: Placement, tmpSuffix: string, itemID: Option<string>, now: int)
      returns (r: Result<Item>)
      requires cfg.Valid() && WellFormed(fs.disk) && !fs.disk.IsDir(cfg.Staged(hash))
      modifies fs
      ensures PlaceStep(cfg, db, hash, pl, old(fs.disk), fs.disk, r)
      ensures r.Ok? ==>
                var it, b, s := r.value, BasePath(cfg.u, pl), SuffixedPath(cfg.u, pl, hash);
                && (b !in db.items ==> it.relPath == b && it.filename == SanitizeFilename(cfg.u, pl.filename))
                && (b in db.items && db.items[b].hash == hash ==> it == db.items[b])
                && (b in db.items && db.items[b].hash != hash && s !in db.items ==>
                      && it.relPath == s
                      && it.filename == SuffixedFilename(cfg.u, SanitizeFilename(cfg.u, pl.filename), hash))
                && (b in db.items && db.items[b].hash != hash && s in db.items ==>
                      it == db.items[s] && db.items[s].hash == hash)
                && (b !in db.items || (db.items[b].hash != hash && s !in db.items) ==>
                      && Some(it.itemID) == itemID && it.hash == hash && it.album == SanitizeAlbum(cfg.u, pl.album)
                      && it.year == pl.year && it.month == pl.month && it.deviceID == "" && it.createdAt == now
                      && it.capturedAtMs == pl.capturedAtMs && it.capturedOffsetMin == pl.capturedOffsetMin)
      ensures r == Err(Collision) ==> OthersAtBoth(cfg.u, db, hash, pl)
      ensures ValidHash(hash) && OthersAtBoth(cfg.u, db, hash, pl) ==>
                r == Err(Collision) || (fs.flaky && r == Err(StoreFailed))
      ensures r.Ok? && Choose(cfg.u, db, hash, pl).Fresh? ==> Some(r.value.itemID) == itemID && r.value.createdAt == now
      ensures !fs.flaky ==> (r.Ok? || r == Err(NoItemID) <==>
                             Placeable(cfg, db, hash, pl, old(fs.disk), cfg.TempLink(tmpSuffix)))
      ensures r == Err(NoItemID) ==> itemID == None
      ensures r.Ok? ==> NoNewTemps(cfg, old(fs.disk), fs.disk)
                        || (fs.flaky && Choose(cfg.u, db, hash, pl).Fresh?
                            && ThereAlready(cfg, db, old(fs.disk), hash,
                                            Target(cfg.root, Choose(cfg.u, db, hash, pl).target)))
    {
      ChoiceExactly(cfg.u, db, hash, pl);
      hide ThereAlready, ValidHash, SafeAbs, Choose, Installed, Installable, WellFormed, MkdirAll, Target;
      hide BasePath, SuffixedPath, JoinRel, NewItem, SanitizeAlbum, SanitizeFilename, SuffixedFilename;
      var valid := ValidHashLoop(hash);
      if !valid {
        return Err(InvalidHash);
      }
      var choice := ResolveCollision(db, hash, pl);
      if choice.Err? {
        return Err(choice.error);
      }
      match choice.value {
        case Existing(it) =>
          return Ok(it);
        case Taken =>
          return Err(Collision);
        case Fresh(t) =>
          ChosenIsBuilt(cfg, db, hash, pl);
          var abs := SafeAbs(cfg.root, t.RelPath());
          if abs.None? {
            return Err(UnsafePath);
          }
          var done := Install(db, hash, abs.value, tmpSuffix);
          if done.Err? {
            return Err(done.error);
          }
          if itemID.None? {
            return Err(NoItemID);
          }
          NewItemFields(itemID.value, hash, t, pl, now);
          return Ok(NewItem(itemID.value, hash, t, pl, now));
      }
    }
  }
}
