/**
 * A file system: names in a directory tree, inodes behind the file names, and what each inode holds, given as
 * the hash of its bytes. rename follows rename() in the System Interfaces volume of IEEE Std 1003.1-2017.
 */
module Disk {
  import opened Schema

  type Path = seq<string>

  datatype Node = Dir | File(ino: nat)

  datatype Disk = Disk(names: map<Path, Node>, content: map<nat, string>) {
    predicate IsFile(p: Path) {
      p in names && names[p].File?
    }

    predicate IsDir(p: Path) {
      p in names && names[p].Dir?
    }

    /** p names a file holding the bytes with this hash. */
    predicate Holds(p: Path, hash: string) {
      IsFile(p) && names[p].ino in content && content[names[p].ino] == hash
    }
  }

  /** Every name stands in a directory, and every file name has an inode behind it. */
  ghost predicate WellFormed(d: Disk) {
    && d.IsDir([])
    && (forall p :: p in d.names && p != [] ==> d.IsDir(Parent(p)))
    && (forall p :: p in d.names && d.names[p].File? ==> d.names[p].ino in d.content)
  }

  /** What a name stands in is a directory, at every level above it. */
  lemma {:induction false} DirsAbove(d: Disk, p: Path, q: Path)
    requires WellFormed(d) && q in d.names && p < q
    ensures d.IsDir(p)
    decreases |q|
  {
    if p != Parent(q) {
      assert p == q[..|p|] == Parent(q)[..|p|];
      DirsAbove(d, p, Parent(q));
    }
  }

  function Parent(p: Path): Path
    requires p != []
  {
    p[..|p| - 1]
  }

  /** os.MkdirAll; None when a name on the way is a file. */
  function MkdirAll(d: Disk, p: Path): Option<Disk>
    decreases |p|
  {
    if p in d.names then (if d.names[p].Dir? then Some(d) else None)
    else if p == [] then Some(d.(names := d.names[p := Dir]))
    else
      var up := MkdirAll(d, Parent(p));
      if up.None? then None else Some(up.value.(names := up.value.names[p := Dir]))
  }

  /**
   * rename of a file: replaces a file, refuses to replace a directory, and does nothing at all when both names
   * are already the same inode.
   */
  function Rename(d: Disk, src: Path, dst: Path): Option<Disk> {
    if !d.IsFile(src) || dst == [] || !d.IsDir(Parent(dst)) || d.IsDir(dst) then None
    else if dst in d.names && d.names[dst] == d.names[src] then Some(d)
    else Some(d.(names := d.names[dst := d.names[src]] - {src}))
  }

  /** link: a second name for a file; refuses a name in use. */
  function Link(d: Disk, src: Path, dst: Path): Option<Disk> {
    if !d.IsFile(src) || dst == [] || !d.IsDir(Parent(dst)) || dst in d.names then None
    else Some(d.(names := d.names[dst := d.names[src]]))
  }

  function Remove(d: Disk, p: Path): Option<Disk> {
    if !d.IsFile(p) then None else Some(d.(names := d.names - {p}))
  }

  /** From d to d2 no name outside s changed, except that directories may have been added; no byte changed. */
  ghost predicate Touches(d: Disk, d2: Disk, s: iset<Path>) {
    && d2.content == d.content
    && (forall p :: p !in s && p in d.names ==> p in d2.names && d2.names[p] == d.names[p])
    && (forall p :: p !in s && p in d2.names && p !in d.names ==> d2.names[p] == Dir)
  }

  lemma TouchesAfterDirs(d: Disk, d1: Disk, d2: Disk, s: iset<Path>)
    requires Touches(d, d1, iset{}) && Touches(d1, d2, s)
    ensures Touches(d, d2, s)
  {
  }

  /** A name that ended up as it was need not be listed. */
  lemma TouchesLess(d: Disk, d2: Disk, p: Path, q: Path)
    requires Touches(d, d2, iset{p, q})
    requires p in d.names <==> p in d2.names
    requires p in d.names ==> d2.names[p] == d.names[p]
    ensures Touches(d, d2, iset{q})
  {
  }

  lemma {:induction false} MkdirAllFacts(d: Disk, p: Path)
    requires WellFormed(d)
    ensures MkdirAll(d, p).Some? ==>
              var d2 := MkdirAll(d, p).value;
              && WellFormed(d2) && d2.IsDir(p) && Touches(d, d2, iset{})
              && (forall q :: q in d2.names && q !in d.names ==> q <= p)
    decreases |p|
  {
    if p !in d.names && p != [] && MkdirAll(d, p).Some? {
      MkdirAllFacts(d, Parent(p));
      AddedDir(d, MkdirAll(d, Parent(p)).value, p);
    }
  }

  lemma AddedDir(d: Disk, d1: Disk, p: Path)
    requires WellFormed(d1) && p != [] && p !in d.names && d1.IsDir(Parent(p)) && Touches(d, d1, iset{})
    requires forall q :: q in d1.names && q !in d.names ==> q <= Parent(p)
    ensures var d2 := d1.(names := d1.names[p := Dir]);
            && WellFormed(d2) && Touches(d, d2, iset{})
            && (forall q :: q in d2.names && q !in d.names ==> q <= p)
  {
    DirsOfPrefix(d, d1, p, |p| - 1);
  }

  lemma DirsOfPrefix(d: Disk, d2: Disk, p: Path, k: nat)
    requires k <= |p| && forall q :: q in d2.names && q !in d.names ==> q <= p[..k]
    ensures forall q :: q in d2.names && q !in d.names ==> q <= p
  {
    forall q | q in d2.names && q !in d.names
      ensures q <= p
    {
      assert q == p[..k][..|q|] == p[..|q|];
    }
  }

  /** Making one directory does not get in the way of making another. */
  lemma {:induction false} MkdirAllAgain(d: Disk, d2: Disk, p: Path)
    requires WellFormed(d) && WellFormed(d2) && Touches(d, d2, iset{})
    ensures MkdirAll(d2, p).Some? <==> MkdirAll(d, p).Some?
    decreases |p|
  {
    if p in d.names {
    } else if p in d2.names {
      DirHasDirsAbove(d, d2, p);
    } else if p != [] {
      MkdirAllAgain(d, d2, Parent(p));
    }
  }

  lemma {:induction false} DirHasDirsAbove(d: Disk, d2: Disk, p: Path)
    requires WellFormed(d) && WellFormed(d2) && Touches(d, d2, iset{}) && d2.IsDir(p)
    ensures MkdirAll(d, p).Some?
    decreases |p|
  {
    if p !in d.names && p != [] {
      DirHasDirsAbove(d, d2, Parent(p));
    }
  }

  lemma RenameFacts(d: Disk, src: Path, dst: Path)
    requires WellFormed(d) && Rename(d, src, dst).Some? && src != dst
    ensures var d2 := Rename(d, src, dst).value;
            && WellFormed(d2) && d2.IsFile(dst) && d2.names[dst] == d.names[src]
            && Touches(d, d2, iset{src, dst})
            && (src in d2.names <==> dst in d.names && d.names[dst] == d.names[src])
  {
    RenameKeepsTree(d, src, dst);
    hide WellFormed;
  }

  lemma RenameKeepsTree(d: Disk, src: Path, dst: Path)
    requires WellFormed(d) && Rename(d, src, dst).Some?
    ensures WellFormed(Rename(d, src, dst).value)
  {
    var d2 := Rename(d, src, dst).value;
    forall p | p in d2.names && p != []
      ensures d2.IsDir(Parent(p))
    {
      assert d.IsDir(Parent(p));
    }
  }

  lemma LinkFacts(d: Disk, src: Path, dst: Path)
    requires WellFormed(d) && Link(d, src, dst).Some?
    ensures var d2 := Link(d, src, dst).value;
            WellFormed(d2) && d2.IsFile(dst) && d2.names[dst] == d.names[src] && Touches(d, d2, iset{dst})
  {
  }

  /**
   * Linking a file to a temporary name and renaming that over a destination replaces the destination. The
   * temporary name is left behind exactly when the destination already was a link to that file: why the
   * placer has to look before it links.
   */
  lemma LinkThenRename(d: Disk, src: Path, tmp: Path, dst: Path)
    requires WellFormed(d) && tmp != dst && Link(d, src, tmp).Some?
    requires Rename(Link(d, src, tmp).value, tmp, dst).Some?
    ensures var d2 := Rename(Link(d, src, tmp).value, tmp, dst).value;
            && WellFormed(d2) && d2.IsFile(dst) && d2.names[dst] == d.names[src]
            && (tmp in d2.names <==> dst in d.names && d.names[dst] == d.names[src])
            && Touches(d, d2, iset{tmp, dst})
  {
    hide WellFormed;
    var d1 := Link(d, src, tmp).value;
    LinkFacts(d, src, tmp);
    RenameFacts(d1, tmp, dst);
  }

  datatype StatResult = Found(node: Node) | NotExist | StatFailed

  /**
   * The operating system's view of a disk. A flaky one may fail any operation at any time; a reliable one
   * fails only the operations that cannot be carried out.
   */
  class FileSystem {
    var disk: Disk
    const flaky: bool

    constructor (d: Disk, flaky: bool)
      ensures disk == d && this.flaky == flaky
    {
      this.disk, this.flaky := d, flaky;
    }

    method Stat(p: Path) returns (r: StatResult)
      ensures r.StatFailed? ==> flaky
      ensures r.Found? ==> p in disk.names && disk.names[p] == r.node
      ensures r.NotExist? ==> p !in disk.names
    {
      var fail: bool := *;
      if flaky && fail {
        return StatFailed;
      }
      r := if p in disk.names then Found(disk.names[p]) else NotExist;
    }

    /** A failing call may have made some of the directories. */
    method MakeDirs(p: Path) returns (ok: bool)
      requires WellFormed(disk)
      modifies this
      ensures WellFormed(disk) && Touches(old(disk), disk, iset{})
      ensures ok ==> MkdirAll(old(disk), p) == Some(disk)
      ensures !ok ==> flaky || MkdirAll(old(disk), p).None?
      ensures forall q :: q in disk.names && q !in old(disk.names) ==> q <= p
    {
      hide MkdirAll, WellFormed;
      MkdirAllFacts(disk, p);
      var fail: bool := *;
      if flaky && fail {
        var made: int := *;
        if 0 <= made <= |p| {
          MkdirAllFacts(disk, p[..made]);
          if MkdirAll(disk, p[..made]).Some? {
            DirsOfPrefix(disk, MkdirAll(disk, p[..made]).value, p, made);
            disk := MkdirAll(disk, p[..made]).value;
          }
        }
        return false;
      }
      var d2 := MkdirAll(disk, p);
      ok := d2.Some?;
      if ok {
        disk := d2.value;
      }
    }

    method RenameFile(src: Path, dst: Path) returns (ok: bool)
      modifies this
      ensures ok ==> Rename(old(disk), src, dst) == Some(disk)
      ensures !ok ==> disk == old(disk) && (flaky || Rename(disk, src, dst).None?)
    {
      var fail: bool := *;
      var d2 := Rename(disk, src, dst);
      ok := d2.Some? && !(flaky && fail);
      if ok {
        disk := d2.value;
      }
    }

    method LinkFile(src: Path, dst: Path) returns (ok: bool)
      modifies this
      ensures ok ==> Link(old(disk), src, dst) == Some(disk)
      ensures !ok ==> disk == old(disk) && (flaky || Link(disk, src, dst).None?)
    {
      var fail: bool := *;
      var d2 := Link(disk, src, dst);
      ok := d2.Some? && !(flaky && fail);
      if ok {
        disk := d2.value;
      }
    }

    method RemoveFile(p: Path) returns (ok: bool)
      modifies this
      ensures ok ==> Remove(old(disk), p) == Some(disk)
      ensures !ok ==> disk == old(disk) && (flaky || Remove(disk, p).None?)
    {
      var fail: bool := *;
      var d2 := Remove(disk, p);
      ok := d2.Some? && !(flaky && fail);
      if ok {
        disk := d2.value;
      }
    }
  }
}
