/** Daily database snapshots in a directory, pruned to the newest few by the order of their names. */
module Backups {
  import opened Text
  import opened Retention
  import Listings

  const DEFAULT_KEEP := 7

  /** A day of the calendar, in UTC. */
  datatype Day = Day(year: nat, month: nat, date: nat)

  predicate OnCalendar(d: Day) {
    d.year < 10_000 && 1 <= d.month <= 12 && 1 <= d.date <= 31
  }

  predicate Earlier(d: Day, e: Day) {
    d.year < e.year || (d.year == e.year && (d.month < e.month || (d.month == e.month && d.date < e.date)))
  }

  function Iso(d: Day): string {
    ZeroPadded(d.year, 4) + ("-" + (ZeroPadded(d.month, 2) + ("-" + ZeroPadded(d.date, 2))))
  }

  /** homesink-2026-09-05.db */
  function Name(d: Day): string {
    "homesink-" + (Iso(d) + ".db")
  }

  function TempName(d: Day): string {
    Name(d) + ".tmp"
  }

  predicate SnapshotShaped(name: string) {
    |name| >= 9 && name[..9] == "homesink-" && |name| >= 3 && name[|name| - 3..] == ".db"
  }

  /** The name begins with "homesink-" and ends, after that, in ".db". */
  ghost predicate HasPrefixAndEnding(name: string) {
    exists mid :: name == "homesink-" + mid + ".db"
  }

  /** What a snapshot is called, and exactly what is taken for one. */
  lemma NamesAreLiteral(d: Day, name: string)
    ensures Name(d) == "homesink-" + ZeroPadded(d.year, 4) + "-" + ZeroPadded(d.month, 2) + "-"
                       + ZeroPadded(d.date, 2) + ".db"
    ensures TempName(d) == Name(d) + ".tmp"
    ensures SnapshotShaped(name) <==> HasPrefixAndEnding(name)
  {
    hide ZeroPadded;
    assert Name(d) == "homesink-" + ZeroPadded(d.year, 4) + "-" + ZeroPadded(d.month, 2) + "-"
           + ZeroPadded(d.date, 2) + ".db" by { Assembled(ZeroPadded(d.year, 4), ZeroPadded(d.month, 2),
                                                          ZeroPadded(d.date, 2)); }
    ShapedExactly(name);
  }

  lemma Assembled(y: string, m: string, d: string)
    ensures "homesink-" + ((y + ("-" + (m + ("-" + d)))) + ".db") == "homesink-" + y + "-" + m + "-" + d + ".db"
  {
  }

  lemma ShapedExactly(name: string)
    ensures SnapshotShaped(name) <==> HasPrefixAndEnding(name)
  {
    var n := |name|;
    if SnapshotShaped(name) {
      assert name[8] == '-' && name[7] == 'k' && name[n - 3] == '.';
      assert name[n - 3..] == ".db" && name[n - 2] == 'd' && name[n - 1] == 'b';
      assert n >= 12;
      assert name == "homesink-" + name[9..n - 3] + ".db";
    }
    if mid :| name == "homesink-" + mid + ".db" {
      assert name[..9] == "homesink-" && name[n - 3..] == ".db";
    }
  }

  // ------------------------------------------------------------------ names sort as days do

  lemma PaddedApart(a: nat, b: nat, width: nat, x: string, y: string)
    requires a < Pow10(width) && b < Pow10(width)
    ensures a < b ==> Lt(ZeroPadded(a, width) + x, ZeroPadded(b, width) + y)
    ensures a == b ==> Lt(ZeroPadded(a, width) + x, ZeroPadded(b, width) + y) == Lt(x, y)
  {
    hide Lt, ZeroPadded, Pow10;
    ZeroPaddedValue(a, width);
    ZeroPaddedValue(b, width);
    if a < b {
      ZeroPaddedOrder(a, b, width);
      LtDecided(ZeroPadded(a, width), ZeroPadded(b, width), x, y);
    } else if a == b {
      LtPrefix(ZeroPadded(a, width), x, y);
    }
  }

  lemma Widths()
    ensures Pow10(2) == 100 && Pow10(4) == 10_000
  {
    assert Pow10(1) == 10 && Pow10(3) == 1000;
  }

  /** An earlier day has the name that sorts first. */
  lemma EarlierSortsFirst(d: Day, e: Day)
    requires OnCalendar(d) && OnCalendar(e) && Earlier(d, e)
    ensures Lt(Name(d), Name(e))
  {
    hide Lt, ZeroPadded, Pow10;
    Widths();
    var dd, ee := ZeroPadded(d.date, 2), ZeroPadded(e.date, 2);
    var dm, em := ZeroPadded(d.month, 2) + ("-" + dd), ZeroPadded(e.month, 2) + ("-" + ee);
    NoRest(dd);
    NoRest(ee);
    PaddedApart(d.date, e.date, 2, "", "");
    LtPrefix("-", dd, ee);
    PaddedApart(d.month, e.month, 2, "-" + dd, "-" + ee);
    LtPrefix("-", dm, em);
    PaddedApart(d.year, e.year, 4, "-" + dm, "-" + em);
    IsoLength(d);
    IsoLength(e);
    LtDecided(Iso(d), Iso(e), ".db", ".db");
    LtPrefix("homesink-", Iso(d) + ".db", Iso(e) + ".db");
  }

  lemma NoRest(s: string)
    ensures s + "" == s
  {
  }

  lemma IsoLength(d: Day)
    requires OnCalendar(d)
    ensures |Iso(d)| == 10
  {
    hide ZeroPadded, Pow10;
    Widths();
    ZeroPaddedValue(d.year, 4);
    ZeroPaddedValue(d.month, 2);
    ZeroPaddedValue(d.date, 2);
  }

  lemma DaysAreOrdered(d: Day, e: Day)
    ensures d == e || Earlier(d, e) || Earlier(e, d)
    ensures !(Earlier(d, e) && Earlier(e, d)) && !Earlier(d, d)
  {
  }

  /** Names sort exactly as days do, and name a day each. */
  lemma NamesSortByDay(d: Day, e: Day)
    requires OnCalendar(d) && OnCalendar(e)
    ensures Lt(Name(d), Name(e)) <==> Earlier(d, e)
    ensures Name(d) == Name(e) <==> d == e
  {
    hide Lt, Name, Earlier;
    DaysAreOrdered(d, e);
    LtTotal(Name(d), Name(e));
    if Earlier(d, e) {
      EarlierSortsFirst(d, e);
    } else if Earlier(e, d) {
      EarlierSortsFirst(e, d);
    }
  }

  lemma NamesAreShaped(d: Day)
    ensures SnapshotShaped(Name(d)) && !SnapshotShaped(TempName(d)) && Name(d) != TempName(d)
  {
    hide Iso;
    var n, t := Name(d), TempName(d);
    assert n[..9] == "homesink-";
    assert n[|n| - 3..] == ".db";
    assert t[|t| - 3..] == "tmp";
  }

  // ------------------------------------------------------------------ the directory

  datatype File = File(isDir: bool, content: string)

  /** The names PruneBackups takes for snapshots. */
  function Snapshots(files: map<string, File>): set<string> {
    set n | n in files && !files[n].isDir && SnapshotShaped(n)
  }

  /** How far a backup gets: it may fail before the rename, or while removing old snapshots. */
  datatype Outcome = NotWritten | Written | WrittenAndPruned

  /** Pruning takes away snapshots that are not to be kept: all of them, unless a removal fails. */
  ghost predicate PrunedTo(keep: nat, files: map<string, File>, files2: map<string, File>, ok: bool) {
    exists gone :: Gone(keep, files, gone, ok) && files2 == files - gone
  }

  ghost predicate Gone(keep: nat, files: map<string, File>, gone: set<string>, ok: bool) {
    var doomed := Snapshots(files) - Kept(Snapshots(files), keep);
    gone <= doomed && (ok ==> gone == doomed)
  }

  lemma SnapshotsExactly(files: map<string, File>)
    ensures forall n :: n in Snapshots(files) <==>
                        n in files && !files[n].isDir && HasPrefixAndEnding(n)
  {
    hide SnapshotShaped, HasPrefixAndEnding;
    forall n
      ensures SnapshotShaped(n) <==> HasPrefixAndEnding(n)
    {
      ShapedExactly(n);
    }
  }

  /** The snapshots whose names sort after this one. */
  ghost function SortingAfter(files: map<string, File>, n: string): set<string> {
    set m | m in files && !files[m].isDir && HasPrefixAndEnding(m) && Lt(n, m)
  }

  /**
   * Pruning in full: nothing is added or rewritten; what goes is a file, not a directory, whose name begins with
   * "homesink-" and ends in ".db", and of such files at least as many as are kept sort after it.
   */
  lemma PrunedByColumns(keep: nat, files: map<string, File>, files2: map<string, File>, ok: bool)
    requires PrunedTo(keep, files, files2, ok)
    ensures forall n :: n in files2 ==> n in files && files2[n] == files[n]
    ensures forall n :: n in files && n !in files2 ==>
              !files[n].isDir && HasPrefixAndEnding(n) && |SortingAfter(files, n)| >= keep
    ensures ok ==> forall n :: n in files2 && !files2[n].isDir && HasPrefixAndEnding(n) ==>
                       |SortingAfter(files, n)| < keep
  {
    hide Snapshots, Lt, HasPrefixAndEnding, SortingAfter;
    SnapshotsExactly(files);
    var gone :| Gone(keep, files, gone, ok) && files2 == files - gone;
    forall n | n in Snapshots(files)
      ensures n in Kept(Snapshots(files), keep) <==> |SortingAfter(files, n)| < keep
    {
      AfterIsNewer(files, n);
    }
  }

  lemma AfterIsNewer(files: map<string, File>, n: string)
    ensures SortingAfter(files, n) == Newer(Snapshots(files), n)
  {
    hide HasPrefixAndEnding, Snapshots, Lt;
    SnapshotsExactly(files);
  }

  function WithSnapshot(files: map<string, File>, d: Day, image: string): map<string, File> {
    (files - {TempName(d)})[Name(d) := File(false, image)]
  }

  ghost predicate BackedUp(keep: nat, files: map<string, File>, files2: map<string, File>, d: Day, image: string,
                           outcome: Outcome) {
    match outcome
    case NotWritten => files2 - {TempName(d)} == files - {TempName(d)}
    case Written => PrunedTo(keep, WithSnapshot(files, d, image), files2, false)
    case WrittenAndPruned => PrunedTo(keep, WithSnapshot(files, d, image), files2, true)
  }

  /** What the operating system lets succeed. */
  datatype Luck = Luck(makesDir: bool, clears: bool, vacuums: bool, renames: bool, lists: bool, removals: nat)

  /** One backup in full: the snapshot holds the image, and only snapshots go besides. */
  lemma BackedUpByColumns(keep: nat, files: map<string, File>, files2: map<string, File>, d: Day, image: string,
                          outcome: Outcome)
    requires BackedUp(keep, files, files2, d, image, outcome)
    ensures forall n :: n in files2 && n != Name(d) && n != TempName(d) ==> n in files && files2[n] == files[n]
    ensures forall n :: n in files && n !in files2 && n != Name(d) && n != TempName(d) ==>
              !outcome.NotWritten? && !files[n].isDir && HasPrefixAndEnding(n)
    ensures outcome.NotWritten? ==>
              (Name(d) in files2 <==> Name(d) in files) && (Name(d) in files ==> files2[Name(d)] == files[Name(d)])
    ensures !outcome.NotWritten? ==> TempName(d) !in files2
    ensures !outcome.NotWritten? && Name(d) in files2 ==> files2[Name(d)] == File(false, image)
  {
    NamesAreShaped(d);
    hide HasPrefixAndEnding, Name, TempName, PrunedTo, SnapshotShaped;
    if outcome.NotWritten? {
      forall n | n != TempName(d)
        ensures n in files2 <==> n in files
        ensures n in files ==> files2[n] == files[n]
      {
        assert n in files2 <==> n in files2 - {TempName(d)};
        assert n in files <==> n in files - {TempName(d)};
        assert n in files ==> (files2 - {TempName(d)})[n] == (files - {TempName(d)})[n];
      }
    } else {
      PrunedByColumns(keep, WithSnapshot(files, d, image), files2, outcome.WrittenAndPruned?);
    }
  }

  /** How many snapshots there are beyond those to be kept. */
  function Excess(keep: nat, files: map<string, File>): nat {
    if |Snapshots(files)| <= keep then 0 else |Snapshots(files)| - keep
  }

  class BackupDir {
    const keep: nat
    var present: bool
    var files: map<string, File>

    /** A directory that is not there holds nothing. */
    predicate Valid()
      reads this
    {
      present || files == map[]
    }

    /** A number that is not positive stands for the default. */
    constructor (keepBackups: int)
      ensures keep == (if keepBackups <= 0 then 7 else keepBackups) && keep >= 1
      ensures Valid() && !present && files == map[]
    {
      keep := if keepBackups <= 0 then DEFAULT_KEEP else keepBackups;
      present, files := false, map[];
    }

    /** Writes the day's snapshot beside the others, renames it into place, and prunes. */
    method Backup(d: Day, image: string, luck: Luck) returns (outcome: Outcome)
      requires Valid()
      modifies this`present, this`files
      ensures Valid() && (outcome != NotWritten ==> present)
      ensures BackedUp(keep, old(files), files, d, image, outcome)
      ensures forall n :: n in files && n != Name(d) && n != TempName(d) ==>
                n in old(files) && files[n] == old(files)[n]
      ensures forall n :: n in old(files) && n !in files && n != Name(d) && n != TempName(d) ==>
                !outcome.NotWritten? && !old(files)[n].isDir && HasPrefixAndEnding(n)
      ensures !outcome.NotWritten? && Name(d) in files ==> files[Name(d)] == File(false, image)
      ensures !outcome.NotWritten? <==>
              luck.makesDir && luck.clears && luck.vacuums && luck.renames
              && !(Name(d) in old(files) && old(files)[Name(d)].isDir)
      ensures outcome.WrittenAndPruned? <==>
              !outcome.NotWritten? && luck.lists && Excess(keep, WithSnapshot(old(files), d, image)) <= luck.removals
    {
      hide Name, TempName, PrunedTo, Excess, HasPrefixAndEnding;
      ghost var before := files;
      NamesAreShaped(d);
      if !luck.makesDir {
        return NotWritten;
      }
      present := true;
      var tmp, final := TempName(d), Name(d);
      if !luck.clears {
        return NotWritten;
      }
      files := files - {tmp};
      if !luck.vacuums {
        return NotWritten;
      }
      files := files[tmp := File(false, image)];
      if !luck.renames || (final in files && files[final].isDir) {
        return NotWritten;
      }
      files := (files - {tmp})[final := File(false, image)];
      assert files == WithSnapshot(old(files), d, image);
      var removed, ok := PruneBackups(luck.lists, luck.removals);
      outcome := if ok then WrittenAndPruned else Written;
      hide BackedUp;
      BackedUpByColumns(keep, before, files, d, image, outcome);
    }

    /** Deletes all but the newest snapshots, as far as removing works, newest first among the doomed. */
    method PruneBackups(lists: bool, removals: nat) returns (removed: seq<string>, ok: bool)
      requires Valid()
      modifies this`files
      ensures Valid() && PrunedTo(keep, old(files), files, ok)
      ensures forall n :: n in old(files) ==> (n in files <==> n !in removed)
      ensures ok <==> !present || (lists && Excess(keep, old(files)) <= removals)
      ensures |removed| == if !present || !lists then 0
                 else if Excess(keep, old(files)) <= removals then Excess(keep, old(files)) else removals
      ensures forall n :: n in files ==> n in old(files) && files[n] == old(files)[n]
      ensures forall n :: n in removed ==>
                n in old(files) && !old(files)[n].isDir && HasPrefixAndEnding(n)
    {
      if !present {
        NothingThere(keep, files);
        return [], true;
      }
      if !lists {
        assert Gone(keep, files, {}, false) && files - {} == files;
        return [], false;
      }
      var names := SnapshotNames(files);
      CountOnce(names, Snapshots(files));
      hide Snapshots, Kept, Descending, Gone;
      if |names| <= keep {
        NothingGone(keep, files);
        return [], true;
      }
      var sorted := NewestFirst(names);
      NewestFirstDescends(names);
      FrontIsKept(files, sorted, keep);
      ghost var before := files;
      removed, ok := RemoveOld(sorted, removals);
      hide PrunedTo;
      PrunedByColumns(keep, before, files, ok);
    }

    static lemma NothingThere(keep: nat, files: map<string, File>)
      requires files == map[]
      ensures Gone(keep, files, {}, true) && files - {} == files
    {
    }

    static lemma NothingGone(keep: nat, files: map<string, File>)
      requires |Snapshots(files)| <= keep
      ensures Gone(keep, files, {}, true) && files - {} == files
    {
      hide Snapshots, Kept;
      KeptCounts(Snapshots(files), keep);
    }

    /** The loop that removes what comes after the first names. */
    method RemoveOld(sorted: seq<string>, removals: nat) returns (removed: seq<string>, ok: bool)
      requires keep <= |sorted|
      modifies this`files
      ensures ok <==> |sorted| - keep <= removals
      ensures |removed| == if ok then |sorted| - keep else removals
      ensures files == old(files) - Tail(sorted, keep, keep + |removed|)
      ensures forall n :: n in removed <==> n in Tail(sorted, keep, keep + |removed|)
    {
      removed := [];
      var i := keep;
      ghost var was := files;
      assert Tail(sorted, keep, keep) == {} && files - {} == files;
      hide Tail;
      while i < |sorted|
        invariant keep <= i <= |sorted| && |removed| == i - keep <= removals
        invariant files == was - Tail(sorted, keep, i)
        invariant forall n :: n in removed <==> n in Tail(sorted, keep, i)
      {
        if i - keep >= removals {
          return removed, false;
        }
        TailGrows(sorted, keep, i);
        files := files - {sorted[i]};
        removed := removed + [sorted[i]];
        i := i + 1;
      }
      ok := true;
    }

    static ghost function Tail(sorted: seq<string>, keep: nat, i: nat): set<string> {
      set n | n in sorted && exists j :: keep <= j < i && j < |sorted| && sorted[j] == n
    }

    static lemma TailGrows(sorted: seq<string>, keep: nat, i: nat)
      requires keep <= i < |sorted|
      ensures Tail(sorted, keep, i + 1) == Tail(sorted, keep, i) + {sorted[i]}
    {
      assert sorted[i] in sorted;
    }

    /** The loop that picks the snapshots out of the directory, in any order. */
    static method SnapshotNames(files: map<string, File>) returns (names: seq<string>)
      ensures Listings.Once(names) && forall n :: n in names <==> n in Snapshots(files)
      ensures forall n :: n in names <==>
                          n in files && !files[n].isDir && HasPrefixAndEnding(n)
    {
      hide SnapshotShaped;
      names := [];
      var todo := files.Keys;
      while todo != {}
        invariant todo <= files.Keys && Listings.Once(names)
        invariant forall n :: n in names <==> n in Snapshots(files) && n !in todo
        decreases |todo|
      {
        var name :| name in todo;
        todo := todo - {name};
        if !files[name].isDir && SnapshotShaped(name) {
          names := names + [name];
        }
      }
      SnapshotsExactly(files);
    }

    /** Everything past the first names is to go, and nothing else. */
    static lemma FrontIsKept(files: map<string, File>, sorted: seq<string>, keep: nat)
      requires Descending(sorted) && (forall n :: n in sorted <==> n in Snapshots(files)) && keep <= |sorted|
      ensures forall i: nat {:trigger Tail(sorted, keep, i)} :: i <= |sorted| ==>
                Gone(keep, files, Tail(sorted, keep, i), i == |sorted|)
    {
      hide Snapshots, Kept, Descending;
      var all := Snapshots(files);
      forall j | 0 <= j < |sorted|
        ensures sorted[j] in all && (sorted[j] in Kept(all, keep) <==> j < keep)
      {
        assert sorted[j] in sorted;
        KeptIsFront(sorted, all, keep, j);
      }
      forall i: nat | i <= |sorted|
        ensures Gone(keep, files, Tail(sorted, keep, i), i == |sorted|)
      {
        forall n | n in all
          ensures n in Tail(sorted, keep, i) ==> n !in Kept(all, keep)
          ensures i == |sorted| && n !in Kept(all, keep) ==> n in Tail(sorted, keep, i)
        {
          var j :| 0 <= j < |sorted| && sorted[j] == n;
        }
      }
    }
  }

  lemma {:induction false} CountOnce(s: seq<string>, names: set<string>)
    requires Listings.Once(s) && forall n :: n in s <==> n in names
    ensures |s| == |names|
  {
    if s != [] {
      CountOnce(s[1..], names - {s[0]});
    }
  }

  // ------------------------------------------------------------------ runs of backups

  datatype Nightly = Nightly(day: Day, image: string, outcome: Outcome)

  ghost predicate Run(keep: nat, states: seq<map<string, File>>, nights: seq<Nightly>) {
    && |states| == |nights| + 1
    && forall i :: 0 <= i < |nights| ==>
         OnCalendar(nights[i].day) && BackedUp(keep, states[i], states[i + 1], nights[i].day, nights[i].image,
                                               nights[i].outcome)
  }

  /** The days a snapshot was written on. */
  function Days(nights: seq<Nightly>): set<Day> {
    if nights == [] then {}
    else
      var last := nights[|nights| - 1];
      Days(nights[..|nights| - 1]) + if last.outcome.NotWritten? then {} else {last.day}
  }

  function Names(days: set<Day>): set<string> {
    set d | d in days :: Name(d)
  }

  /** Between the snapshots to keep, and all that were ever there. */
  ghost predicate Between(keep: nat, names: set<string>, files: map<string, File>) {
    Kept(names, keep) <= Snapshots(files) <= names
  }

  lemma SnapshotsAfterWrite(files: map<string, File>, d: Day, image: string)
    ensures Snapshots(WithSnapshot(files, d, image)) == Snapshots(files) + {Name(d)}
  {
    NamesAreShaped(d);
    hide Name, SnapshotShaped;
  }

  lemma SnapshotsAfterPrune(files: map<string, File>, gone: set<string>)
    ensures Snapshots(files - gone) == Snapshots(files) - gone
  {
    hide SnapshotShaped;
  }

  lemma NightKeepsBetween(keep: nat, names: set<string>, files: map<string, File>, files2: map<string, File>,
                          n: Nightly)
    requires Between(keep, names, files) && BackedUp(keep, files, files2, n.day, n.image, n.outcome)
    ensures var names2 := names + if n.outcome.NotWritten? then {} else {Name(n.day)};
            && Between(keep, names2, files2)
            && (n.outcome.WrittenAndPruned? ==> Snapshots(files2) == Kept(names2, keep))
  {
    hide Name, Kept, Snapshots, SnapshotShaped, WithSnapshot;
    if n.outcome.NotWritten? {
      NamesAreShaped(n.day);
      SnapshotsAfterPrune(files, {TempName(n.day)});
      SnapshotsAfterPrune(files2, {TempName(n.day)});
      NotASnapshot(files, TempName(n.day));
      NotASnapshot(files2, TempName(n.day));
      assert names + {} == names;
    } else {
      var final := Name(n.day);
      var written := WithSnapshot(files, n.day, n.image);
      SnapshotsAfterWrite(files, n.day, n.image);
      KeptIncrementally(names, keep, final);
      KeptOfKept(names + {final}, Snapshots(written), keep);
      var gone :| Gone(keep, written, gone, n.outcome.WrittenAndPruned?) && files2 == written - gone;
      SnapshotsAfterPrune(written, gone);
      KeptIsSome(Snapshots(written), keep);
    }
  }

  lemma KeptIsSome(names: set<string>, keep: nat)
    ensures Kept(names, keep) <= names
  {
  }

  lemma NotASnapshot(files: map<string, File>, n: string)
    requires !SnapshotShaped(n)
    ensures Snapshots(files) - {n} == Snapshots(files)
  {
  }

  lemma NamesGrow(days: set<Day>, d: Day)
    ensures Names(days + {d}) == Names(days) + {Name(d)}
  {
  }

  lemma {:induction false} RunBetween(keep: nat, states: seq<map<string, File>>, nights: seq<Nightly>)
    requires Run(keep, states, nights) && Snapshots(states[0]) == {}
    ensures Between(keep, Names(Days(nights)), states[|nights|])
    ensures nights != [] && nights[|nights| - 1].outcome.WrittenAndPruned? ==>
              Snapshots(states[|nights|]) == Kept(Names(Days(nights)), keep)
    decreases |nights|
  {
    hide Between, BackedUp, Kept, Snapshots, Names;
    if nights == [] {
      NothingKept(keep, states[0]);
    } else {
      var k := |nights| - 1;
      RunBetween(keep, states[..k + 1], nights[..k]);
      NightKeepsBetween(keep, Names(Days(nights[..k])), states[k], states[k + 1], nights[k]);
      NamesGrow(Days(nights[..k]), nights[k].day);
      assert Days(nights[..k]) + {} == Days(nights[..k]) && Names(Days(nights[..k])) + {} == Names(Days(nights[..k]));
    }
  }

  lemma NothingKept(keep: nat, files: map<string, File>)
    requires Snapshots(files) == {}
    ensures Between(keep, Names({}), files)
  {
  }

  lemma {:induction false} DaysAreReal(keep: nat, states: seq<map<string, File>>, nights: seq<Nightly>)
    requires Run(keep, states, nights)
    ensures forall d :: d in Days(nights) ==> OnCalendar(d)
    decreases |nights|
  {
    hide BackedUp;
    if nights != [] {
      var k := |nights| - 1;
      DaysAreReal(keep, states[..k + 1], nights[..k]);
    }
  }

  /** As many names as days, and as many newer names as later days. */
  lemma {:induction false} NamesCount(days: set<Day>)
    requires forall d :: d in days ==> OnCalendar(d)
    ensures |Names(days)| == |days|
  {
    hide Name;
    if days == {} {
      assert Names(days) == {};
    } else {
      var d :| d in days;
      NamesCount(days - {d});
      NamesGrow(days - {d}, d);
      assert days - {d} + {d} == days;
      forall e | e in days - {d}
        ensures Name(e) != Name(d)
      {
        NamesSortByDay(d, e);
      }
    }
  }

  function Later(days: set<Day>, d: Day): set<Day> {
    set e | e in days && Earlier(d, e)
  }

  lemma NewerIsLater(days: set<Day>, d: Day)
    requires OnCalendar(d) && forall e :: e in days ==> OnCalendar(e)
    ensures |Newer(Names(days), Name(d))| == |Later(days, d)|
  {
    hide Name, Lt;
    forall e | e in days
      ensures Lt(Name(d), Name(e)) <==> Earlier(d, e)
    {
      NamesSortByDay(d, e);
    }
    assert Newer(Names(days), Name(d)) == Names(Later(days, d));
    NamesCount(Later(days, d));
  }

  /**
   * Any run of backups, starting without snapshots, whatever fails on the way: after one that ran to its end the
   * directory holds exactly the snapshots of the newest days, as many as are to be kept or as there are days.
   */
  lemma NewestDaysAreKept(keep: nat, states: seq<map<string, File>>, nights: seq<Nightly>)
    requires Run(keep, states, nights) && Snapshots(states[0]) == {}
    requires nights != [] && nights[|nights| - 1].outcome.WrittenAndPruned?
    ensures var snapshots, days := Snapshots(states[|nights|]), Days(nights);
            && (forall n :: n in snapshots ==> n in Names(days))
            && (forall d :: d in days ==> (Name(d) in snapshots <==> |Later(days, d)| < keep))
            && |snapshots| == if |days| <= keep then |days| else keep
  {
    hide Run, Newer, Later, Snapshots, Name;
    RunBetween(keep, states, nights);
    DaysAreReal(keep, states, nights);
    var days := Days(nights);
    forall d | d in days
      ensures Name(d) in Names(days) && |Newer(Names(days), Name(d))| == |Later(days, d)|
    {
      NewerIsLater(days, d);
    }
    KeptCounts(Names(days), keep);
    NamesCount(days);
  }

  /** While the clock does not run backwards, the snapshot just written survives its own pruning. */
  lemma JustWrittenSurvives(keep: nat, states: seq<map<string, File>>, nights: seq<Nightly>)
    requires Run(keep, states, nights) && Snapshots(states[0]) == {} && keep >= 1
    requires nights != [] && nights[|nights| - 1].outcome.WrittenAndPruned?
    requires forall i :: 0 <= i < |nights| ==> !Earlier(nights[|nights| - 1].day, nights[i].day)
    ensures Name(nights[|nights| - 1].day) in Snapshots(states[|nights|])
  {
    hide Run, Snapshots, Name, Earlier;
    NewestDaysAreKept(keep, states, nights);
    NoneLater(nights, nights[|nights| - 1].day);
    assert nights[|nights| - 1].day in Days(nights);
  }

  lemma {:induction false} NoneLater(nights: seq<Nightly>, d: Day)
    requires forall i :: 0 <= i < |nights| ==> !Earlier(d, nights[i].day)
    ensures Later(Days(nights), d) == {}
  {
    hide Earlier;
    if nights != [] {
      NoneLater(nights[..|nights| - 1], d);
      forall e | e in Days(nights)
        ensures !Earlier(d, e)
      {
        if e in Days(nights[..|nights| - 1]) {
          assert e !in Later(Days(nights[..|nights| - 1]), d);
        }
      }
    }
  }

  /** A file whose name lacks the prefix or the ending, and is no backup's temporary file, is never touched. */
  lemma OthersUntouched(keep: nat, states: seq<map<string, File>>, nights: seq<Nightly>, n: string)
    requires Run(keep, states, nights) && !HasPrefixAndEnding(n)
    requires forall i :: 0 <= i < |nights| ==>
               var d := nights[i].day;
               n != "homesink-" + ZeroPadded(d.year, 4) + "-" + ZeroPadded(d.month, 2) + "-" + ZeroPadded(d.date, 2)
                    + ".db" + ".tmp"
    ensures n in states[|nights|] <==> n in states[0]
    ensures n in states[0] ==> states[|nights|][n] == states[0][n]
  {
    hide Run, SnapshotShaped, HasPrefixAndEnding, Name, TempName, ZeroPadded;
    ShapedExactly(n);
    forall i | 0 <= i < |nights|
      ensures n != TempName(nights[i].day)
    {
      NamesAreLiteral(nights[i].day, n);
    }
    UnshapedUntouched(keep, states, nights, n);
  }

  lemma {:induction false} UnshapedUntouched(keep: nat, states: seq<map<string, File>>, nights: seq<Nightly>,
                                             n: string)
    requires Run(keep, states, nights) && !SnapshotShaped(n)
    requires forall i :: 0 <= i < |nights| ==> n != TempName(nights[i].day)
    ensures n in states[|nights|] <==> n in states[0]
    ensures n in states[0] ==> states[|nights|][n] == states[0][n]
    decreases |nights|
  {
    hide BackedUp, SnapshotShaped, TempName;
    if nights != [] {
      var k := |nights| - 1;
      UnshapedUntouched(keep, states[..k + 1], nights[..k], n);
      NightLeavesOthers(keep, states[k], states[k + 1], nights[k], n);
    }
  }

  lemma NightLeavesOthers(keep: nat, files: map<string, File>, files2: map<string, File>, night: Nightly, n: string)
    requires BackedUp(keep, files, files2, night.day, night.image, night.outcome) && !SnapshotShaped(n)
    requires n != TempName(night.day)
    ensures n in files2 <==> n in files
    ensures n in files ==> files2[n] == files[n]
  {
    hide Name, TempName, Kept, SnapshotShaped;
    NamesAreShaped(night.day);
    if night.outcome.NotWritten? {
      assert n in files2 <==> n in files2 - {TempName(night.day)};
      assert n in files <==> n in files - {TempName(night.day)};
      assert n in files ==> (files2 - {TempName(night.day)})[n] == (files - {TempName(night.day)})[n];
    } else {
      var written := WithSnapshot(files, night.day, night.image);
      var gone :| Gone(keep, written, gone, night.outcome.WrittenAndPruned?) && files2 == written - gone;
      assert n !in Snapshots(written);
    }
  }
}
