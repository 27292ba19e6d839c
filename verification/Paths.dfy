/** Library-relative paths: how they are printed, what they resolve to, and the containment check. */
module Paths {
  import opened Text
  import opened Sanitize
  import opened SanitizeLaws
  import opened Schema

  /** The components of one placement. */
  datatype Resolved = Resolved(album: string, year: int, month: int, filename: string) {
    function RelPath(): string {
      JoinRel(album, year, month, filename)
    }

    /** The path segments the components print to. */
    function Segments(): seq<string> {
      [album, PadInt(year, 4), PadInt(month, 2), filename]
    }
  }

  /** fmt.Sprintf("%0*d"): a sign counts towards the width. */
  function PadInt(n: int, width: nat): string
    requires width >= 1
  {
    if n < 0 then "-" + ZeroPadded(-n, width - 1) else ZeroPadded(n, width)
  }

  function JoinRel(album: string, year: int, month: int, filename: string): string {
    album + "/" + PadInt(year, 4) + "/" + PadInt(month, 2) + "/" + filename
  }

  function Resolve(u: Unicode, album: string, year: int, month: int, filename: string): Resolved {
    Resolved(SanitizeAlbum(u, album), year, month, SanitizeFilename(u, filename))
  }

  // ------------------------------------------------------------------ containment

  /** filepath.Clean on the segments of an absolute path, continuing from what is already clean. */
  function CleanOnto(base: seq<string>, segments: seq<string>): seq<string>
    decreases |segments|
  {
    if segments == [] then base
    else
      var s := segments[0];
      var next := if s == "" || s == "." then base
                  else if s == ".." then (if base == [] then [] else base[..|base| - 1])
                  else base + [s];
      CleanOnto(next, segments[1..])
  }

  /** filepath.Join(root, rel): the segments of the joined, cleaned absolute path. */
  function JoinAbs(root: seq<string>, rel: string): seq<string> {
    CleanOnto([], root + Split(rel, '/'))
  }

  function CommonPrefix(a: seq<string>, b: seq<string>): (k: nat)
    ensures k <= |a| && k <= |b| && a[..k] == b[..k]
    ensures k < |a| && k < |b| ==> a[k] != b[k]
  {
    if a == [] || b == [] || a[0] != b[0] then 0 else 1 + CommonPrefix(a[1..], b[1..])
  }

  function Ups(n: nat): (s: seq<string>)
    ensures |s| == n && forall i :: 0 <= i < n ==> s[i] == ".."
  {
    if n == 0 then [] else [".."] + Ups(n - 1)
  }

  /** filepath.Rel between two clean absolute paths. */
  function RelBetween(base: seq<string>, target: seq<string>): string {
    var k := CommonPrefix(base, target);
    var segments := Ups(|base| - k) + target[k..];
    if segments == [] then "." else Join(segments, '/')
  }

  /** The check of safeAbs; the result is the absolute path as segments. */
  function SafeAbs(root: seq<string>, rel: string): Option<seq<string>> {
    if rel == "" || rel[0] == '/' || rel[0] == '\\' then None
    else
      var abs := JoinAbs(root, rel);
      var back := RelBetween(root, abs);
      if back == "." || back == ".." || "../" <= back then None else Some(abs)
  }

  /** A clean absolute path: every segment names an entry of the directory before it. */
  predicate CleanPath(p: seq<string>) {
    forall s :: s in p ==> Component(s)
  }

  lemma {:induction false} CleanOntoIsClean(base: seq<string>, segments: seq<string>)
    requires CleanPath(base) && forall s :: s in segments ==> '/' !in s
    ensures CleanPath(CleanOnto(base, segments))
    decreases |segments|
  {
    if segments != [] {
      var s := segments[0];
      assert s in segments;
      var next := if s == "" || s == "." then base
                  else if s == ".." then (if base == [] then [] else base[..|base| - 1])
                  else base + [s];
      assert CleanPath(next);
      CleanOntoIsClean(next, segments[1..]);
    }
  }

  lemma {:induction false} CleanOntoKeeps(base: seq<string>, clean: seq<string>, segments: seq<string>)
    requires CleanPath(clean)
    ensures CleanOnto(base, clean + segments) == CleanOnto(base + clean, segments)
    decreases |clean|
  {
    if clean == [] {
      assert clean + segments == segments && base + clean == base;
    } else {
      assert clean[0] in clean;
      assert (clean + segments)[1..] == clean[1..] + segments;
      assert base + clean == base + [clean[0]] + clean[1..];
      CleanOntoKeeps(base + [clean[0]], clean[1..], segments);
    }
  }

  /** The way back starts with ".." exactly when the target is not below the base. */
  lemma RelBetweenClimbs(base: seq<string>, target: seq<string>)
    requires CleanPath(base) && CleanPath(target)
    ensures var back := RelBetween(base, target);
            (back == "." || back == ".." || "../" <= back) <==> !(base < target)
  {
    hide Join;
    var k := CommonPrefix(base, target);
    var segments := Ups(|base| - k) + target[k..];
    if segments == [] {
      assert base[..k] == base && target[..k] == target;
    } else {
      var back := Join(segments, '/');
      forall s | s in segments
        ensures '/' !in s
      {
        assert s in Ups(|base| - k) || s in target;
      }
      SplitJoin(segments, '/');
      assert back != "." by {
        assert segments[0] != "." by { assert k < |target| ==> target[k] in target; }
        SplitNone(".", '/');
      }
      assert base < target <==> |base| == k by {
        if |base| == k {
          assert base == base[..k] == target[..k];
        }
      }
      assert segments[0] == ".." <==> |base| > k by {
        assert k < |target| ==> target[k] in target;
      }
      if "../" <= back {
        SplitFirst("..", back[3..], '/');
        assert back == ".." + ['/'] + back[3..];
      }
      if back == ".." {
        SplitNone("..", '/');
      }
      if segments[0] == ".." {
        StartsWithFirst(segments);
      }
    }
  }

  lemma StartsWithFirst(segments: seq<string>)
    requires segments != [] && segments[0] == ".."
    ensures Join(segments, '/') == ".." || "../" <= Join(segments, '/')
  {
    assert ".." + ['/'] == "../";
  }

  /**
   * safeAbs accepts a path exactly when it is not empty, does not start with a slash or a backslash, and its
   * cleaned join is strictly below the root; it then returns that join.
   */
  lemma SafeAbsIsContainment(root: seq<string>, rel: string)
    requires CleanPath(root)
    ensures JoinAbs(root, rel) == CleanOnto(root, Split(rel, '/'))
    ensures SafeAbs(root, rel).Some? <==>
            rel != "" && rel[0] != '/' && rel[0] != '\\' && root < CleanOnto(root, Split(rel, '/'))
    ensures SafeAbs(root, rel).Some? ==> SafeAbs(root, rel).value == CleanOnto(root, Split(rel, '/'))
  {
    hide CleanOnto, RelBetween;
    var segments := Split(rel, '/');
    CleanOntoKeeps([], root, segments);
    assert [] + root == root;
    CleanOntoIsClean(root, segments);
    RelBetweenClimbs(root, CleanOnto(root, segments));
  }

  // ------------------------------------------------------------------ printing

  lemma {:induction false} PadIntFacts(n: int, width: nat)
    requires width >= 1
    ensures Component(PadInt(n, width))
    ensures forall c :: c in PadInt(n, width) ==> c == '-' || '0' <= c <= '9'
  {
    var s := PadInt(n, width);
    assert forall i :: 0 <= i < |s| ==> s[i] == '-' || '0' <= s[i] <= '9';
    assert s != "";
    assert s[0] != '.';
  }

  /** Printed at one width, different numbers print differently. */
  lemma PadIntInjective(m: int, n: int, width: nat)
    requires width >= 1 && PadInt(m, width) == PadInt(n, width)
    ensures m == n
  {
    hide ZeroPadded;
    ZeroPaddedValue(if m < 0 then -m else m, if m < 0 then width - 1 else width);
    ZeroPaddedValue(if n < 0 then -n else n, if n < 0 then width - 1 else width);
    assert m < 0 <==> PadInt(m, width)[0] == '-';
    assert n < 0 <==> PadInt(n, width)[0] == '-';
    if m < 0 {
      assert PadInt(m, width)[1..] == ZeroPadded(-m, width - 1);
      assert PadInt(n, width)[1..] == ZeroPadded(-n, width - 1);
    }
  }

  lemma JoinRelIsJoin(r: Resolved)
    ensures r.RelPath() == Join(r.Segments(), '/')
  {
    hide PadInt;
    var s := r.Segments();
    var a, y, m, f := s[0], s[1], s[2], s[3];
    assert s[1..] == [y, m, f] && [y, m, f][1..] == [m, f] && [m, f][1..] == [f];
    assert Join([m, f], '/') == m + ['/'] + f;
    assert Join([y, m, f], '/') == y + ['/'] + (m + ['/'] + f);
    assert Join(s, '/') == a + ['/'] + (y + ['/'] + (m + ['/'] + f));
    assert r.RelPath() == a + ['/'] + y + ['/'] + m + ['/'] + f;
  }

  /**
   * Printing a path and splitting it at the slashes undo each other, for slash-free components. So two paths
   * are equal exactly when album, year, month and file name are.
   */
  lemma JoinRelRoundTrip(r: Resolved, q: Resolved)
    requires '/' !in r.album && '/' !in r.filename && '/' !in q.album && '/' !in q.filename
    ensures Split(r.RelPath(), '/') == r.Segments()
    ensures r.RelPath() == q.RelPath() <==> r == q
  {
    hide PadInt, Join, Split, JoinRel;
    JoinRelIsJoin(r);
    JoinRelIsJoin(q);
    PadIntFacts(r.year, 4);
    PadIntFacts(r.month, 2);
    PadIntFacts(q.year, 4);
    PadIntFacts(q.month, 2);
    SplitJoin(r.Segments(), '/');
    SplitJoin(q.Segments(), '/');
    if r.RelPath() == q.RelPath() {
      assert r.Segments() == q.Segments();
      assert forall i :: 0 <= i < 4 ==> r.Segments()[i] == q.Segments()[i];
      assert r.Segments()[1] == q.Segments()[1] && r.Segments()[2] == q.Segments()[2];
      PadIntInjective(r.year, q.year, 4);
      PadIntInjective(r.month, q.month, 2);
      assert r.Segments()[0] == q.Segments()[0] && r.Segments()[3] == q.Segments()[3];
    }
  }

  /** A printed path holds the year in four digits and the month in two, and both can be read back. */
  lemma PathsReadBack(album: string, year: nat, month: nat, filename: string)
    requires '/' !in album && '/' !in filename && year < 10000 && month < 100
    ensures var pieces := Split(JoinRel(album, year, month, filename), '/');
            && |pieces| == 4 && pieces[0] == album && pieces[3] == filename
            && |pieces[1]| == 4 && Digits(pieces[1]) && DecimalValue(pieces[1]) == year
            && |pieces[2]| == 2 && Digits(pieces[2]) && DecimalValue(pieces[2]) == month
  {
    hide Split, Join, ZeroPadded, DecimalValue;
    var r := Resolved(album, year, month, filename);
    JoinRelRoundTrip(r, r);
    assert Pow10(4) == 10000 && Pow10(2) == 100;
    ZeroPaddedValue(year, 4);
    ZeroPaddedValue(month, 2);
  }

  /** What every placement the library builds looks like. */
  predicate Built(r: Resolved) {
    Component(r.album) && r.album[0] != '\\' && '/' !in r.filename && r.filename != ".."
  }

  lemma ResolveIsBuilt(u: Unicode, album: string, year: int, month: int, filename: string)
    ensures Built(Resolve(u, album, year, month, filename))
    ensures var f := Resolve(u, album, year, month, filename).filename;
            f != "" && (Component(f) <==> !DotOnly(u, filename))
  {
    hide SanitizeAlbum, SanitizeFilename, IsSpace, SingleSpaced, DotOnly;
    SanitizeAlbumIsClean(u, album);
    SanitizeFilenameIsComponent(u, filename);
    var a := SanitizeAlbum(u, album);
    assert a[0] in a;
    SeparatorsStripped();
  }

  lemma SeparatorsStripped()
    ensures Stripped('/') && Stripped('\\') && IsEdge('.')
  {
  }

  /** Where a built path lands: four segments below the root, or three when the file name is empty or ".". */
  function Target(root: seq<string>, r: Resolved): seq<string> {
    if r.filename == "" || r.filename == "." then root + r.Segments()[..3] else root + r.Segments()
  }

  lemma BuiltPathLands(root: seq<string>, r: Resolved)
    requires CleanPath(root) && Built(r)
    ensures SafeAbs(root, r.RelPath()) == Some(Target(root, r))
    ensures CleanPath(Target(root, r))
  {
    hide PadInt, Split, Join, RelBetween, CleanOnto, CleanPath;
    var s := r.Segments();
    JoinRelRoundTrip(r, r);
    SafeAbsIsContainment(root, r.RelPath());
    PadIntFacts(r.year, 4);
    PadIntFacts(r.month, 2);
    assert r.RelPath()[0] == r.album[0] && r.album[0] in r.album;
    CleanBuilt(root, s);
  }

  lemma CleanBuilt(root: seq<string>, s: seq<string>)
    requires CleanPath(root) && |s| == 4 && CleanPath(s[..3]) && '/' !in s[3] && s[3] != ".."
    ensures var t := if s[3] == "" || s[3] == "." then root + s[..3] else root + s;
            CleanOnto(root, s) == t && CleanPath(t) && root < t
  {
    assert s == s[..3] + [s[3]];
    CleanOntoKeeps(root, s[..3], [s[3]]);
    assert CleanOnto(root + s[..3], [s[3]]) ==
           if s[3] == "" || s[3] == "." then root + s[..3] else root + s[..3] + [s[3]];
    assert root + s[..3] + [s[3]] == root + s;
  }

  /** Two built paths land on one file only if they are one path, but for an empty file name against ".". */
  lemma TargetsDiffer(root: seq<string>, r: Resolved, q: Resolved)
    requires CleanPath(root) && Built(r) && Built(q) && Target(root, r) == Target(root, q)
    requires r.filename != "" && q.filename != ""
    ensures r == q
  {
    hide PadInt, CleanPath;
    var s, t := r.Segments(), q.Segments();
    assert |Target(root, r)| == |Target(root, q)|;
    assert Target(root, r)[|root|..][..3] == s[..3] && Target(root, q)[|root|..][..3] == t[..3];
    assert s[..3][0] == t[..3][0] && s[..3][1] == t[..3][1] && s[..3][2] == t[..3][2];
    PadIntInjective(r.year, q.year, 4);
    PadIntInjective(r.month, q.month, 2);
    if |Target(root, r)| == |root| + 4 {
      assert Target(root, r)[|root| + 3] == s[3] && Target(root, q)[|root| + 3] == t[3];
    }
  }

  /**
   * BuildRelPath results: always accepted. They land exactly four segments below the root unless the file name
   * comes out as a bare dot, on ASCII therefore always, so that no placed path is a proper prefix of another.
   */
  lemma BuildRelPathIsContained(u: Unicode, root: seq<string>, album: string, year: int, month: int, filename: string)
    requires CleanPath(root)
    ensures var r := Resolve(u, album, year, month, filename);
            var abs := SafeAbs(root, r.RelPath());
            && abs.Some? && root < abs.value
            && (|abs.value| == |root| + 4 <==> !DotOnly(u, filename))
            && (!DotOnly(u, filename) ==> abs.value == root + r.Segments())
            && (u.AsciiExact() && Ascii(filename) ==> |abs.value| == |root| + 4)
  {
    hide PadInt, CleanPath, SafeAbs, DotOnly, Resolve;
    var r := Resolve(u, album, year, month, filename);
    ResolveIsBuilt(u, album, year, month, filename);
    BuiltPathLands(root, r);
    SafeAbsIsContainment(root, r.RelPath());
    SanitizeFilenameIsComponent(u, filename);
  }

  /** For years of four digits and real months, paths within one album sort by year and month first. */
  lemma PathsSortByMonth(r: Resolved, q: Resolved)
    requires r.album == q.album && 0 <= r.year < 10000 && 0 <= q.year < 10000
    requires 1 <= r.month <= 12 && 1 <= q.month <= 12
    ensures r.year < q.year || (r.year == q.year && r.month < q.month) ==> Lt(r.RelPath(), q.RelPath())
    ensures Lt(r.RelPath(), q.RelPath()) ==> r.year < q.year || (r.year == q.year && r.month <= q.month)
  {
    if r.year < q.year || (r.year == q.year && r.month < q.month) {
      EarlierSortsFirst(r, q);
    }
    if q.year < r.year || (q.year == r.year && q.month < r.month) {
      EarlierSortsFirst(q, r);
      LtTotal(r.RelPath(), q.RelPath());
    }
  }

  lemma EarlierSortsFirst(r: Resolved, q: Resolved)
    requires r.album == q.album && 0 <= r.year < 10000 && 0 <= q.year < 10000
    requires 1 <= r.month <= 12 && 1 <= q.month <= 12
    requires r.year < q.year || (r.year == q.year && r.month < q.month)
    ensures Lt(r.RelPath(), q.RelPath())
  {
    hide ZeroPadded, Lt;
    var y, m, f := PadInt(r.year, 4), PadInt(r.month, 2), r.filename;
    var y', m', f' := PadInt(q.year, 4), PadInt(q.month, 2), q.filename;
    assert Pow10(4) == 10000 && Pow10(2) == 100;
    ZeroPaddedValue(r.year, 4);
    ZeroPaddedValue(q.year, 4);
    ZeroPaddedValue(r.month, 2);
    ZeroPaddedValue(q.month, 2);
    var rest, rest' := "/" + m + "/" + f, "/" + m' + "/" + f';
    var a := r.album + "/";
    assert r.RelPath() == a + (y + rest) && q.RelPath() == a + (y' + rest');
    if r.year < q.year {
      ZeroPaddedOrder(r.year, q.year, 4);
      LtDecided(y, y', rest, rest');
      LtPrefix(a, y + rest, y' + rest');
    } else {
      ZeroPaddedOrder(r.month, q.month, 2);
      var p := a + y + "/";
      assert r.RelPath() == p + (m + ("/" + f)) && q.RelPath() == p + (m' + ("/" + f'));
      LtDecided(m, m', "/" + f, "/" + f');
      LtPrefix(p, m + ("/" + f), m' + ("/" + f'));
    }
  }
}
