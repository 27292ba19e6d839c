/** When a suffixed name comes out empty, and names at which what is promised of names fails. */
module SuffixLaws {
  import opened Text
  import opened Sanitize
  import opened SanitizeLaws

  // ------------------------------------------------------------------ the empty suffixed name

  predicate AllEdges(s: string) {
    forall c :: c in s ==> IsEdge(c)
  }

  lemma {:induction false} TrimLeftNothing(s: string)
    ensures TrimLeft(s) == "" <==> AllEdges(s)
    ensures TrimLeft(s) != "" ==> !IsEdge(TrimLeft(s)[0])
  {
    hide IsEdge;
    if s != "" && IsEdge(s[0]) {
      TrimLeftNothing(s[1..]);
      assert s == [s[0]] + s[1..];
    } else if s != "" {
      assert s[0] in s;
    }
  }

  lemma TrimsToNothing(s: string)
    ensures TrimDotsAndSpaces(s) == "" <==> AllEdges(s)
  {
    hide IsEdge, TrimRight, TrimLeft, AllEdges;
    TrimLeftNothing(s);
    var j := TrimRightFacts(TrimLeft(s));
    if TrimLeft(s) == "" {
      assert TrimRight("") == "" by { TrimRightOfNothing(); }
    }
  }

  lemma TrimRightOfNothing()
    ensures TrimRight("") == ""
  {
  }

  /** The first j pieces are what a budget allows: the next one is too much. */
  predicate FillsBudget(cs: seq<string>, j: nat, budget: int) {
    j < |cs| && ByteLen(Concat(cs[..j])) <= budget < ByteLen(Concat(cs[..j + 1]))
  }

  lemma ConcatGrows(cs: seq<string>, i: nat, j: nat)
    requires i <= j <= |cs|
    ensures ByteLen(Concat(cs[..i])) <= ByteLen(Concat(cs[..j]))
  {
    hide ByteLen, Concat;
    assert cs[..j] == cs[..i] + cs[i..j];
    ConcatAppend(cs[..i], cs[i..j]);
    ByteLenAppend(Concat(cs[..i]), Concat(cs[i..j]));
  }

  lemma FitFillsBudget(cs: seq<string>, j: nat, budget: int)
    requires 0 <= budget < ByteLen(Concat(cs))
    ensures FillsBudget(cs, j, budget) <==> j == Fit(cs, budget)
  {
    hide ByteLen, Concat, Fit;
    var f := Fit(cs, budget);
    FitIsLongest(cs, budget);
    assert cs[..|cs|] == cs;
    if j < f {
      ConcatGrows(cs, j + 1, f);
    }
  }

  /** Only dots and spaces of the suffixed name fit under the cap: then nothing of it is left. */
  ghost predicate OnlyEdgesFit(cs: seq<string>) {
    exists j: nat :: FillsBudget(cs, j, MAX_FILENAME_BYTES) && AllEdges(Concat(cs[..j]))
  }

  function WithSuffix(f: string, hash: string): string
    requires |hash| >= COLLISION_HEX_LEN
  {
    f + COLLISION_SEP + hash[..COLLISION_HEX_LEN]
  }

  lemma TruncatedToNothing(u: Unicode, long: string)
    requires long != "" && ByteLen(long) > MAX_FILENAME_BYTES
    ensures TrimDotsAndSpaces(TruncateGraphemeBytes(u, long, MAX_FILENAME_BYTES)) == "" <==>
              OnlyEdgesFit(Clusters(u, long, -1))
    ensures !IsEdge(long[0]) ==>
              (OnlyEdgesFit(Clusters(u, long, -1)) <==> ByteLen(Clusters(u, long, -1)[0]) > MAX_FILENAME_BYTES)
  {
    hide ByteLen, Clusters, Concat, Fit, FillsBudget, TrimDotsAndSpaces, AllEdges, IsEdge;
    var cs := Clusters(u, long, -1);
    ConcatClusters(u, long, -1);
    var f := Fit(cs, MAX_FILENAME_BYTES);
    TrimsToNothing(Concat(cs[..f]));
    forall j: nat
      ensures FillsBudget(cs, j, MAX_FILENAME_BYTES) <==> j == f
    {
      FitFillsBudget(cs, j, MAX_FILENAME_BYTES);
    }
    if !IsEdge(long[0]) {
      NothingFits(u, long);
    }
  }

  /** A name that does not start with a dot or a space is lost exactly when its very first cluster is too long. */
  lemma NothingFits(u: Unicode, long: string)
    requires long != "" && ByteLen(long) > MAX_FILENAME_BYTES && !IsEdge(long[0])
    ensures var cs := Clusters(u, long, -1);
            && cs != []
            && (AllEdges(Concat(cs[..Fit(cs, MAX_FILENAME_BYTES)])) <==> ByteLen(cs[0]) > MAX_FILENAME_BYTES)
  {
    hide ByteLen, Clusters, Concat, IsEdge;
    var cs := Clusters(u, long, -1);
    ConcatClusters(u, long, -1);
    ClustersNonEmpty(u, long, -1);
    NoBytes();
    ConcatNothing();
    var f := Fit(cs, MAX_FILENAME_BYTES);
    var kept := Concat(cs[..f]);
    ClusterPrefix(u, long, f);
    if f > 0 {
      assert kept[0] == long[0] && kept[0] in kept;
    } else {
      assert cs[..0] == [];
    }
  }

  /**
   * When a suffixed name comes out empty, for any name within the cap and any script: there is no extension, the
   * suffix does not fit whole, and only dots and spaces fit. For a name that does not start with one of these
   * that is to say that the first cluster, with what the suffix adds to it, is over the cap by itself.
   */
  lemma SuffixedNameIsEmptyExactlyWhen(u: Unicode, f: string, hash: string)
    requires ByteLen(f) <= MAX_FILENAME_BYTES && ValidHash(hash)
    ensures |hash| >= COLLISION_HEX_LEN
    ensures SuffixedFilename(u, f, hash) == "" <==>
            SplitExt(f).1 == "" && ByteLen(f) > 235 && OnlyEdgesFit(Clusters(u, WithSuffix(f, hash), -1))
    ensures f != "" && !IsEdge(f[0]) ==>
              var cs := Clusters(u, WithSuffix(f, hash), -1);
              && cs != []
              && (SuffixedFilename(u, f, hash) == "" <==>
                    SplitExt(f).1 == "" && ByteLen(f) > 235 && ByteLen(cs[0]) > MAX_FILENAME_BYTES)
  {
    hide ByteLen, Clusters, ValidHash, TruncateGraphemeBytes, TrimDotsAndSpaces, OnlyEdgesFit, IsEdge, SplitExt;
    HashPrefixFacts(hash);
    var (stem, ext) := SplitExt(f);
    SplitExtBytes(f);
    SuffixBytes(stem, hash);
    SuffixBytes(f, hash);
    NoBytes();
    var long := WithSuffix(f, hash);
    assert ext == "" ==> stem == f by { assert stem + "" == stem; }
    assert f != "" ==> long[0] == f[0];
    FirstCluster(u, long);
    if ByteLen(f) > 235 {
      TruncatedToNothing(u, long);
      assert ext == "" ==> MAX_FILENAME_BYTES - ByteLen(ext) == MAX_FILENAME_BYTES;
      var cut := TrimDotsAndSpaces(TruncateGraphemeBytes(u, stem + COLLISION_SEP + hash[..COLLISION_HEX_LEN],
                                                         MAX_FILENAME_BYTES - ByteLen(ext)));
      assert SuffixedFilename(u, f, hash) == cut + ext;
      assert cut + "" == cut;
    }
  }

  lemma FirstCluster(u: Unicode, s: string)
    ensures s != "" ==> Clusters(u, s, -1) != []
  {
  }

  // ------------------------------------------------------------------ on ASCII a suffixed name is a component

  /** Cutting and joining leave no two spaces in a row. */
  lemma SanitizedIsSingleSpaced(u: Unicode, raw: string)
    ensures SingleSpaced(SanitizeFilename(u, raw))
  {
    hide FitFilename, Reserved, TrimmedFilename, SplitExt, SingleSpaced;
    TrimmedFilenameFacts(u, raw);
    var s := TrimmedFilename(u, raw);
    var (stem, ext) := SplitExt(s);
    SplitExtFacts(s);
    assert stem == s[0..|stem|] && ext == s[|stem|..|s|];
    SliceIsSingleSpaced(s, 0, |stem|);
    SliceIsSingleSpaced(s, |stem|, |s|);
    SpacedSuffix(stem);
    FittedIsSingleSpaced(u, SuffixReserved(stem), ext);
    FallbackIsSpaced();
  }

  lemma FittedIsSingleSpaced(u: Unicode, stem: string, ext: string)
    requires SingleSpaced(stem) && SingleSpaced(ext) && Extension(ext)
    ensures SingleSpaced(FitFilename(u, stem, ext))
  {
    hide ByteLen, TruncateGraphemeBytes, TrimDotsAndSpaces, SingleSpaced, Extension;
    var budget := MAX_FILENAME_BYTES - ByteLen(ext);
    var p, q := TruncateGraphemeBytes(u, ext, MAX_FILENAME_BYTES), TruncateGraphemeBytes(u, stem, budget);
    TruncateGraphemeBytesIsLongest(u, ext, MAX_FILENAME_BYTES);
    TruncateGraphemeBytesIsLongest(u, stem, budget);
    assert p == ext[0..|p|] && q == stem[0..|q|];
    SliceIsSingleSpaced(ext, 0, |p|);
    SliceIsSingleSpaced(stem, 0, |q|);
    var i, j := TrimFacts(q);
    SliceIsSingleSpaced(q, i, j);
    SpacedJoin(TrimDotsAndSpaces(q), ext);
    SpacedJoin(stem, ext);
  }

  lemma SpacedSuffix(s: string)
    requires SingleSpaced(s)
    ensures SingleSpaced(SuffixReserved(s))
  {
    hide Reserved;
  }

  lemma SpacedJoin(a: string, ext: string)
    requires SingleSpaced(a) && SingleSpaced(ext) && Extension(ext)
    ensures SingleSpaced(a + ext)
  {
  }

  lemma FallbackIsSpaced()
    ensures SingleSpaced(FILENAME_FALLBACK)
  {
  }

  /** A long sanitised name without an extension has a character that no trimming takes away. */
  lemma LongNamesHold(f: string)
    requires SingleSpaced(f) && |f| > 2 && SplitExt(f).1 == ""
    ensures !AllEdges(f)
  {
    assert LastIndexOf(f, '.') <= 0;
    assert f[1] in f && f[2] in f;
  }

  /** On ASCII the suffixed name of a sanitised name is never empty, so it denotes one entry of its directory. */
  lemma SuffixedAsciiIsComponent(u: Unicode, raw: string, hash: string)
    requires u.AsciiExact() && Ascii(raw) && ValidHash(hash)
    ensures Component(SuffixedFilename(u, SanitizeFilename(u, raw), hash))
  {
    hide SanitizeFilename, SuffixedFilename, DotOnly, ValidHash, Clusters, ByteLen, OnlyEdgesFit, TruncateGraphemeBytes,
      TrimDotsAndSpaces, SplitExt, AllEdges, SingleSpaced, IsEdge;
    var f := SanitizeFilename(u, raw);
    SanitizeFilenameIsComponent(u, raw);
    SuffixedFilenameIsSafe(u, raw, hash);
    SuffixedNameIsEmptyExactlyWhen(u, f, hash);
    ByteLenBounds(f);
    HashPrefixFacts(hash);
    var long := WithSuffix(f, hash);
    if SplitExt(f).1 == "" && ByteLen(f) > 235 {
      TidyAsciiIsPrintable(f);
      assert Printable(long) by { assert Printable(COLLISION_SEP); }
      ByteLenBounds(long);
      AsciiTruncateBytes(u, long, MAX_FILENAME_BYTES);
      SanitizedIsSingleSpaced(u, raw);
      LongNamesHold(f);
      TruncatedToNothing(u, long);
      TrimsToNothing(long[..MAX_FILENAME_BYTES]);
      EdgesOfPrefix(f, long[..MAX_FILENAME_BYTES]);
    }
  }

  lemma EdgesOfPrefix(f: string, s: string)
    requires f <= s && !AllEdges(f)
    ensures !AllEdges(s)
  {
    hide IsEdge;
    var c :| c in f && !IsEdge(c);
    var i :| 0 <= i < |f| && f[i] == c;
    assert s[i] in s;
  }

  // ------------------------------------------------------------------ a segmentation, and names that fail

  const ACUTE := '\U{301}'
  const NUMBER_SIGN := '\U{600}'
  const POUND_MARK := '\U{8E2}'

  function MarkRun(s: string): (n: nat)
    ensures n <= |s|
  {
    if s != "" && s[0] == ACUTE then 1 + MarkRun(s[1..]) else 0
  }

  predicate Prepends(c: char) {
    c == NUMBER_SIGN || c == POUND_MARK
  }

  /** The first cluster: signs that prepend, a base, and the marks on it (UAX #29, rules GB9 and GB9b). */
  function FirstLength(s: string): (n: nat)
    requires s != ""
    ensures 1 <= n <= |s|
  {
    if |s| > 1 && Prepends(s[0]) then 1 + FirstLength(s[1..]) else 1 + MarkRun(s[1..])
  }

  function SegmentFirst(s: string, st: int): (nat, int) {
    (if s == "" then 0 else FirstLength(s), st)
  }

  /** A few rows of the real tables; all names below are in NFC as they stand. */
  function Excerpt(): (u: Unicode)
    ensures u.AsciiExact() && u.nfc == ((s: string) => s) && u.cluster == SegmentFirst
  {
    ExcerptIsExact();
    Tables((s: string) => s, SegmentFirst)
  }

  lemma ExcerptIsExact()
    ensures Tables((s: string) => s, SegmentFirst).AsciiExact()
    ensures Tables((s: string) => s, SegmentFirst).Valid()
  {
    forall s: string | s != "" && Printable(s)
      ensures FirstLength(s) == 1
    {
      assert s[0] in s && (|s| > 1 ==> s[1] in s);
      assert |s| > 1 ==> s[1..][0] == s[1];
    }
  }

  function Repeat(c: char, n: nat): (s: string)
    ensures |s| == n && forall x :: x in s ==> x == c
  {
    if n == 0 then "" else [c] + Repeat(c, n - 1)
  }

  lemma {:induction false} RepeatBytes(c: char, n: nat)
    ensures ByteLen(Repeat(c, n)) == Utf8Len(c) * n
  {
    if n > 0 {
      RepeatBytes(c, n - 1);
      assert Repeat(c, n)[1..] == Repeat(c, n - 1);
    } else {
      NoBytes();
    }
  }

  lemma {:induction false} AllMarks(n: nat)
    ensures MarkRun(Repeat(ACUTE, n)) == n
  {
    if n > 0 {
      AllMarks(n - 1);
      assert Repeat(ACUTE, n)[1..] == Repeat(ACUTE, n - 1);
    }
  }

  /** A name without white space, forbidden characters or edge dots goes through the character steps unchanged. */
  lemma TidyNameIsTrimmed(u: Unicode, raw: string)
    requires u.nfc(raw) == raw && Tidy(raw)
    ensures TrimmedFilename(u, raw) == raw
  {
    hide Tidy, TrimDotsAndSpaces, CollapseWhitespace, StripForbidden;
    assert LastPathSegment(raw) == raw by { NoSeparators(raw); }
    CharacterStepsTidy(raw);
  }

  lemma NoSeparators(raw: string)
    requires Tidy(raw)
    ensures LastIndexAny(raw, {'/', '\\'}) == -1
  {
    var i := LastIndexAny(raw, {'/', '\\'});
    if i >= 0 {
      assert raw[i] in raw && Stripped(raw[i]);
    }
  }

  // "a.q" with 122 acute accents on the q: 248 bytes, of which the extension has 246.
  function Accented(): string {
    "a" + ".q" + Repeat(ACUTE, 122)
  }

  /** An input for which the sanitised file name is a bare dot. */
  lemma BareDotExists()
    ensures SanitizeFilename(Excerpt(), Accented()) == "."
  {
    hide SanitizeFilename, TrimmedFilename, Repeat, Clusters, ByteLen;
    var u := Excerpt();
    AccentedIsTidy();
    TidyNameIsTrimmed(u, Accented());
    var ext := ".q" + Repeat(ACUTE, 122);
    assert SplitExt(Accented()) == ("a", ext) by { AccentedSplits(); }
    AccentedClusters(u);
    SanitizeFilenameIsComponent(u, Accented());
  }

  lemma AccentedIsTidy()
    ensures Tidy(Accented())
  {
    hide Repeat, Stripped, IsSpace, IsEdge;
    var s, marks := Accented(), Repeat(ACUTE, 122);
    LettersAndMarks();
    assert forall c :: c in s ==> c == 'a' || c == '.' || c == 'q' || c in marks;
    assert forall i :: 0 <= i < |s| ==> s[i] in s;
    assert s[|s| - 1] == marks[121] && marks[121] in marks;
  }

  lemma LettersAndMarks()
    ensures forall c :: c == 'a' || c == '.' || c == 'q' || c == ACUTE ==>
              !Stripped(c) && !IsSpace(c) && (IsEdge(c) ==> c == '.')
  {
  }

  lemma LastDotAt(s: string, k: int)
    requires -1 <= k < |s| && (k >= 0 ==> s[k] == '.') && forall i :: k < i < |s| ==> s[i] != '.'
    ensures LastIndexOf(s, '.') == k
  {
    hide LastIndexOf;
  }

  lemma AccentedSplits()
    ensures SplitExt(Accented()) == ("a", ".q" + Repeat(ACUTE, 122))
  {
    hide Repeat;
    var s, marks := Accented(), Repeat(ACUTE, 122);
    assert forall k :: 2 < k < |s| ==> s[k] == marks[k - 3] && marks[k - 3] in marks;
    LastDotAt(s, 1);
    assert s[1..] == ".q" + marks && s[..1] == "a";
  }

  lemma AccentedClusters(u: Unicode)
    requires u.cluster == SegmentFirst
    ensures LongDot(u, ".q" + Repeat(ACUTE, 122))
  {
    hide Repeat, ByteLen, Utf8Len;
    var marks := Repeat(ACUTE, 122);
    var q, ext := "q" + marks, ".q" + marks;
    AllMarks(122);
    assert ext[1..] == q && q[1..] == marks;
    assert FirstLength(ext) == 1 && FirstLength(q) == 123;
    assert |q| == 123 && ext[..1] == ".";
    WholeSlice(q);
    TwoClusters(u, ext, ".", q);
    AccentBytes();
    ByteLenDot();
    ByteLenAppend(".", q);
    assert "." + q == ext;
  }

  lemma WholeSlice(s: string)
    ensures s[..|s|] == s && s[|s|..] == ""
  {
  }

  lemma AccentBytes()
    ensures ByteLen("q" + Repeat(ACUTE, 122)) == 245
  {
    hide Repeat, ByteLen;
    RepeatBytes(ACUTE, 122);
    ByteLenAppend("q", Repeat(ACUTE, 122));
    ByteLenBounds("q");
  }

  lemma TwoClusters(u: Unicode, s: string, a: string, b: string)
    requires s != "" && a != "" && b != "" && s == a + b
    requires var (n, next) := u.cluster(s, -1); n == |a| && u.cluster(b, next).0 == |b|
    ensures Clusters(u, s, -1) == [a, b]
  {
    var (n, next) := u.cluster(s, -1);
    assert s[..n] == a && s[n..] == b;
    assert b[..|b|] == b && b[|b|..] == "";
    assert Clusters(u, b, next) == [b];
  }

  // 121 Arabic number signs and an Arabic pound mark: 245 bytes, every character joined to the next.
  function Signs(): string {
    Repeat(NUMBER_SIGN, 121) + [POUND_MARK]
  }

  /** An input that is sanitised to itself and whose suffixed name is empty, whatever the hash. */
  lemma EmptySuffixedNameExists(hash: string)
    requires ValidHash(hash)
    ensures SanitizeFilename(Excerpt(), Signs()) == Signs()
    ensures SuffixedFilename(Excerpt(), Signs(), hash) == ""
  {
    hide SanitizeFilename, SuffixedFilename, TrimmedFilename, Repeat, Clusters, ByteLen, ValidHash, OnlyEdgesFit,
      SplitExt;
    var u, f := Excerpt(), Signs();
    SignsAreClean();
    TidyNameIsTrimmed(u, f);
    SignsStay(u);
    HashPrefixFacts(hash);
    SuffixedNameIsEmptyExactlyWhen(u, f, hash);
    SignsJoin(u, WithSuffix(f, hash), "_" + hash[..COLLISION_HEX_LEN]);
  }

  lemma SignsAreClean()
    ensures var f := Signs();
            && Tidy(f) && ByteLen(f) == 245 && |f| == 122 && !IsEdge(f[0]) && SplitExt(f) == (f, "") && !Reserved(f)
  {
    hide ByteLen, Reserved, Repeat;
    var f := Signs();
    assert forall c :: c in f ==> c == NUMBER_SIGN || c == POUND_MARK;
    assert forall i :: 0 <= i < |f| ==> f[i] in f;
    RepeatBytes(NUMBER_SIGN, 121);
    ByteLenAppend(Repeat(NUMBER_SIGN, 121), [POUND_MARK]);
    PoundBytes();
    ReservedFacts(f);
  }

  lemma PoundBytes()
    ensures ByteLen([POUND_MARK]) == 3 && Utf8Len(NUMBER_SIGN) == 2
  {
    assert [POUND_MARK][1..] == "";
  }

  lemma SignsStay(u: Unicode)
    requires TrimmedFilename(u, Signs()) == Signs()
    ensures SanitizeFilename(u, Signs()) == Signs()
  {
    hide ByteLen, Repeat, Reserved, SplitExt, Tidy;
    SignsAreClean();
    NoBytes();
    assert Signs() + "" == Signs();
  }

  lemma {:induction false} JoinsOn(n: nat, rest: string)
    requires rest != "" && FirstLength([POUND_MARK] + rest) == 2
    ensures FirstLength(Repeat(NUMBER_SIGN, n) + ([POUND_MARK] + rest)) == n + 2
  {
    var s := Repeat(NUMBER_SIGN, n) + ([POUND_MARK] + rest);
    if n == 0 {
      assert s == [POUND_MARK] + rest;
    } else {
      assert s[1..] == Repeat(NUMBER_SIGN, n - 1) + ([POUND_MARK] + rest);
      JoinsOn(n - 1, rest);
    }
  }

  /** The signs take the first underscore of the suffix into their cluster, which is then one byte over the cap. */
  lemma SignsJoin(u: Unicode, long: string, tail: string)
    requires u.cluster == SegmentFirst && long == Signs() + ("_" + tail) && tail != "" && tail[0] == '_'
    ensures Clusters(u, long, -1) != [] && ByteLen(Clusters(u, long, -1)[0]) == 246
  {
    hide Repeat, ByteLen, Clusters;
    var rest := "_" + tail;
    assert ([POUND_MARK] + rest)[1..] == rest && rest[1..] == tail;
    assert FirstLength(rest) == 1;
    assert long == Repeat(NUMBER_SIGN, 121) + ([POUND_MARK] + rest);
    JoinsOn(121, rest);
    assert long[..123] == Signs() + "_";
    FirstClusterIs(u, long);
    SignsAreClean();
    ByteLenAppend(Signs(), "_");
    ByteLenBounds("_");
  }

  lemma FirstClusterIs(u: Unicode, s: string)
    requires s != ""
    ensures Clusters(u, s, -1) != [] && Clusters(u, s, -1)[0] == s[..u.cluster(s, -1).0]
  {
  }

  /** A name of 245 characters for which the suffix changes nothing, so that two hashes get one name. */
  lemma SharedSuffixedNameExists(u: Unicode)
    requires u.AsciiExact()
    ensures var f, g, h := Repeat('a', 245), Repeat('a', 64), Repeat('b', 64);
            && ValidHash(g) && ValidHash(h) && g[..COLLISION_HEX_LEN] != h[..COLLISION_HEX_LEN]
            && SuffixedFilename(u, f, g) == f && SuffixedFilename(u, f, h) == f
  {
    hide SuffixedFilename, SplitExt, Repeat;
    var f, g, h := Repeat('a', 245), Repeat('a', 64), Repeat('b', 64);
    assert g[0] in g && h[0] in h && g[..8][0] == g[0] && h[..8][0] == h[0];
    assert forall i :: 0 <= i < 64 ==> g[i] in g && h[i] in h;
    LettersSplit(f);
    SuffixDiffers(u, f, g);
    SuffixDiffers(u, f, h);
  }

  lemma LettersSplit(f: string)
    requires f != "" && forall c :: c in f ==> c == 'a'
    ensures SplitExt(f) == (f, "") && TidyEdges(f) && Printable(f)
  {
    assert f[0] in f && f[|f| - 1] in f;
    assert forall i :: 0 <= i < |f| ==> f[i] in f;
    LastDotAt(f, -1);
  }
}
