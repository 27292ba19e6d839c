/** What the name pipelines guarantee, and exactly where they stop guaranteeing it. */
module SanitizeLaws {
  import opened Text
  import opened Sanitize

  // ------------------------------------------------------------------ vocabulary

  /** No stripped character, and no white space but the ASCII space. */
  predicate Plain(s: string) {
    forall c :: c in s ==> !Stripped(c) && (IsSpace(c) ==> c == ' ')
  }

  predicate SingleSpaced(s: string) {
    forall i :: 0 <= i < |s| - 1 ==> s[i] != ' ' || s[i + 1] != ' '
  }

  predicate TidyEdges(s: string) {
    s != "" ==> !IsEdge(s[0]) && !IsEdge(s[|s| - 1])
  }

  predicate Tidy(s: string) {
    Plain(s) && SingleSpaced(s) && TidyEdges(s)
  }

  /** A name that denotes one entry of the directory it stands in. */
  predicate Component(s: string) {
    s != "" && '/' !in s && s != "." && s != ".."
  }

  // ------------------------------------------------------------------ each step

  lemma {:induction false} StripFacts(s: string)
    ensures forall c :: c in StripForbidden(s) ==> c in s && !Stripped(c)
    ensures (forall c :: c in s ==> !Stripped(c)) ==> StripForbidden(s) == s
  {
    hide Stripped;
    if s != "" {
      StripFacts(s[1..]);
      assert s == [s[0]] + s[1..];
    }
  }

  /** Collapsing leaves single inner spaces only. */
  lemma {:induction false} CollapseFacts(s: string)
    ensures var r := CollapseWhitespace(s);
            && (forall c :: c in r ==> c == ' ' || (c in s && !IsSpace(c)))
            && SingleSpaced(r)
            && (r != "" ==> r[0] != ' ' && r[|r| - 1] != ' ')
  {
    hide IsSpace, CollapseWhitespace;
    if s == "" {
      CollapseNothing();
    } else {
      var before, c := s[..|s| - 1], s[|s| - 1];
      CollapseFacts(before);
      CollapseSnoc(before, c);
      assert s == before + [c];
      SpaceIsSpace();
    }
  }

  lemma CollapseNothing()
    ensures CollapseWhitespace("") == ""
  {
  }

  lemma SpaceIsSpace()
    ensures IsSpace(' ')
  {
  }

  /** Collapsing changes nothing that has single inner spaces only, but for one space at the end. */
  lemma {:induction false} CollapseKeeps(s: string)
    requires SingleSpaced(s) && (s != "" ==> s[0] != ' ') && forall c :: c in s ==> IsSpace(c) ==> c == ' '
    ensures CollapseWhitespace(s) == if s != "" && s[|s| - 1] == ' ' then s[..|s| - 1] else s
  {
    hide IsSpace, CollapseWhitespace;
    if s == "" {
      CollapseNothing();
    } else {
      var before, c := s[..|s| - 1], s[|s| - 1];
      CollapseKeeps(before);
      CollapseSnoc(before, c);
      assert s == before + [c];
      SpaceIsSpace();
    }
  }

  /** Trimming cuts a slice out of the middle and leaves tidy edges. */
  lemma TrimFacts(s: string) returns (i: nat, j: nat)
    ensures i <= j <= |s| && TrimDotsAndSpaces(s) == s[i..j]
    ensures TidyEdges(TrimDotsAndSpaces(s))
    ensures TidyEdges(s) ==> TrimDotsAndSpaces(s) == s
    ensures s != "" && !IsEdge(s[0]) ==> TrimDotsAndSpaces(s) != ""
  {
    hide IsEdge;
    i := TrimLeftFacts(s);
    j := TrimRightFacts(s[i..]);
    j := i + j;
    assert s[i..j] == s[i..][..j - i];
  }

  lemma {:induction false} TrimLeftFacts(s: string) returns (i: nat)
    ensures i <= |s| && TrimLeft(s) == s[i..]
    ensures i < |s| ==> !IsEdge(s[i])
  {
    hide IsEdge;
    if s != "" && IsEdge(s[0]) {
      i := TrimLeftFacts(s[1..]);
      i := i + 1;
    } else {
      i := 0;
    }
  }

  lemma {:induction false} TrimRightFacts(s: string) returns (j: nat)
    ensures j <= |s| && TrimRight(s) == s[..j]
    ensures j > 0 ==> !IsEdge(s[j - 1])
    ensures s != "" && !IsEdge(s[0]) ==> j > 0
  {
    hide IsEdge;
    if s != "" && IsEdge(s[|s| - 1]) {
      j := TrimRightFacts(s[..|s| - 1]);
    } else {
      j := |s|;
    }
  }

  lemma TrimChars(s: string)
    ensures forall c :: c in TrimDotsAndSpaces(s) ==> c in s
  {
    hide TrimDotsAndSpaces, IsEdge;
    var _, _ := TrimFacts(s);
  }

  lemma {:induction false} LowerFacts(s: string)
    ensures |Lower(s)| == |s|
    ensures forall i :: 0 <= i < |s| && !('A' <= s[i] <= 'Z') ==> Lower(s)[i] == s[i]
  {
    if s != "" {
      LowerFacts(s[1..]);
    }
  }

  /** A reserved name is short, has no dot or space, and gets a suffix that is not reserved again. */
  lemma ReservedFacts(s: string)
    ensures Reserved(s) ==> 3 <= |s| <= 4 && !Reserved(s + "_")
  {
    LowerFacts(s);
    LowerFacts(s + "_");
    assert |s| > 0 ==> Lower(s + "_")[|s|] == '_';
  }

  lemma FallbackIsNotReserved()
    ensures !Reserved(ALBUM_FALLBACK) && !Reserved("")
  {
    LowerFacts(ALBUM_FALLBACK);
    LowerFacts("");
  }

  lemma SliceIsSingleSpaced(s: string, i: nat, j: nat)
    requires i <= j <= |s| && SingleSpaced(s)
    ensures SingleSpaced(s[i..j])
  {
  }

  lemma TrimIsTidy(s: string)
    requires Plain(s) && SingleSpaced(s)
    ensures Tidy(TrimDotsAndSpaces(s)) && |TrimDotsAndSpaces(s)| <= |s|
  {
    hide Stripped, IsSpace, IsEdge, TrimDotsAndSpaces, SingleSpaced;
    var i, j := TrimFacts(s);
    TrimChars(s);
    SliceIsSingleSpaced(s, i, j);
  }

  lemma UnderscoreIsPlain()
    ensures !Stripped('_') && !IsSpace('_')
  {
  }

  lemma SuffixIsTidy(s: string)
    requires Tidy(s)
    ensures Tidy(SuffixReserved(s)) && !Reserved(SuffixReserved(s))
    ensures Ascii(s) ==> Ascii(SuffixReserved(s))
  {
    hide Reserved, Stripped, IsSpace;
    ReservedFacts(s);
    UnderscoreIsPlain();
  }

  function CharacterSteps(s: string): string {
    TrimDotsAndSpaces(CollapseWhitespace(StripForbidden(s)))
  }

  /** The character steps turn anything into a tidy name, and leave a tidy one alone. */
  lemma CharacterStepsTidy(s: string)
    ensures Tidy(CharacterSteps(s))
    ensures Ascii(s) ==> Ascii(CharacterSteps(s))
    ensures Tidy(s) ==> CharacterSteps(s) == s
  {
    hide IsSpace, SingleSpaced, TrimDotsAndSpaces, CollapseWhitespace, StripForbidden, Stripped, IsEdge;
    var a := StripForbidden(s);
    var b := CollapseWhitespace(a);
    StripFacts(s);
    CollapseFacts(a);
    SpaceIsKept();
    assert Plain(b);
    TrimIsTidy(b);
    TrimChars(b);
    if Tidy(s) {
      assert a == s;
      CollapseKeeps(s);
      var _, _ := TrimFacts(s);
    }
  }

  lemma SpaceIsKept()
    ensures !Stripped(' ') && IsEdge(' ')
  {
  }

  // ------------------------------------------------------------------ truncation, in its own terms

  lemma {:induction false} ClustersNonEmpty(u: Unicode, s: string, st: int)
    ensures forall c :: c in Clusters(u, s, st) ==> c != ""
    decreases |s|
  {
    if s != "" {
      var (n, next) := u.cluster(s, st);
      ClustersNonEmpty(u, s[n..], next);
    }
  }

  /** A run of leading clusters is a prefix of the string. */
  lemma ClusterPrefix(u: Unicode, s: string, k: nat)
    requires k <= |Clusters(u, s, -1)|
    ensures Concat(Clusters(u, s, -1)[..k]) <= s
    ensures k > 0 ==> Concat(Clusters(u, s, -1)[..k]) != ""
    ensures k < |Clusters(u, s, -1)| ==> Concat(Clusters(u, s, -1)[..k]) != s
    ensures k == |Clusters(u, s, -1)| ==> Concat(Clusters(u, s, -1)[..k]) == s
  {
    hide Clusters;
    var cs := Clusters(u, s, -1);
    ConcatClusters(u, s, -1);
    ClustersNonEmpty(u, s, -1);
    var a, b := cs[..k], cs[k..];
    assert cs == a + b;
    ConcatAppend(a, b);
    assert a != [] ==> a[0] in cs;
    assert b != [] ==> b[0] in cs;
    assert k == |cs| ==> b == [] && Concat(a) + "" == Concat(a);
  }

  /** truncateGraphemes keeps a prefix of whole clusters: all of them, or exactly max. */
  lemma TruncateGraphemesKeepsClusters(u: Unicode, s: string, max: int)
    ensures var n := |Clusters(u, s, -1)|;
            var k := if max <= 0 then 0 else Min(n, max);
            && 0 <= k <= n
            && TruncateGraphemes(u, s, max) == Concat(Clusters(u, s, -1)[..k])
            && TruncateGraphemes(u, s, max) <= s
            && (TruncateGraphemes(u, s, max) == s <==> k == n)
            && (k > 0 ==> TruncateGraphemes(u, s, max) != "")
  {
    hide Clusters;
    var n := |Clusters(u, s, -1)|;
    ClusterPrefix(u, s, if max <= 0 then 0 else Min(n, max));
  }

  /** The clusters that fit are as many as can be: every longer run of clusters is over the budget. */
  lemma {:induction false} FitIsLongest(cs: seq<string>, budget: int)
    ensures budget >= 0 ==> ByteLen(Concat(cs[..Fit(cs, budget)])) <= budget
    ensures forall k :: Fit(cs, budget) < k <= |cs| ==> ByteLen(Concat(cs[..k])) > budget
  {
    hide ByteLen;
    if cs == [] {
      NoBytes();
    } else {
      var rest := budget - ByteLen(cs[0]);
      FitIsLongest(cs[1..], rest);
      NoBytes();
      forall k | 0 < k <= |cs|
        ensures ByteLen(Concat(cs[..k])) == ByteLen(cs[0]) + ByteLen(Concat(cs[1..][..k - 1]))
      {
        assert cs[..k][1..] == cs[1..][..k - 1];
        ByteLenAppend(cs[0], Concat(cs[1..][..k - 1]));
      }
      if ByteLen(cs[0]) <= budget {
        forall k | Fit(cs, budget) < k <= |cs|
          ensures ByteLen(Concat(cs[..k])) > budget
        {
          assert ByteLen(Concat(cs[1..][..k - 1])) > rest;
        }
      }
    }
  }

  /** One cluster at a time: what the first cluster leaves of the budget goes to the others. */
  lemma FitUnfolds(cs: seq<string>, budget: int)
    requires cs != []
    ensures Concat(cs[..Fit(cs, budget)]) ==
            if ByteLen(cs[0]) > budget then ""
            else cs[0] + Concat(cs[1..][..Fit(cs[1..], budget - ByteLen(cs[0]))])
  {
    hide ByteLen;
    var f := Fit(cs, budget);
    if f > 0 {
      assert cs[..f][1..] == cs[1..][..f - 1];
    }
  }

  /** truncateGraphemeBytes keeps the longest run of whole clusters within the cap, and all of s when it fits. */
  lemma TruncateGraphemeBytesIsLongest(u: Unicode, s: string, maxBytes: int)
    ensures TruncateGraphemeBytes(u, s, maxBytes) <= s
    ensures maxBytes >= 0 ==> ByteLen(TruncateGraphemeBytes(u, s, maxBytes)) <= maxBytes
    ensures exists k :: 0 <= k <= |Clusters(u, s, -1)| && LongestRun(Clusters(u, s, -1), k, maxBytes)
                        && TruncateGraphemeBytes(u, s, maxBytes) == Concat(Clusters(u, s, -1)[..k])
    ensures 0 <= ByteLen(s) <= maxBytes ==> TruncateGraphemeBytes(u, s, maxBytes) == s
  {
    hide ByteLen, Clusters, Concat;
    var cs := Clusters(u, s, -1);
    ConcatClusters(u, s, -1);
    NoBytes();
    ConcatNothing();
    if maxBytes <= 0 {
      FewBytes(cs);
      assert cs[..0] == [];
      assert LongestRun(cs, 0, maxBytes);
      ByteLenBounds(s);
    } else {
      FitIsLongest(cs, maxBytes);
      ClusterPrefix(u, s, Fit(cs, maxBytes));
      assert LongestRun(cs, Fit(cs, maxBytes), maxBytes);
      if ByteLen(s) <= maxBytes {
        FitAll(cs, maxBytes);
      }
    }
  }

  /** The first k pieces are all that a budget allows. */
  predicate LongestRun(cs: seq<string>, k: nat, budget: int) {
    forall m :: k < m <= |cs| ==> cs[..m] != [] && (ByteLen(Concat(cs[..m])) > budget || Concat(cs[..m]) == "")
  }

  lemma ConcatNothing()
    ensures Concat([]) == ""
  {
  }

  lemma FewBytes(cs: seq<string>)
    ensures forall m :: 0 <= m <= |cs| ==> ByteLen(Concat(cs[..m])) > 0 || Concat(cs[..m]) == ""
  {
    hide ByteLen, Concat;
    forall m | 0 <= m <= |cs|
      ensures ByteLen(Concat(cs[..m])) > 0 || Concat(cs[..m]) == ""
    {
      ByteLenBounds(Concat(cs[..m]));
    }
  }

  /** fitFilename never passes the cap, whatever stem and extension it is given. */
  lemma FitFilenameWithinCap(u: Unicode, stem: string, ext: string)
    ensures ByteLen(FitFilename(u, stem, ext)) <= 245
  {
    hide ByteLen, TruncateGraphemeBytes, TrimDotsAndSpaces;
    var budget := MAX_FILENAME_BYTES - ByteLen(ext);
    TruncateGraphemeBytesIsLongest(u, ext, MAX_FILENAME_BYTES);
    TruncateGraphemeBytesIsLongest(u, stem, budget);
    ByteLenAppend(stem, ext);
    var cut := TruncateGraphemeBytes(u, stem, budget);
    var i, j := TrimFacts(cut);
    ByteLenSlice(cut, i, j);
    ByteLenAppend(TrimDotsAndSpaces(cut), ext);
  }

  /** fitFilename makes up no character. */
  lemma FitChars(u: Unicode, stem: string, ext: string)
    ensures forall c :: c in FitFilename(u, stem, ext) ==> c in stem || c in ext
  {
    hide ByteLen, TruncateGraphemeBytes, TrimDotsAndSpaces;
    var budget := MAX_FILENAME_BYTES - ByteLen(ext);
    TruncateGraphemeBytesIsLongest(u, ext, MAX_FILENAME_BYTES);
    TruncateGraphemeBytesIsLongest(u, stem, budget);
    PrefixChars(TruncateGraphemeBytes(u, ext, MAX_FILENAME_BYTES), ext);
    PrefixChars(TruncateGraphemeBytes(u, stem, budget), stem);
    TrimChars(TruncateGraphemeBytes(u, stem, budget));
  }

  lemma PrefixChars(p: string, s: string)
    requires p <= s
    ensures forall c :: c in p ==> c in s
  {
    assert s == p + s[|p|..];
  }

  // ------------------------------------------------------------------ albums

  lemma TrimmedAlbumFacts(u: Unicode, raw: string)
    ensures Tidy(TrimmedAlbum(u, raw)) && !Reserved(TrimmedAlbum(u, raw))
    ensures u.AsciiExact() && Ascii(raw) ==> Ascii(TrimmedAlbum(u, raw))
  {
    hide Tidy, Reserved, SuffixReserved, TrimDotsAndSpaces, CollapseWhitespace, StripForbidden;
    CharacterStepsTidy(u.nfc(raw));
    SuffixIsTidy(CharacterSteps(u.nfc(raw)));
  }

  /**
   * Every album name, from any input: not empty, no forbidden character, no C0 control, no white space but
   * single inner spaces, no dot or space at either end. On ASCII it has at most 64 characters.
   */
  lemma SanitizeAlbumIsClean(u: Unicode, raw: string)
    ensures var r := SanitizeAlbum(u, raw);
            && r != "" && Tidy(r)
            && (u.AsciiExact() && Ascii(raw) ==> Ascii(r) && |r| <= 64)
  {
    hide SingleSpaced, Reserved, TrimmedAlbum, TruncateGraphemes, TrimDotsAndSpaces, Stripped, IsSpace, IsEdge;
    var t := TrimmedAlbum(u, raw);
    var cut := TruncateGraphemes(u, t, MAX_ALBUM_GRAPHEMES);
    TrimmedAlbumFacts(u, raw);
    TruncateGraphemesKeepsClusters(u, t, MAX_ALBUM_GRAPHEMES);
    PrefixChars(cut, t);
    SliceIsSingleSpaced(t, 0, |cut|);
    assert t[0..|cut|] == cut;
    TrimIsTidy(cut);
    TrimChars(cut);
    FallbackIsTidy();
    if u.AsciiExact() && Ascii(raw) {
      TidyAsciiIsPrintable(t);
      AsciiTruncate(u, t, MAX_ALBUM_GRAPHEMES);
    }
  }

  lemma LettersAreTidy(s: string)
    requires forall c :: c in s ==> 'a' <= c <= 'z' || 'A' <= c <= 'Z'
    ensures Tidy(s) && Ascii(s)
  {
    assert forall i :: 0 <= i < |s| ==> s[i] in s;
  }

  lemma FallbackIsTidy()
    ensures Tidy(ALBUM_FALLBACK) && Ascii(ALBUM_FALLBACK)
  {
    hide Tidy;
    LettersAreTidy(ALBUM_FALLBACK);
  }

  /** Applied to a tidy name that NFC leaves alone and that needs no truncation, the pipeline is one step. */
  lemma SanitizeTidyAlbum(u: Unicode, s: string)
    requires s != "" && Tidy(s) && u.nfc(s) == s
    requires |Clusters(u, SuffixReserved(s), -1)| <= MAX_ALBUM_GRAPHEMES
    ensures SanitizeAlbum(u, s) == SuffixReserved(s)
  {
    hide Plain, SingleSpaced, Reserved, TruncateGraphemes, TrimDotsAndSpaces, CollapseWhitespace, StripForbidden,
      IsEdge, Clusters;
    CharacterStepsTidy(s);
    SuffixIsTidy(s);
    var t := SuffixReserved(s);
    assert TrimmedAlbum(u, s) == t;
    TruncateGraphemesKeepsClusters(u, t, MAX_ALBUM_GRAPHEMES);
    var _, _ := TrimFacts(t);
  }

  lemma {:induction false} FewClusters(u: Unicode, s: string, st: int)
    ensures |Clusters(u, s, st)| <= |s|
    decreases |s|
  {
    if s != "" {
      var (n, next) := u.cluster(s, st);
      FewClusters(u, s[n..], next);
    }
  }

  /**
   * For any script: if NFC leaves the first result alone, a second application changes nothing if and only if that
   * result is no reserved name and has no more clusters than an album name may have.
   */
  lemma SanitizeAlbumSettlesExactly(u: Unicode, raw: string)
    requires u.nfc(SanitizeAlbum(u, raw)) == SanitizeAlbum(u, raw)
    ensures var once := SanitizeAlbum(u, raw);
            SanitizeAlbum(u, once) == once <==> !Reserved(once) && |Clusters(u, once, -1)| <= MAX_ALBUM_GRAPHEMES
  {
    var once := SanitizeAlbum(u, raw);
    SanitizeAlbumIsClean(u, raw);
    ReservedFacts(once);
    FewClusters(u, SuffixReserved(once), -1);
    FewClusters(u, ALBUM_FALLBACK, -1);
    hide Tidy, Reserved, SanitizeAlbum, Clusters;
    if Reserved(once) || |Clusters(u, once, -1)| <= MAX_ALBUM_GRAPHEMES {
      SanitizeTidyAlbum(u, once);
    } else {
      LongAlbumIsCut(u, once);
    }
  }

  lemma LongAlbumIsCut(u: Unicode, s: string)
    requires Tidy(s) && u.nfc(s) == s && !Reserved(s) && |Clusters(u, s, -1)| > MAX_ALBUM_GRAPHEMES
    ensures SanitizeAlbum(u, s) != s
  {
    hide Plain, SingleSpaced, Reserved, TruncateGraphemes, TrimDotsAndSpaces, CollapseWhitespace, StripForbidden,
      IsEdge, Clusters;
    CharacterStepsTidy(s);
    FewClusters(u, ALBUM_FALLBACK, -1);
    assert TrimmedAlbum(u, s) == s;
    TruncateGraphemesKeepsClusters(u, s, MAX_ALBUM_GRAPHEMES);
    var _, _ := TrimFacts(TruncateGraphemes(u, s, MAX_ALBUM_GRAPHEMES));
  }

  lemma {:induction false} AsciiClusters(u: Unicode, s: string, st: int)
    requires u.AsciiExact() && Printable(s)
    ensures |Clusters(u, s, st)| == |s|
    ensures forall i :: 0 <= i < |s| ==> Clusters(u, s, st)[i] == [s[i]]
    decreases |s|
  {
    if s != "" {
      var (n, next) := u.cluster(s, st);
      assert n == 1;
      assert forall c :: c in s[1..] ==> c in s;
      AsciiClusters(u, s[1..], next);
      assert s[..1] == [s[0]];
    }
  }

  lemma {:induction false} ConcatSingles(cs: seq<string>, s: string)
    requires |cs| == |s| && forall i :: 0 <= i < |s| ==> cs[i] == [s[i]]
    ensures Concat(cs) == s
  {
    if s != "" {
      ConcatSingles(cs[1..], s[1..]);
    }
  }

  lemma AsciiTruncate(u: Unicode, s: string, max: nat)
    requires u.AsciiExact() && Printable(s)
    ensures TruncateGraphemes(u, s, max) == s[..Min(|s|, max)]
  {
    hide Clusters, Concat;
    var cs := Clusters(u, s, -1);
    AsciiClusters(u, s, -1);
    ConcatSingles(cs[..Min(|s|, max)], s[..Min(|s|, max)]);
  }

  lemma AsciiTruncateBytes(u: Unicode, s: string, maxBytes: nat)
    requires u.AsciiExact() && Printable(s)
    ensures TruncateGraphemeBytes(u, s, maxBytes) == s[..Min(|s|, maxBytes)]
  {
    hide Clusters, Concat, Fit;
    var cs := Clusters(u, s, -1);
    AsciiClusters(u, s, -1);
    forall i | 0 <= i < |cs|
      ensures ByteLen(cs[i]) == 1
    {
      assert s[i] in s;
      ByteLenBounds(cs[i]);
    }
    FitSingles(cs, maxBytes);
    ConcatSingles(cs[..Min(|s|, maxBytes)], s[..Min(|s|, maxBytes)]);
  }

  lemma {:induction false} FitSingles(cs: seq<string>, budget: nat)
    requires forall i :: 0 <= i < |cs| ==> ByteLen(cs[i]) == 1
    ensures Fit(cs, budget) == Min(|cs|, budget)
  {
    if cs != [] && budget > 0 {
      FitSingles(cs[1..], budget - 1);
    }
  }

  lemma TidyAsciiIsPrintable(s: string)
    requires Plain(s) && Ascii(s)
    ensures Printable(s)
  {
    hide IsSpace;
  }

  /** The first max characters are a reserved name followed by dots and spaces only. */
  predicate StartsReserved(t: string, max: nat)
    requires max <= |t|
  {
    exists k :: 3 <= k <= 4 && k <= max && Reserved(t[..k]) && forall i :: k <= i < max ==> IsEdge(t[i])
  }

  /** The trimmed name is too long, and the cut leaves it starting with a reserved name and nothing else. */
  predicate CutsToReserved(u: Unicode, raw: string) {
    var t := TrimmedAlbum(u, raw);
    |t| > MAX_ALBUM_GRAPHEMES && StartsReserved(t, MAX_ALBUM_GRAPHEMES)
  }

  lemma {:induction false} TrimRightLeaves(s: string, k: nat)
    requires k <= |s|
    ensures TrimRight(s) == s[..k] <==> (forall i :: k <= i < |s| ==> IsEdge(s[i])) && (k > 0 ==> !IsEdge(s[k - 1]))
  {
    hide IsEdge;
    if s != "" && IsEdge(s[|s| - 1]) {
      var rest := s[..|s| - 1];
      if k < |s| {
        TrimRightLeaves(rest, k);
        assert rest[..k] == s[..k];
      } else {
        var j := TrimRightFacts(rest);
      }
    } else if k < |s| {
      assert |s[..k]| < |s|;
    }
  }

  lemma ReservedHasNoEdge(s: string)
    ensures Reserved(s) ==> 3 <= |s| <= 4 && !IsEdge(s[0]) && !IsEdge(s[|s| - 1])
  {
    LowerFacts(s);
    ReservedFacts(s);
  }

  /** What trimming leaves of a cut name is reserved exactly when the name starts so. */
  lemma CutIsReserved(t: string, max: nat)
    requires TidyEdges(t) && 4 <= max < |t|
    ensures Reserved(TrimDotsAndSpaces(t[..max])) <==> StartsReserved(t, max)
  {
    hide Reserved, IsEdge, TrimRight;
    var s := t[..max];
    var j := TrimRightFacts(s);
    assert TrimLeft(s) == s;
    TrimRightLeaves(s, j);
    ReservedHasNoEdge(s[..j]);
    assert s[..j] == t[..j];
    forall k | 3 <= k <= 4 && Reserved(t[..k]) && forall i :: k <= i < max ==> IsEdge(t[i])
      ensures TrimDotsAndSpaces(s) == t[..k]
    {
      ReservedHasNoEdge(t[..k]);
      assert s[..k] == t[..k];
      TrimRightLeaves(s, k);
    }
  }

  /**
   * SanitizeAlbum is documented as idempotent. On ASCII it is exactly when the length cut does not leave a
   * reserved name, which needs a trimmed name of more than 64 characters. Applied twice it always settles.
   */
  lemma SanitizeAlbumIdempotence(u: Unicode, raw: string)
    requires u.AsciiExact() && Ascii(raw)
    ensures var once := SanitizeAlbum(u, raw);
            var twice := SanitizeAlbum(u, once);
            && (twice == once <==> !CutsToReserved(u, raw))
            && SanitizeAlbum(u, twice) == twice
  {
    hide Tidy, Reserved, TrimDotsAndSpaces, SanitizeAlbum, TrimmedAlbum, StartsReserved;
    var once := SanitizeAlbum(u, raw);
    TrimmedAlbumFacts(u, raw);
    CutAlbum(TrimmedAlbum(u, raw));
    SanitizeAlbumIsClean(u, raw);
    AsciiAlbum(u, raw);
    ReservedFacts(once);
    SuffixIsTidy(once);
    FallbackIsNotReserved();
    SettlesOnAscii(u, once);
    SettlesOnAscii(u, SuffixReserved(once));
  }

  lemma CutAlbum(t: string)
    requires Tidy(t)
    ensures |t| > MAX_ALBUM_GRAPHEMES ==>
              (Reserved(TrimDotsAndSpaces(t[..MAX_ALBUM_GRAPHEMES])) <==> StartsReserved(t, MAX_ALBUM_GRAPHEMES))
  {
    hide Reserved, StartsReserved, TrimDotsAndSpaces;
    if |t| > MAX_ALBUM_GRAPHEMES {
      CutIsReserved(t, MAX_ALBUM_GRAPHEMES);
    }
  }

  /** On ASCII the album is the trimmed name, or what its first 64 characters leave. */
  lemma AsciiAlbum(u: Unicode, raw: string)
    requires u.AsciiExact() && Ascii(raw)
    ensures var t := TrimmedAlbum(u, raw);
            SanitizeAlbum(u, raw) ==
            if t == "" then ALBUM_FALLBACK
            else if |t| <= MAX_ALBUM_GRAPHEMES then t
            else TrimDotsAndSpaces(t[..MAX_ALBUM_GRAPHEMES])
  {
    hide Plain, SingleSpaced, Reserved, IsEdge, TrimDotsAndSpaces, TruncateGraphemes, TrimmedAlbum;
    var t := TrimmedAlbum(u, raw);
    TrimmedAlbumFacts(u, raw);
    TidyAsciiIsPrintable(t);
    AsciiTruncate(u, t, MAX_ALBUM_GRAPHEMES);
    assert t[..|t|] == t;
    var _, _ := TrimFacts(t[..Min(|t|, MAX_ALBUM_GRAPHEMES)]);
    var _, _ := TrimFacts(t);
  }

  lemma SettlesOnAscii(u: Unicode, s: string)
    requires u.AsciiExact() && Ascii(s) && s != "" && Tidy(s) && |s| <= MAX_ALBUM_GRAPHEMES
    ensures SanitizeAlbum(u, s) == SuffixReserved(s)
  {
    hide SingleSpaced, Reserved, SanitizeAlbum, Stripped, IsSpace, IsEdge;
    var t := SuffixReserved(s);
    ReservedFacts(s);
    SuffixIsTidy(s);
    TidyAsciiIsPrintable(t);
    AsciiClusters(u, t, -1);
    SanitizeTidyAlbum(u, s);
  }

  function Dots(n: nat): (d: string)
    ensures |d| == n && forall c :: c in d ==> c == '.'
  {
    if n == 0 then "" else Dots(n - 1) + "."
  }

  /** A concrete name that is not left alone the second time: "CON", 61 dots and an "x". */
  lemma SanitizeAlbumIsNotIdempotent(u: Unicode)
    requires u.AsciiExact()
    ensures SanitizeAlbum(u, "CON" + Dots(61) + "x") == "CON" && SanitizeAlbum(u, "CON") == "CON_"
  {
    hide Plain, SingleSpaced, Reserved, Tidy, SanitizeAlbum, TrimmedAlbum, Dots;
    var d := Dots(61);
    var raw := "CON" + d + "x";
    ConIsTidy(d);
    TidyAlbumIsTrimmed(u, raw);
    assert raw[..64] == "CON" + d;
    AsciiAlbum(u, raw);
    TrimDots(61);
    SettlesOnAscii(u, "CON");
  }

  lemma TidyAlbumIsTrimmed(u: Unicode, s: string)
    requires u.AsciiExact() && Ascii(s) && Tidy(s) && |s| > 4
    ensures TrimmedAlbum(u, s) == s
  {
    hide Tidy, Reserved, TrimDotsAndSpaces, CollapseWhitespace, StripForbidden;
    CharacterStepsTidy(s);
    ReservedFacts(s);
  }

  lemma {:induction false} TrimDots(n: nat)
    ensures TrimDotsAndSpaces("CON" + Dots(n)) == "CON"
  {
    TrimDotsRight(n);
    assert ("CON" + Dots(n))[0] == 'C';
  }

  lemma {:induction false} TrimDotsRight(n: nat)
    ensures TrimRight("CON" + Dots(n)) == "CON"
  {
    if n == 0 {
      assert "CON" + Dots(0) == "CON";
    } else {
      TrimDotsRight(n - 1);
      assert ("CON" + Dots(n))[..n + 2] == "CON" + Dots(n - 1);
    }
  }

  lemma ConIsTidy(d: string)
    requires forall c :: c in d ==> c == '.'
    ensures Tidy("CON" + d + "x") && Ascii("CON" + d + "x") && Tidy("CON") && Ascii("CON") && Reserved("CON")
  {
    hide Plain, Reserved, Ascii;
    LettersAreTidy("CON");
    DotsArePlain(d);
    LowerCon();
  }

  lemma DotsArePlain(d: string)
    requires forall c :: c in d ==> c == '.'
    ensures Plain("CON" + d + "x") && SingleSpaced("CON" + d + "x") && Ascii("CON" + d + "x")
  {
    var s := "CON" + d + "x";
    assert forall c :: c in s ==> c == 'C' || c == 'O' || c == 'N' || c == '.' || c == 'x';
    assert forall i :: 0 <= i < |s| ==> s[i] in s;
  }

  lemma LowerCon()
    ensures Lower("CON") == "con" && Reserved("CON")
  {
    assert Lower("N") == "n";
    assert Lower("ON") == "on";
  }

  // ------------------------------------------------------------------ file names

  /**
   * The one way a sanitised file name can be a bare dot: an extension too long to keep whose name is one huge
   * cluster.
   */
  predicate DotOnly(u: Unicode, raw: string) {
    LongDot(u, SplitExt(TrimmedFilename(u, raw)).1)
  }

  predicate LongDot(u: Unicode, ext: string) {
    var cs := Clusters(u, ext, -1);
    ByteLen(ext) >= MAX_FILENAME_BYTES && |cs| >= 2 && cs[0] == "." && ByteLen(cs[1]) >= MAX_FILENAME_BYTES
  }

  /** An extension: empty, or a dot followed by at least one character, none of them a dot. */
  predicate Extension(ext: string) {
    ext != "" ==> |ext| >= 2 && ext[0] == '.' && forall k :: 1 <= k < |ext| ==> ext[k] != '.'
  }

  /** Splitting a name that does not end in a dot. */
  lemma SplitExtFacts(s: string)
    requires s != "" ==> s[|s| - 1] != '.'
    ensures var (stem, ext) := SplitExt(s);
            && Extension(ext) && (s != "" ==> stem != "")
            && (ext == "" ==> stem == s)
            && (forall c :: c in stem || c in ext ==> c in s)
  {
    var (stem, ext) := SplitExt(s);
    assert s == stem + ext;
  }

  /**
   * Truncating an extension of at least 245 bytes leaves just its dot exactly when the next cluster alone is
   * too long.
   */
  lemma LongExtension(u: Unicode, ext: string)
    requires ByteLen(ext) >= MAX_FILENAME_BYTES
    ensures TruncateGraphemeBytes(u, ext, MAX_FILENAME_BYTES) == "." <==> LongDot(u, ext)
  {
    hide ByteLen, Clusters, Concat, Fit;
    var cs := Clusters(u, ext, -1);
    ConcatClusters(u, ext, -1);
    ClustersNonEmpty(u, ext, -1);
    ByteLenDot();
    NoBytes();
    ConcatNothing();
    FitUnfolds(cs, MAX_FILENAME_BYTES);
    var rest := cs[1..];
    ConcatFirst(cs);
    if cs[0] == "." {
      assert "." + "" == ".";
      assert rest != [];
      assert rest[0] == cs[1] && cs[1] in cs;
      FitUnfolds(rest, MAX_FILENAME_BYTES - 1);
    } else {
      assert cs[0] in cs;
      assert forall t: string :: cs[0] + t == "." ==> (cs[0] + t)[..|cs[0]|] == cs[0];
    }
  }

  lemma ByteLenDot()
    ensures ByteLen(".") == 1
  {
    ByteLenBounds(".");
  }

  lemma ConcatFirst(cs: seq<string>)
    ensures cs != [] ==> Concat(cs) == cs[0] + Concat(cs[1..])
    ensures cs == [] ==> Concat(cs) == ""
  {
  }

  /** How a fitted name ends: not in a dot, unless it is the bare dot. */
  lemma FitEnds(u: Unicode, stem: string, ext: string)
    requires Extension(ext) && (ext == "" && stem != "" ==> stem[|stem| - 1] != '.')
    ensures var r := FitFilename(u, stem, ext);
            (r != "" && r[|r| - 1] == '.' ==> r == ".") && (r == "." <==> LongDot(u, ext))
  {
    hide ByteLen, TruncateGraphemeBytes, TrimDotsAndSpaces, LongDot;
    var budget := MAX_FILENAME_BYTES - ByteLen(ext);
    if ByteLen(ext) >= MAX_FILENAME_BYTES {
      LongExtension(u, ext);
      TruncateGraphemeBytesIsLongest(u, ext, MAX_FILENAME_BYTES);
      OnlyFirstDot(TruncateGraphemeBytes(u, ext, MAX_FILENAME_BYTES), ext);
    } else {
      ShortHasNoLongDot(u, ext);
      var cut := TrimDotsAndSpaces(TruncateGraphemeBytes(u, stem, budget));
      var _, _ := TrimFacts(TruncateGraphemeBytes(u, stem, budget));
      EndOf(cut, ext);
      EndOf(stem, ext);
    }
  }

  lemma ShortHasNoLongDot(u: Unicode, ext: string)
    requires ByteLen(ext) < MAX_FILENAME_BYTES
    ensures !LongDot(u, ext)
  {
  }

  lemma OnlyFirstDot(p: string, ext: string)
    requires p <= ext && Extension(ext)
    ensures p != "" && p[|p| - 1] == '.' ==> p == "."
  {
  }

  lemma EndOf(a: string, ext: string)
    requires Extension(ext) && (ext == "" && a != "" ==> a[|a| - 1] != '.')
    ensures a + ext != "" ==> (a + ext)[|a + ext| - 1] != '.'
  {
    assert ext == "" ==> a + ext == a;
  }

  lemma TrimmedFilenameFacts(u: Unicode, raw: string)
    ensures Tidy(TrimmedFilename(u, raw))
    ensures u.AsciiExact() && Ascii(raw) ==> Ascii(TrimmedFilename(u, raw))
  {
    hide Tidy, TrimDotsAndSpaces, CollapseWhitespace, StripForbidden;
    var s := u.nfc(raw);
    assert forall c :: c in LastPathSegment(s) ==> c in s;
    CharacterStepsTidy(LastPathSegment(s));
  }

  /**
   * Every sanitised file name, from any input: not empty, no separator or forbidden character, at most 245
   * bytes, never "..", and a bare "." exactly in the case DotOnly describes. So it is a path component
   * exactly when DotOnly does not hold; on ASCII it always is one.
   */
  lemma SanitizeFilenameIsComponent(u: Unicode, raw: string)
    ensures var r := SanitizeFilename(u, raw);
            && r != "" && Plain(r) && ByteLen(r) <= 245 && r != ".."
            && (r == "." <==> DotOnly(u, raw))
            && (Component(r) <==> !DotOnly(u, raw))
            && (r[|r| - 1] == '.' ==> r == ".")
            && (u.AsciiExact() && Ascii(raw) ==> Ascii(r) && !DotOnly(u, raw))
  {
    hide Stripped, IsSpace, SingleSpaced, Reserved, TrimmedFilename, LongDot, FitFilename, SplitExt, ByteLen;
    var s := TrimmedFilename(u, raw);
    TrimmedFilenameFacts(u, raw);
    var (stem, ext) := SplitExt(s);
    SplitExtFacts(s);
    var long := SuffixReserved(stem);
    UnderscoreIsPlain();
    FitFilenameWithinCap(u, long, ext);
    FitChars(u, long, ext);
    FitEnds(u, long, ext);
    FilenameFallbackIsPlain();
    SlashIsStripped();
    if u.AsciiExact() && Ascii(raw) {
      AsciiHasNoLongDot(u, ext);
    }
  }

  lemma SlashIsStripped()
    ensures Stripped('/')
  {
  }

  lemma FilenameFallbackIsPlain()
    ensures Plain(FILENAME_FALLBACK) && Ascii(FILENAME_FALLBACK)
    ensures ByteLen(FILENAME_FALLBACK) == 5
  {
    hide Plain, Ascii;
    LettersAreTidy(FILENAME_FALLBACK);
    ByteLenBounds(FILENAME_FALLBACK);
  }

  lemma AsciiHasNoLongDot(u: Unicode, ext: string)
    requires u.AsciiExact() && Plain(ext) && Ascii(ext)
    ensures !LongDot(u, ext)
  {
    hide Stripped, IsSpace, ByteLen, Clusters;
    TidyAsciiIsPrintable(ext);
    AsciiClusters(u, ext, -1);
    if |ext| >= 2 {
      var c := Clusters(u, ext, -1)[1];
      assert ext[1] in ext && c == [ext[1]];
      ByteLenBounds(c);
    }
  }

  // ------------------------------------------------------------------ the collision suffix

  lemma HashPrefixFacts(hash: string)
    requires ValidHash(hash)
    ensures |hash| == 64
    ensures var h := hash[..COLLISION_HEX_LEN];
            |h| == COLLISION_HEX_LEN && ByteLen(h) == COLLISION_HEX_LEN && Printable(h)
            && (forall c :: c in h ==> !IsEdge(c) && c != '/')
  {
    ByteLenBounds(hash[..COLLISION_HEX_LEN]);
  }

  lemma SplitExtBytes(f: string)
    requires ByteLen(f) <= MAX_FILENAME_BYTES
    ensures var (stem, ext) := SplitExt(f);
            ByteLen(stem) + ByteLen(ext) == ByteLen(f) && ByteLen(ext) < MAX_FILENAME_BYTES
  {
    var (stem, ext) := SplitExt(f);
    ByteLenAppend(stem, ext);
    ByteLenBounds(stem);
    ByteLenBounds(ext);
  }

  lemma SuffixBytes(stem: string, hash: string)
    requires ValidHash(hash)
    ensures ByteLen(stem + COLLISION_SEP + hash[..COLLISION_HEX_LEN]) == ByteLen(stem) + 10
  {
    hide ByteLen, ValidHash;
    HashPrefixFacts(hash);
    ByteLenAppend(stem + COLLISION_SEP, hash[..COLLISION_HEX_LEN]);
    ByteLenAppend(stem, COLLISION_SEP);
    SepBytes();
  }

  lemma SepBytes()
    ensures ByteLen(COLLISION_SEP) == 2
  {
    ByteLenBounds(COLLISION_SEP);
  }

  /**
   * Suffixing a sanitised name never makes a separator, "." or "..". It can make the empty name, but only
   * from a name that is itself a path component.
   */
  lemma SuffixedFilenameIsSafe(u: Unicode, raw: string, hash: string)
    requires ValidHash(hash)
    ensures var f := SanitizeFilename(u, raw);
            var r := SuffixedFilename(u, f, hash);
            '/' !in r && r != "." && r != ".." && (r == "" ==> Component(f))
  {
    hide Stripped, IsSpace, SanitizeFilename, DotOnly, ByteLen, FitFilename, SplitExt, ValidHash, LongDot, IsEdge;
    var f := SanitizeFilename(u, raw);
    SanitizeFilenameIsComponent(u, raw);
    SlashIsStripped();
    HashPrefixFacts(hash);
    var h := hash[..COLLISION_HEX_LEN];
    SplitExtBytes(f);
    var (stem, ext) := SplitExt(f);
    if f == "." {
      SuffixedDot(u, hash);
    } else {
      SplitExtFacts(f);
      var long := stem + COLLISION_SEP + h;
      FitChars(u, long, ext);
      assert h[7] in h && long[|long| - 1] == h[7];
      EdgeDot();
      FitEnds(u, long, ext);
      ShortHasNoLongDot(u, ext);
    }
  }

  lemma EdgeDot()
    ensures IsEdge('.')
  {
  }

  lemma SuffixedDot(u: Unicode, hash: string)
    requires ValidHash(hash)
    ensures SuffixedFilename(u, ".", hash) == ".__" + hash[..COLLISION_HEX_LEN]
  {
    hide ByteLen;
    SuffixBytes(".", hash);
    ByteLenDot();
    NoBytes();
    assert SplitExt(".") == (".", "");
    assert "." + COLLISION_SEP == ".__";
  }

  function FullSuffix(f: string, hash: string): string
    requires |hash| >= COLLISION_HEX_LEN
  {
    SplitExt(f).0 + COLLISION_SEP + hash[..COLLISION_HEX_LEN] + SplitExt(f).1
  }

  /**
   * For any name within the cap, the whole suffix survives exactly when the name has at most 235 bytes. Then
   * the result differs from the name, and differs for two hashes exactly when their first 8 digits do.
   */
  lemma SuffixSurvives(u: Unicode, f: string, h1: string, h2: string)
    requires ByteLen(f) <= MAX_FILENAME_BYTES && ValidHash(h1) && ValidHash(h2)
    ensures SuffixedFilename(u, f, h1) == FullSuffix(f, h1) <==> ByteLen(f) <= 235
    ensures ByteLen(f) <= 235 ==> SuffixedFilename(u, f, h1) != f
    ensures ByteLen(f) <= 235 ==> (SuffixedFilename(u, f, h1) == SuffixedFilename(u, f, h2) <==>
                                   h1[..COLLISION_HEX_LEN] == h2[..COLLISION_HEX_LEN])
  {
    hide ByteLen, SplitExt, ValidHash, TruncateGraphemeBytes, TrimDotsAndSpaces;
    HashPrefixFacts(h1);
    HashPrefixFacts(h2);
    var (stem, ext) := SplitExt(f);
    SplitExtBytes(f);
    SuffixBytes(stem, h1);
    SuffixBytes(stem, h2);
    var p, q := h1[..COLLISION_HEX_LEN], h2[..COLLISION_HEX_LEN];
    var long := stem + COLLISION_SEP + p;
    ByteLenAppend(long, ext);
    FitFilenameWithinCap(u, long, ext);
    assert |FullSuffix(f, h1)| == |f| + 10 by { assert |stem + ext| == |f|; }
    FullSuffixInjective(stem, p, q, ext);
  }

  lemma FullSuffixInjective(stem: string, p: string, q: string, ext: string)
    requires |p| == |q|
    ensures stem + COLLISION_SEP + p + ext == stem + COLLISION_SEP + q + ext <==> p == q
  {
    AppendCancels(stem + COLLISION_SEP + p, stem + COLLISION_SEP + q, ext);
    PrefixCancels(stem + COLLISION_SEP, p, q);
  }

  lemma AppendCancels(a: string, b: string, x: string)
    ensures a + x == b + x <==> a == b
  {
    if a + x == b + x {
      assert |a| == |b| && (a + x)[..|a|] == a && (b + x)[..|b|] == b;
    }
  }

  lemma PrefixCancels(x: string, a: string, b: string)
    ensures x + a == x + b <==> a == b
  {
    if x + a == x + b {
      assert (x + a)[|x|..] == a && (x + b)[|x|..] == b;
    }
  }

  /** How many digits of the hash are left in the suffix of an ASCII name. */
  function DigitsKept(f: string): nat {
    if |f| >= 243 then 0 else Min(COLLISION_HEX_LEN, 243 - |f|)
  }

  /**
   * Between 236 and 245 characters the cut eats the hash from its end. On printable ASCII the suffix tells two
   * hashes apart exactly when they differ in the digits that are left, and from 243 characters on none is.
   */
  lemma SuffixSeparates(u: Unicode, f: string, h1: string, h2: string)
    requires u.AsciiExact() && Printable(f) && |f| <= MAX_FILENAME_BYTES && ValidHash(h1) && ValidHash(h2)
    ensures SuffixedFilename(u, f, h1) == SuffixedFilename(u, f, h2) <==>
            h1[..DigitsKept(f)] == h2[..DigitsKept(f)]
  {
    hide SuffixedFilename, IsEdge, ValidHash, TrimDotsAndSpaces, SplitExt, ByteLen;
    ByteLenBounds(f);
    HashPrefixFacts(h1);
    HashPrefixFacts(h2);
    if |f| <= 235 {
      SuffixSurvives(u, f, h1, h2);
    } else {
      var e, k := MAX_FILENAME_BYTES - |f|, DigitsKept(f);
      var (stem, ext) := SplitExt(f);
      assert |stem| + |ext| == |f| by { assert |stem + ext| == |f|; }
      CutSuffix(u, f, h1);
      CutSuffix(u, f, h2);
      var p, q := h1[..COLLISION_HEX_LEN], h2[..COLLISION_HEX_LEN];
      CutsAgree(stem, p, q, e);
      AppendCancels(CutTo(stem, p, e), CutTo(stem, q, e), ext);
      assert p[..k] == h1[..k] && q[..k] == h2[..k];
    }
  }

  /** A stem with its suffix, cut e characters past the stem and trimmed. */
  function CutTo(stem: string, p: string, e: nat): string
    requires |p| == COLLISION_HEX_LEN && e <= 9
  {
    TrimDotsAndSpaces((stem + COLLISION_SEP + p)[..|stem| + e])
  }

  /** Cut e characters past the stem, two suffixed stems agree exactly on the digits that are left. */
  lemma CutsAgree(stem: string, p: string, q: string, e: nat)
    requires |p| == |q| == COLLISION_HEX_LEN && e <= 9
    requires forall c :: c in p || c in q ==> !IsEdge(c)
    ensures var k := if e <= 2 then 0 else e - 2;
            CutTo(stem, p, e) == CutTo(stem, q, e) <==> p[..k] == q[..k]
  {
    hide TrimDotsAndSpaces;
    var x := stem + COLLISION_SEP;
    if e <= 2 {
      assert (x + p)[..|stem| + e] == x[..|stem| + e] == (x + q)[..|stem| + e];
    } else {
      var k := e - 2;
      CutPastSep(stem, p, k);
      CutPastSep(stem, q, k);
      PrefixCancels(TrimLeft(x), p[..k], q[..k]);
    }
  }

  lemma CutPastSep(stem: string, p: string, k: nat)
    requires |p| == COLLISION_HEX_LEN && k <= 7 && forall c :: c in p ==> !IsEdge(c)
    ensures CutTo(stem, p, k + 2) == TrimLeft(stem + COLLISION_SEP) + p[..k]
  {
    hide TrimDotsAndSpaces;
    var x := stem + COLLISION_SEP;
    assert (x + p)[..|x| + k] == x + p[..k];
    assert x[|x| - 1] == '_';
    PrefixChars(p[..k], p);
    TrimKeepsTail(x, p[..k]);
  }

  lemma CutSuffix(u: Unicode, f: string, h: string)
    requires u.AsciiExact() && Printable(f) && 235 < |f| <= MAX_FILENAME_BYTES && ValidHash(h)
    ensures |h| == 64
    ensures var (stem, ext) := SplitExt(f);
            SuffixedFilename(u, f, h) == CutTo(stem, h[..COLLISION_HEX_LEN], MAX_FILENAME_BYTES - |f|) + ext
  {
    hide IsEdge, ValidHash, SplitExt, TrimDotsAndSpaces, ByteLen, TruncateGraphemeBytes;
    var (stem, ext) := SplitExt(f);
    assert f == stem + ext;
    assert forall c :: c in stem || c in ext ==> c in stem + ext;
    HashPrefixFacts(h);
    var long := stem + COLLISION_SEP + h[..COLLISION_HEX_LEN];
    ByteLenBounds(f);
    ByteLenBounds(stem);
    ByteLenBounds(ext);
    SplitExtBytes(f);
    SuffixBytes(stem, h);
    assert Printable(long) by { assert Printable(COLLISION_SEP); }
    AsciiTruncateBytes(u, long, MAX_FILENAME_BYTES - |ext|);
  }

  /** Nothing is trimmed off a tail without dots and spaces, behind text that does not end in one. */
  lemma {:induction false} TrimKeepsTail(x: string, tail: string)
    requires x != "" && !IsEdge(x[|x| - 1]) && forall c :: c in tail ==> !IsEdge(c)
    ensures TrimDotsAndSpaces(x + tail) == TrimLeft(x) + tail
    ensures TrimLeft(x) != "" && !IsEdge(TrimLeft(x)[0]) && |TrimLeft(x)| <= |x|
  {
    hide IsEdge;
    if IsEdge(x[0]) {
      assert (x + tail)[1..] == x[1..] + tail;
      TrimKeepsTail(x[1..], tail);
    } else {
      assert TrimLeft(x + tail) == x + tail;
    }
  }

  /**
   * The suffixed name is the very name it should differ from exactly when the name fills the cap and its stem
   * has nothing to trim.
   */
  lemma SuffixDiffers(u: Unicode, f: string, h: string)
    requires u.AsciiExact() && Printable(f) && |f| <= MAX_FILENAME_BYTES && ValidHash(h)
    ensures SuffixedFilename(u, f, h) == f <==> |f| == MAX_FILENAME_BYTES && TidyEdges(SplitExt(f).0)
  {
    hide SuffixedFilename, IsEdge, ValidHash, TrimDotsAndSpaces, SplitExt, ByteLen;
    ByteLenBounds(f);
    var (stem, ext) := SplitExt(f);
    if |f| <= 235 {
      SuffixSurvives(u, f, h, h);
    } else {
      CutSuffix(u, f, h);
      HashPrefixFacts(h);
      assert f == stem + ext;
      var p, e := h[..COLLISION_HEX_LEN], MAX_FILENAME_BYTES - |f|;
      AppendCancels(CutTo(stem, p, e), stem, ext);
      CutDiffers(stem, p, e);
    }
  }

  lemma CutDiffers(stem: string, p: string, e: nat)
    requires |p| == COLLISION_HEX_LEN && e <= 9 && forall c :: c in p ==> !IsEdge(c)
    ensures CutTo(stem, p, e) == stem <==> e == 0 && TidyEdges(stem)
  {
    hide TrimDotsAndSpaces;
    var x := stem + COLLISION_SEP;
    if e == 0 {
      assert (x + p)[..|stem|] == stem;
      var _, _ := TrimFacts(stem);
    } else if e == 1 {
      assert (x + p)[..|stem| + 1] == stem + "_" + "";
      TrimKeepsTail(stem + "_", "");
      TailKeeps(stem, "_");
    } else {
      CutPastSep(stem, p, e - 2);
      PrefixChars(p[..e - 2], p);
      TrimKeepsTail(x, p[..e - 2]);
      TailKeeps(stem, COLLISION_SEP);
    }
  }

  /** Left-trimming a name with underscores behind it does not give the name. */
  lemma TailKeeps(stem: string, tail: string)
    requires tail != "" && forall c :: c in tail ==> !IsEdge(c)
    ensures forall t: string :: TrimLeft(stem + tail) + t != stem
  {
    hide IsEdge;
    assert tail[0] in tail && tail[|tail| - 1] in tail;
    var x := stem + tail;
    var i := TrimLeftFacts(x);
    TrimKeepsTail(x, "");
    if stem != "" && IsEdge(stem[0]) {
      forall t: string
        ensures x[i..] + t != stem
      {
        assert (x[i..] + t)[0] == x[i];
      }
    } else {
      assert TrimLeft(x) == x;
    }
  }
}
