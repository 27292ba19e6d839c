/** What the character rules do to a name, rule by rule, and which names they take for the same. */
module NameLaws {
  import opened Text
  import opened Sanitize
  import opened SanitizeLaws

  // ------------------------------------------------------------------ single rules

  /** The characters that are removed. */
  predicate Removed(c: char) {
    c as int < 0x20 || c == '/' || c == '\\' || c == ':' || c == '*' || c == '?' || c == '"' || c == '<' || c == '>'
    || c == '|'
  }

  lemma {:induction false} StripAppend(a: string, b: string)
    ensures StripForbidden(a + b) == StripForbidden(a) + StripForbidden(b)
  {
    if a == "" {
      assert a + b == b;
    } else {
      assert (a + b)[1..] == a[1..] + b;
      StripAppend(a[1..], b);
    }
  }

  lemma StripOne(c: char)
    ensures StripForbidden([c]) == if Removed(c) then "" else [c]
  {
  }

  /** White space in the middle parts what is on either side of it by one space. */
  lemma {:induction false} CollapseGap(a: string, c: char, b: string)
    requires IsSpace(c)
    ensures CollapseWhitespace(a + [c] + b) ==
            if CollapseWhitespace(a) == "" then CollapseWhitespace(b)
            else if CollapseWhitespace(b) == "" then CollapseWhitespace(a)
            else CollapseWhitespace(a) + " " + CollapseWhitespace(b)
  {
    hide CollapseWhitespace, IsSpace;
    CollapseNothing();
    if b == "" {
      assert a + [c] + b == a + [c];
      CollapseSnoc(a, c);
    } else {
      var front, d := b[..|b| - 1], b[|b| - 1];
      var x := a + [c] + front;
      assert b == front + [d] && a + [c] + b == x + [d];
      CollapseGap(a, c, front);
      CollapseSnoc(x, d);
      CollapseSnoc(front, d);
      if front != "" && !IsSpace(front[|front| - 1]) {
        CollapseEnds(front);
      }
    }
  }

  lemma CollapseEnds(s: string)
    requires s != "" && !IsSpace(s[|s| - 1])
    ensures CollapseWhitespace(s) != ""
  {
    hide CollapseWhitespace, IsSpace;
    assert s == s[..|s| - 1] + [s[|s| - 1]];
    CollapseSnoc(s[..|s| - 1], s[|s| - 1]);
  }

  /** A character in front that is no white space stays in front. */
  lemma {:induction false} CollapseCons(c: char, s: string)
    requires !IsSpace(c)
    ensures CollapseWhitespace([c] + s) ==
            [c] + (if s != "" && IsSpace(s[0]) && CollapseWhitespace(s) != "" then " " else "") + CollapseWhitespace(s)
    decreases |s|
  {
    hide CollapseWhitespace, IsSpace;
    CollapseNothing();
    if s == "" {
      assert [c] + s == "" + [c];
      CollapseSnoc("", c);
    } else {
      var front, d := s[..|s| - 1], s[|s| - 1];
      assert s == front + [d] && [c] + s == [c] + front + [d];
      CollapseCons(c, front);
      CollapseSnoc([c] + front, d);
      CollapseSnoc(front, d);
      assert front == "" ==> [c] + front == [c];
      if front != "" {
        assert s[0] == front[0] && ([c] + front)[|front|] == front[|front| - 1];
        if !IsSpace(front[0]) {
          CollapseCons(front[0], front[1..]);
          assert front == [front[0]] + front[1..];
        }
        if !IsSpace(front[|front| - 1]) {
          CollapseEnds(front);
        }
      }
    }
  }

  lemma TrimAtEdges(e: char, s: string)
    requires e == '.' || e == ' '
    ensures TrimDotsAndSpaces([e] + s) == TrimDotsAndSpaces(s) == TrimDotsAndSpaces(s + [e])
  {
    assert ([e] + s)[1..] == s;
    TrimLeftSnoc(s, e);
    var t := TrimLeft(s) + [e];
    assert t[..|t| - 1] == TrimLeft(s);
  }

  lemma {:induction false} TrimLeftSnoc(s: string, e: char)
    requires e == '.' || e == ' '
    ensures TrimLeft(s + [e]) == if TrimLeft(s) == "" then "" else TrimLeft(s) + [e]
  {
    if s == "" {
      assert (s + [e])[1..] == "";
    } else {
      assert (s + [e])[1..] == s[1..] + [e];
      if IsEdge(s[0]) {
        TrimLeftSnoc(s[1..], e);
      }
    }
  }

  // ------------------------------------------------------------------ the rules together

  /**
   * Together the rules remove control and forbidden characters wherever they are, take all other white space for a
   * space and a run of spaces for one, and remove dots and spaces at both ends. A tidy name they leave alone.
   */
  lemma CharacterRules(a: string, b: string, c: char)
    ensures Removed(c) ==> CharacterSteps(a + [c] + b) == CharacterSteps(a + b)
    ensures IsSpace(c) && !Removed(c) ==> CharacterSteps(a + [c] + b) == CharacterSteps(a + " " + b)
    ensures CharacterSteps(a + " " + b) == CharacterSteps(a + "  " + b)
    ensures c == '.' || c == ' ' ==> CharacterSteps([c] + a) == CharacterSteps(a) == CharacterSteps(a + [c])
    ensures Tidy(a) ==> CharacterSteps(a) == a
  {
    CharacterStepsTidy(a);
    if Removed(c) {
      RemovedIsIgnored(a, b, c);
    } else if IsSpace(c) {
      SpacesAreOne(a, b, c);
    }
    SpacesAreOne(a, b, ' ');
    if c == '.' || c == ' ' {
      EdgesAreIgnored(a, c);
    }
  }

  lemma RemovedIsIgnored(a: string, b: string, c: char)
    requires Removed(c)
    ensures StripForbidden(a + [c] + b) == StripForbidden(a + b)
  {
    StripAppend(a + [c], b);
    StripAppend(a, [c]);
    StripAppend(a, b);
    StripOne(c);
    assert StripForbidden(a) + "" == StripForbidden(a);
  }

  lemma SpacesAreOne(a: string, b: string, c: char)
    requires IsSpace(c) && !Removed(c)
    ensures CollapseWhitespace(StripForbidden(a + [c] + b)) == CollapseWhitespace(StripForbidden(a + " " + b))
    ensures CollapseWhitespace(StripForbidden(a + "  " + b)) == CollapseWhitespace(StripForbidden(a + " " + b))
  {
    hide CollapseWhitespace, StripForbidden;
    var x, y := StripForbidden(a), StripForbidden(b);
    StripOne(c);
    StripOne(' ');
    StripAppend(a, [c]);
    StripAppend(a + [c], b);
    StripAppend(a, " ");
    StripAppend(a + " ", b);
    StripAppend(a + " ", " " + b);
    StripAppend(" ", b);
    assert a + "  " + b == a + " " + (" " + b);
    assert x + " " + (" " + y) == x + [' '] + (" " + y);
    CollapseGap(x, c, y);
    SpaceIsSpace();
    CollapseGap(x, ' ', y);
    CollapseGap(x, ' ', " " + y);
    CollapseGap("", ' ', y);
    assert "" + [' '] + y == " " + y;
    CollapseNothing();
  }

  lemma EdgesAreIgnored(a: string, c: char)
    requires c == '.' || c == ' '
    ensures CharacterSteps([c] + a) == CharacterSteps(a) == CharacterSteps(a + [c])
  {
    hide CollapseWhitespace, StripForbidden, TrimDotsAndSpaces;
    var s := StripForbidden(a);
    StripOne(c);
    StripAppend([c], a);
    StripAppend(a, [c]);
    var t := CollapseWhitespace(s);
    SpaceIsSpace();
    CollapseSnoc(s, c);
    TrimAtEdges(c, t);
    TrimAtEdges(' ', t);
    TrimAtEdges(c, t + " ");
    if c == ' ' {
      CollapseGap("", ' ', s);
      assert "" + [' '] + s == [c] + s;
      CollapseNothing();
    } else {
      DotIsNoSpace();
      CollapseCons(c, s);
      TrimAtEdges(c, " " + t);
      assert [c] + " " + t == [c] + (" " + t) && [c] + "" + t == [c] + t && t + [' ', c] == t + " " + [c];
    }
  }

  lemma DotIsNoSpace()
    ensures !IsSpace('.')
  {
  }

  // ------------------------------------------------------------------ the single decisions

  /** White space, as Unicode defines it: these 25 characters. */
  lemma WhiteSpace(c: char)
    ensures IsSpace(c) <==>
            c in {'\t', '\n', '\U{B}', '\U{C}', '\r', ' ', '\U{85}', '\U{A0}', '\U{1680}', '\U{2000}', '\U{2001}',
                  '\U{2002}', '\U{2003}', '\U{2004}', '\U{2005}', '\U{2006}', '\U{2007}', '\U{2008}', '\U{2009}',
                  '\U{200A}', '\U{2028}', '\U{2029}', '\U{202F}', '\U{205F}', '\U{3000}'}
  {
  }

  /** One spelling of a lower-case name. */
  predicate SpelledAs(s: string, name: string) {
    |s| == |name| && forall i :: 0 <= i < |s| ==>
        s[i] == name[i] || ('a' <= name[i] <= 'z' && s[i] as int == name[i] as int - 32)
  }

  const DEVICES: set<string> := {
    "con", "prn", "aux", "nul", "com1", "com2", "com3", "com4", "com5", "com6", "com7", "com8", "com9",
    "lpt1", "lpt2", "lpt3", "lpt4", "lpt5", "lpt6", "lpt7", "lpt8", "lpt9"}

  /** The reserved names are the 22 device names, in any mixture of capitals and small letters. */
  lemma ReservedExactly(s: string)
    ensures Reserved(s) <==> exists name :: name in DEVICES && SpelledAs(s, name)
  {
    hide DEVICES;
    LowerIsSpelling(s);
    DevicesExactly(Lower(s));
    if name :| name in DEVICES && SpelledAs(s, name) {
      DevicesExactly(name);
      SpellingIsLower(s, name);
    }
  }

  lemma {:induction false} LowerIsSpelling(s: string)
    ensures SpelledAs(s, Lower(s))
  {
    if s != "" {
      LowerIsSpelling(s[1..]);
    }
  }

  lemma {:induction false} SpellingIsLower(s: string, name: string)
    requires SpelledAs(s, name) && forall c :: c in name ==> !('A' <= c <= 'Z')
    ensures Lower(s) == name
  {
    if s != "" {
      assert name[0] in name && forall c :: c in name[1..] ==> c in name;
      SpellingIsLower(s[1..], name[1..]);
      assert name == [name[0]] + name[1..];
    }
  }

  lemma DevicesExactly(s: string)
    ensures IsDevice(s) <==> s in DEVICES
    ensures s in DEVICES ==> forall c :: c in s ==> !('A' <= c <= 'Z')
  {
    if |s| == 4 {
      NumberedDevices(s, "com");
      NumberedDevices(s, "lpt");
      assert "com" + "1" == "com1" && "com" + "2" == "com2" && "com" + "3" == "com3";
      assert "com" + "4" == "com4" && "com" + "5" == "com5" && "com" + "6" == "com6";
      assert "com" + "7" == "com7" && "com" + "8" == "com8" && "com" + "9" == "com9";
      assert "lpt" + "1" == "lpt1" && "lpt" + "2" == "lpt2" && "lpt" + "3" == "lpt3";
      assert "lpt" + "4" == "lpt4" && "lpt" + "5" == "lpt5" && "lpt" + "6" == "lpt6";
      assert "lpt" + "7" == "lpt7" && "lpt" + "8" == "lpt8" && "lpt" + "9" == "lpt9";
    }
  }

  lemma NumberedDevices(s: string, kind: string)
    requires |s| == 4 && |kind| == 3
    ensures s[..3] == kind && '1' <= s[3] <= '9' <==>
            s in {kind + "1", kind + "2", kind + "3", kind + "4", kind + "5", kind + "6", kind + "7", kind + "8",
                  kind + "9"}
  {
    assert s == s[..3] + [s[3]];
    assert forall d: char :: (kind + [d])[..3] == kind && (kind + [d])[3] == d;
  }

  /** A name is parted before its last dot, unless that is its first character or there is none. */
  predicate PartedAt(s: string, stem: string, ext: string) {
    && s == stem + ext
    && (ext == "" ==> forall i :: 1 <= i < |s| ==> s[i] != '.')
    && (ext != "" ==> stem != "" && ext[0] == '.' && forall i :: 1 <= i < |ext| ==> ext[i] != '.')
  }

  lemma SplitExtExactly(s: string, stem: string, ext: string)
    ensures SplitExt(s) == (stem, ext) <==> PartedAt(s, stem, ext)
  {
    var i := LastIndexOf(s, '.');
    if PartedAt(s, stem, ext) {
      if ext == "" {
        assert i <= 0 && stem + "" == stem;
      } else {
        assert s[|stem|] == '.' && |stem| <= i;
        forall k | |stem| < k < |s|
          ensures s[k] != '.'
        {
          assert s[k] == ext[k - |stem|];
        }
        assert s[..i] == stem && s[i..] == ext;
      }
    }
  }

  /** What follows the last slash or backslash. */
  predicate LastSegment(s: string, front: string, last: string) {
    && s == front + last && '/' !in last && '\\' !in last
    && (front == "" || front[|front| - 1] == '/' || front[|front| - 1] == '\\')
  }

  lemma LastSegmentExactly(s: string, front: string, last: string)
    requires LastSegment(s, front, last)
    ensures LastPathSegment(s) == last
  {
    forall k | |front| <= k < |s|
      ensures s[k] in last
    {
      assert s[k] == last[k - |front|];
    }
    assert front != "" ==> s[|front| - 1] == front[|front| - 1];
    assert LastIndexAny(s, {'/', '\\'}) == |front| - 1;
  }

  // ------------------------------------------------------------------ the two pipelines

  /**
   * An album name is what the character rules leave, with "_" after a device name and "Unsortiert" for nothing; of
   * more than 64 clusters the first 64, trimmed again.
   */
  lemma AlbumExactly(u: Unicode, raw: string)
    ensures var t := CharacterSteps(u.nfc(raw));
            && (t == "" ==> SanitizeAlbum(u, raw) == "Unsortiert")
            && (t != "" && !Reserved(t) && |Clusters(u, t, -1)| <= 64 ==> SanitizeAlbum(u, raw) == t)
            && (t != "" && !Reserved(t) && |Clusters(u, t, -1)| > 64 ==>
                  SanitizeAlbum(u, raw) == TrimDotsAndSpaces(Concat(Clusters(u, t, -1)[..64])))
            && (Reserved(t) ==> SanitizeAlbum(u, raw) == t + "_")
  {
    var t := CharacterSteps(u.nfc(raw));
    CharacterStepsTidy(u.nfc(raw));
    SuffixIsTidy(t);
    ReservedFacts(t);
    FallbackIsNotReserved();
    FewClusters(u, t, -1);
    FewClusters(u, t + "_", -1);
    hide CharacterSteps, Plain, SingleSpaced, Reserved, TruncateGraphemes, TrimDotsAndSpaces, IsEdge, Clusters;
    assert TrimmedAlbum(u, raw) == SuffixReserved(t) by { StepsOfAlbum(u, raw); }
    TruncateGraphemesKeepsClusters(u, SuffixReserved(t), 64);
    var _, _ := TrimFacts(SuffixReserved(t));
    var _, _ := TrimFacts(TruncateGraphemes(u, SuffixReserved(t), 64));
    if t != "" {
      CutIsNotEmpty(u, t);
    }
  }

  /** The first clusters of a name that starts with no dot or space do not trim to nothing. */
  lemma CutIsNotEmpty(u: Unicode, t: string)
    requires t != "" && !IsEdge(t[0])
    ensures TrimDotsAndSpaces(TruncateGraphemes(u, t, 64)) != ""
  {
    hide TruncateGraphemes, TrimDotsAndSpaces, IsEdge, Clusters;
    TruncateGraphemesKeepsClusters(u, t, 64);
    var cut := TruncateGraphemes(u, t, 64);
    SomeCluster(u, t);
    assert cut[0] == t[0];
    var _, _ := TrimFacts(cut);
  }

  lemma SomeCluster(u: Unicode, t: string)
    requires t != ""
    ensures |Clusters(u, t, -1)| > 0
  {
  }

  lemma StepsOfAlbum(u: Unicode, raw: string)
    ensures TrimmedAlbum(u, raw) == SuffixReserved(CharacterSteps(u.nfc(raw)))
  {
  }

  /**
   * A file name is what the character rules leave of the last segment, with "_" between a stem that is a device name
   * and the extension, and "datei" for nothing. Over 245 bytes the stem is cut for the extension, and trimmed again,
   * unless the extension alone has as many.
   */
  lemma FilenameExactly(u: Unicode, raw: string, front: string, last: string, stem: string, ext: string)
    requires LastSegment(u.nfc(raw), front, last) && PartedAt(CharacterSteps(last), stem, ext)
    ensures CharacterSteps(last) == "" ==> SanitizeFilename(u, raw) == "datei"
    ensures CharacterSteps(last) != "" && !Reserved(stem) && ByteLen(stem + ext) <= 245 ==>
              SanitizeFilename(u, raw) == stem + ext
    ensures Reserved(stem) && ByteLen(stem + "_" + ext) <= 245 ==> SanitizeFilename(u, raw) == stem + "_" + ext
    ensures !Reserved(stem) && ByteLen(stem + ext) > 245 > ByteLen(ext) && ext != "" ==>
              SanitizeFilename(u, raw) ==
              TrimDotsAndSpaces(TruncateGraphemeBytes(u, stem, 245 - ByteLen(ext))) + ext
    ensures ByteLen(ext) >= 245 && SanitizeFilename(u, raw) != "datei" ==>
              SanitizeFilename(u, raw) == TruncateGraphemeBytes(u, ext, 245)
  {
    hide LastSegment, PartedAt, ByteLen, Reserved, CharacterSteps, SplitExt;
    LastSegmentExactly(u.nfc(raw), front, last);
    SplitExtExactly(CharacterSteps(last), stem, ext);
    StepsOfFilename(u, raw);
    FittingFilename(u, raw, stem, ext);
  }

  lemma StepsOfFilename(u: Unicode, raw: string)
    ensures TrimmedFilename(u, raw) == CharacterSteps(LastPathSegment(u.nfc(raw)))
  {
  }

  lemma FittingFilename(u: Unicode, raw: string, stem: string, ext: string)
    requires SplitExt(TrimmedFilename(u, raw)) == (stem, ext)
    ensures stem + ext == "" ==> SanitizeFilename(u, raw) == "datei"
    ensures stem + ext != "" && !Reserved(stem) && ByteLen(stem + ext) <= 245 ==>
              SanitizeFilename(u, raw) == stem + ext
    ensures Reserved(stem) && ByteLen(stem + "_" + ext) <= 245 ==> SanitizeFilename(u, raw) == stem + "_" + ext
    ensures !Reserved(stem) && ByteLen(stem + ext) > 245 > ByteLen(ext) && ext != "" ==>
              SanitizeFilename(u, raw) ==
              TrimDotsAndSpaces(TruncateGraphemeBytes(u, stem, 245 - ByteLen(ext))) + ext
    ensures ByteLen(ext) >= 245 && SanitizeFilename(u, raw) != "datei" ==>
              SanitizeFilename(u, raw) == TruncateGraphemeBytes(u, ext, 245)
  {
    hide ByteLen, Reserved, SplitExt, TrimmedFilename, TruncateGraphemeBytes, TrimDotsAndSpaces;
    SplitExtExactly(TrimmedFilename(u, raw), stem, ext);
    FallbackIsNotReserved();
    NoBytes();
    var s := SuffixReserved(stem);
    ByteLenAppend(s, ext);
    ByteLenBounds(s);
    FitFilenameExactly(u, s, ext);
  }

  lemma FitFilenameExactly(u: Unicode, stem: string, ext: string)
    requires stem != "" || ext == ""
    ensures FitFilename(u, stem, ext) ==
            if ByteLen(ext) >= 245 then TruncateGraphemeBytes(u, ext, 245)
            else if ByteLen(stem + ext) <= 245 then stem + ext
            else TrimDotsAndSpaces(TruncateGraphemeBytes(u, stem, 245 - ByteLen(ext))) + ext
    ensures ByteLen(stem + ext) <= 245 ==> FitFilename(u, stem, ext) == stem + ext
  {
    hide TruncateGraphemeBytes, TrimDotsAndSpaces, ByteLen;
    ByteLenAppend(stem, ext);
    ByteLenBounds(stem);
    NoBytes();
  }

  /** The suffix is two underscores and the first eight digits of the hash, in front of the extension. */
  lemma SuffixExactly(u: Unicode, f: string, stem: string, ext: string, hash: string)
    requires PartedAt(f, stem, ext)
    ensures |hash| >= 8 && ByteLen(stem + "__" + hash[..8] + ext) <= 245 ==>
              SuffixedFilename(u, f, hash) == stem + "__" + hash[..8] + ext
    ensures |hash| >= 8 && ByteLen(stem + "__" + hash[..8] + ext) > 245 > ByteLen(ext) ==>
              SuffixedFilename(u, f, hash) ==
              TrimDotsAndSpaces(TruncateGraphemeBytes(u, stem + "__" + hash[..8], 245 - ByteLen(ext))) + ext
    ensures |hash| < 8 ==> SuffixedFilename(u, f, hash) == f
  {
    hide TruncateGraphemeBytes, TrimDotsAndSpaces, ByteLen, PartedAt, SplitExt, FitFilename;
    SplitExtExactly(f, stem, ext);
    if |hash| >= 8 {
      FitFilenameExactly(u, stem + "__" + hash[..8], ext);
    }
  }

  /** Clusters are read off one after the other, each in the segmentation state the one before left, -1 at first. */
  lemma {:induction false} ClustersAreRead(u: Unicode, s: string, st: int) returns (states: seq<int>)
    ensures var cs := Clusters(u, s, st);
            && |states| == |cs| + 1 && states[0] == st && Concat(cs) == s
            && forall i :: 0 <= i < |cs| ==> (|cs[i]|, states[i + 1]) == u.cluster(Concat(cs[i..]), states[i])
    decreases |s|
  {
    ConcatClusters(u, s, st);
    states := [st];
    if s != "" {
      var (n, next) := u.cluster(s, st);
      var cs := Clusters(u, s, st);
      var rest := ClustersAreRead(u, s[n..], next);
      states := [st] + rest;
      forall i | 0 <= i < |cs|
        ensures (|cs[i]|, states[i + 1]) == u.cluster(Concat(cs[i..]), states[i])
      {
        assert i > 0 ==> cs[i..] == cs[1..][i - 1..];
        assert cs[0..] == cs;
      }
    }
  }
}
