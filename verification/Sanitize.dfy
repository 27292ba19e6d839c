/** Album and file names: the sanitising pipeline, the two truncations and the collision suffix. */
module Sanitize {
  import opened Text

  const ALBUM_FALLBACK := "Unsortiert"
  const FILENAME_FALLBACK := "datei"
  const MAX_ALBUM_GRAPHEMES: nat := 64
  const MAX_FILENAME_BYTES: nat := 245
  const COLLISION_SEP := "__"
  const COLLISION_HEX_LEN: nat := 8

  const FORBIDDEN: set<char> := {'/', '\\', ':', '*', '?', '"', '<', '>', '|'}

  /**
   * What the Unicode libraries supply: normalisation to NFC, and the next extended grapheme cluster of a
   * string in a segmentation state, given by its length together with the state after it.
   */
  datatype Tables = Tables(nfc: string -> string, cluster: (string, int) -> (nat, int)) {
    /** All that is assumed of segmentation: a cluster is a non-empty prefix of what is left. */
    ghost predicate Valid() {
      forall s: string, st: int :: s != "" ==> 1 <= cluster(s, st).0 <= |s|
    }

    /** How the libraries treat printable ASCII: it is NFC already, and every character is a cluster. */
    ghost predicate AsciiExact() {
      && (forall s: string :: Ascii(s) ==> nfc(s) == s)
      && (forall s: string, st: int :: s != "" && Printable(s) ==> cluster(s, st).0 == 1)
    }
  }

  type Unicode = t: Tables | t.Valid()
    witness Tables((s: string) => s, (s: string, st: int) => (|s|, st))

  // ------------------------------------------------------------------ character rules

  predicate Stripped(c: char) {
    c < ' ' || c in FORBIDDEN
  }

  function StripForbidden(s: string): string {
    if s == "" then ""
    else if Stripped(s[0]) then StripForbidden(s[1..])
    else [s[0]] + StripForbidden(s[1..])
  }

  /** unicode.IsSpace. */
  predicate IsSpace(c: char) {
    || '\U{9}' <= c <= '\U{D}' || c == ' ' || c == '\U{85}' || c == '\U{A0}' || c == '\U{1680}'
    || '\U{2000}' <= c <= '\U{200A}' || c == '\U{2028}' || c == '\U{2029}' || c == '\U{202F}'
    || c == '\U{205F}' || c == '\U{3000}'
  }

  /** The maximal runs of characters that are not white space, in order. */
  function Fields(s: string): seq<string> {
    if s == "" then []
    else
      var before, c := Fields(s[..|s| - 1]), s[|s| - 1];
      if IsSpace(c) then before
      else if |s| == 1 || IsSpace(s[|s| - 2]) || before == [] then before + [[c]]
      else before[..|before| - 1] + [before[|before| - 1] + [c]]
  }

  function CollapseWhitespace(s: string): string {
    Join(Fields(s), ' ')
  }

  predicate IsEdge(c: char) {
    c == '.' || c == ' '
  }

  function TrimLeft(s: string): string {
    if s != "" && IsEdge(s[0]) then TrimLeft(s[1..]) else s
  }

  function TrimRight(s: string): string {
    if s != "" && IsEdge(s[|s| - 1]) then TrimRight(s[..|s| - 1]) else s
  }

  function TrimDotsAndSpaces(s: string): string {
    TrimRight(TrimLeft(s))
  }

  function Lower(s: string): string {
    if s == "" then ""
    else [if 'A' <= s[0] <= 'Z' then s[0] - 'A' + 'a' else s[0]] + Lower(s[1..])
  }

  /** The Windows device names in lower case: con, prn, aux, nul, com1 to com9 and lpt1 to lpt9. */
  predicate IsDevice(s: string) {
    || s in {"con", "prn", "aux", "nul"}
    || (|s| == 4 && s[..3] in {"com", "lpt"} && '1' <= s[3] <= '9')
  }

  /** A reserved name. No character beyond ASCII lowers to a letter of one. */
  predicate Reserved(s: string) {
    IsDevice(Lower(s))
  }

  function SuffixReserved(s: string): string {
    if Reserved(s) then s + "_" else s
  }

  // ------------------------------------------------------------------ grapheme clusters

  function Concat(cs: seq<string>): string {
    if cs == [] then "" else cs[0] + Concat(cs[1..])
  }

  /** The clusters of s, read from segmentation state st. */
  function Clusters(u: Unicode, s: string, st: int): (cs: seq<string>)
    decreases |s|
  {
    if s == "" then []
    else
      var (n, next) := u.cluster(s, st);
      [s[..n]] + Clusters(u, s[n..], next)
  }

  function Min(a: int, b: int): int {
    if a <= b then a else b
  }

  function TruncateGraphemes(u: Unicode, s: string, max: int): string {
    var cs := Clusters(u, s, -1);
    if max <= 0 then "" else Concat(cs[..Min(|cs|, max)])
  }

  /** How many leading clusters fit in a byte budget. */
  function Fit(cs: seq<string>, budget: int): (k: nat)
    ensures k <= |cs|
  {
    if cs == [] || ByteLen(cs[0]) > budget then 0 else 1 + Fit(cs[1..], budget - ByteLen(cs[0]))
  }

  function TruncateGraphemeBytes(u: Unicode, s: string, maxBytes: int): string {
    var cs := Clusters(u, s, -1);
    if maxBytes <= 0 then "" else Concat(cs[..Fit(cs, maxBytes)])
  }

  // ------------------------------------------------------------------ the two pipelines

  /** The album name before the length cap: everything up to and including the reserved-name step. */
  function TrimmedAlbum(u: Unicode, raw: string): string {
    SuffixReserved(TrimDotsAndSpaces(CollapseWhitespace(StripForbidden(u.nfc(raw)))))
  }

  function SanitizeAlbum(u: Unicode, raw: string): string {
    var s := TrimDotsAndSpaces(TruncateGraphemes(u, TrimmedAlbum(u, raw), MAX_ALBUM_GRAPHEMES));
    if s == "" then ALBUM_FALLBACK else s
  }

  function LastPathSegment(s: string): string {
    var i := LastIndexAny(s, {'/', '\\'});
    if i >= 0 then s[i + 1..] else s
  }

  function SplitExt(s: string): (r: (string, string))
    ensures r.0 + r.1 == s
  {
    var i := LastIndexOf(s, '.');
    if i <= 0 then (s, "") else (s[..i], s[i..])
  }

  function FitFilename(u: Unicode, stem: string, ext: string): string {
    if ByteLen(ext) >= MAX_FILENAME_BYTES then TruncateGraphemeBytes(u, ext, MAX_FILENAME_BYTES)
    else if ByteLen(stem) + ByteLen(ext) > MAX_FILENAME_BYTES then
      TrimDotsAndSpaces(TruncateGraphemeBytes(u, stem, MAX_FILENAME_BYTES - ByteLen(ext))) + ext
    else stem + ext
  }

  /** The file name before it is fitted to the byte cap. */
  function TrimmedFilename(u: Unicode, raw: string): string {
    TrimDotsAndSpaces(CollapseWhitespace(StripForbidden(LastPathSegment(u.nfc(raw)))))
  }

  function SanitizeFilename(u: Unicode, raw: string): string {
    var (stem, ext) := SplitExt(TrimmedFilename(u, raw));
    var s := FitFilename(u, SuffixReserved(stem), ext);
    if s == "" then FILENAME_FALLBACK else s
  }

  function SuffixedFilename(u: Unicode, filename: string, hash: string): string {
    if |hash| < COLLISION_HEX_LEN then filename
    else
      var (stem, ext) := SplitExt(filename);
      FitFilename(u, stem + COLLISION_SEP + hash[..COLLISION_HEX_LEN], ext)
  }

  // ------------------------------------------------------------------ the loops

  /** Reading one more character extends the collapsed text the way the loop does. */
  lemma {:induction false} CollapseSnoc(s: string, c: char)
    ensures IsSpace(c) ==> CollapseWhitespace(s + [c]) == CollapseWhitespace(s)
    ensures !IsSpace(c) && s != "" && IsSpace(s[|s| - 1]) && CollapseWhitespace(s) != "" ==>
              CollapseWhitespace(s + [c]) == CollapseWhitespace(s) + [' ', c]
    ensures !IsSpace(c) && (s == "" || !IsSpace(s[|s| - 1]) || CollapseWhitespace(s) == "") ==>
              CollapseWhitespace(s + [c]) == CollapseWhitespace(s) + [c]
  {
    var t := s + [c];
    assert t[..|t| - 1] == s;
    FieldsNonEmpty(s);
    var fs := Fields(s);
    if fs != [] {
      JoinEmpty(fs);
      JoinSnoc(fs, [c]);
      JoinExtend(fs, c);
    }
  }

  lemma {:induction false} FieldsNonEmpty(s: string)
    ensures forall f :: f in Fields(s) ==> f != ""
    ensures s != "" && !IsSpace(s[|s| - 1]) ==> Fields(s) != []
  {
    if s != "" {
      var before := Fields(s[..|s| - 1]);
      FieldsNonEmpty(s[..|s| - 1]);
      forall f | f in Fields(s)
        ensures f != ""
      {
        var i :| 0 <= i < |Fields(s)| && Fields(s)[i] == f;
        assert i < |before| ==> before[i] in before;
      }
    }
  }

  lemma JoinEmpty(fs: seq<string>)
    requires fs != [] && forall f :: f in fs ==> f != ""
    ensures Join(fs, ' ') != ""
  {
    assert fs[0] in fs;
  }

  lemma {:induction false} JoinSnoc(fs: seq<string>, g: string)
    requires fs != []
    ensures Join(fs + [g], ' ') == Join(fs, ' ') + [' '] + g
  {
    if |fs| == 1 {
      assert (fs + [g])[1..] == [g];
    } else {
      assert (fs + [g])[1..] == fs[1..] + [g];
      JoinSnoc(fs[1..], g);
    }
  }

  lemma {:induction false} JoinExtend(fs: seq<string>, c: char)
    requires fs != []
    ensures Join(fs[..|fs| - 1] + [fs[|fs| - 1] + [c]], ' ') == Join(fs, ' ') + [c]
  {
    var gs := fs[..|fs| - 1] + [fs[|fs| - 1] + [c]];
    if |fs| > 1 {
      assert gs[1..] == fs[1..][..|fs| - 2] + [fs[1..][|fs| - 2] + [c]];
      JoinExtend(fs[1..], c);
    }
  }

  /** The one-pass loop writes exactly the fields joined by single spaces. */
  method CollapseWhitespaceLoop(s: string) returns (b: string)
    ensures b == CollapseWhitespace(s)
  {
    b := "";
    var inRun := false;
    for i := 0 to |s|
      invariant b == CollapseWhitespace(s[..i])
      invariant inRun == (i > 0 && IsSpace(s[i - 1]))
    {
      assert s[..i + 1] == s[..i] + [s[i]];
      CollapseSnoc(s[..i], s[i]);
      if IsSpace(s[i]) {
        inRun := true;
      } else {
        if inRun && b != "" {
          b := b + " ";
        }
        inRun := false;
        b := b + [s[i]];
      }
    }
    assert s[..|s|] == s;
  }

  lemma {:induction false} ConcatClusters(u: Unicode, s: string, st: int)
    ensures Concat(Clusters(u, s, st)) == s
    decreases |s|
  {
    if s != "" {
      var (n, next) := u.cluster(s, st);
      ConcatClusters(u, s[n..], next);
    }
  }

  lemma {:induction false} ConcatAppend(a: seq<string>, b: seq<string>)
    ensures Concat(a + b) == Concat(a) + Concat(b)
  {
    if a == [] {
      assert a + b == b;
    } else {
      assert (a + b)[1..] == a[1..] + b;
      ConcatAppend(a[1..], b);
    }
  }

  /** What one call of the segmenter adds to the clusters already read. */
  lemma NextCluster(u: Unicode, cs: seq<string>, k: nat, rest: string, st: int)
    requires rest != "" && k <= |cs| && cs[k..] == Clusters(u, rest, st)
    ensures var (n, next) := u.cluster(rest, st);
            k < |cs| && cs[k] == rest[..n] && cs[k + 1..] == Clusters(u, rest[n..], next)
            && Concat(cs[..k + 1]) == Concat(cs[..k]) + rest[..n]
  {
    assert cs[k] == cs[k..][0] && cs[k + 1..] == cs[k..][1..];
    assert cs[..k + 1] == cs[..k] + [cs[k]];
    ConcatAppend(cs[..k], [cs[k]]);
    assert Concat([cs[k]]) == cs[k];
  }

  /** The loop stops after exactly min(max, all) clusters. */
  method TruncateGraphemesLoop(u: Unicode, s: string, max: int) returns (r: string)
    ensures r == TruncateGraphemes(u, s, max)
  {
    if max <= 0 {
      return "";
    }
    var count, end, state, rest := 0, 0, -1, s;
    ghost var cs := Clusters(u, s, -1);
    ConcatClusters(u, s, -1);
    while rest != ""
      invariant 0 <= end <= |s| && rest == s[end..]
      invariant 0 <= count <= max && count <= |cs|
      invariant cs[count..] == Clusters(u, rest, state)
      invariant Concat(cs[..count]) == s[..end]
      decreases |rest|
    {
      if count == max {
        return s[..end];
      }
      var (n, next) := u.cluster(rest, state);
      NextCluster(u, cs, count, rest, state);
      assert s[..end + n] == s[..end] + rest[..n];
      end, rest, state := end + n, rest[n..], next;
      count := count + 1;
    }
    assert cs[..count] == cs && cs[..Min(|cs|, max)] == cs;
    r := s;
  }

  /**
   * Having read s up to end, the loop has kept its first k clusters, and what fits is those and what fits of
   * the rest.
   */
  ghost predicate KeptSoFar(u: Unicode, s: string, cs: seq<string>, maxBytes: int, k: nat, end: nat, state: int) {
    && end <= |s| && k <= |cs|
    && cs[k..] == Clusters(u, s[end..], state) && Concat(cs[..k]) == s[..end]
    && ByteLen(s[..end]) <= maxBytes && Fit(cs, maxBytes) == k + Fit(cs[k..], maxBytes - ByteLen(s[..end]))
  }

  lemma NothingRead(u: Unicode, s: string, maxBytes: nat)
    ensures KeptSoFar(u, s, Clusters(u, s, -1), maxBytes, 0, 0, -1)
  {
    hide Clusters, Fit;
    var cs := Clusters(u, s, -1);
    NoBytes();
    NoClusters(u);
    assert cs[..0] == [] && cs[0..] == cs && s[..0] == "" && s[0..] == s;
  }

  /** One more cluster is kept, or it is the first that does not fit. */
  lemma OneMoreRead(u: Unicode, s: string, cs: seq<string>, maxBytes: int, k: nat, end: nat, state: int)
    requires KeptSoFar(u, s, cs, maxBytes, k, end, state) && end < |s|
    ensures var (n, next) := u.cluster(s[end..], state);
            && end + n <= |s|
            && (ByteLen(s[..end + n]) > maxBytes ==> Fit(cs, maxBytes) == k)
            && (ByteLen(s[..end + n]) <= maxBytes ==> KeptSoFar(u, s, cs, maxBytes, k + 1, end + n, next))
  {
    hide Clusters, Concat, Utf8Len, ByteLen;
    var rest := s[end..];
    var (n, next) := u.cluster(rest, state);
    NextCluster(u, cs, k, rest, state);
    assert s[..end + n] == s[..end] + rest[..n] && rest[n..] == s[end + n..];
    ByteLenAppend(s[..end], rest[..n]);
    assert cs[k..][0] == cs[k] && cs[k..][1..] == cs[k + 1..];
  }

  lemma AllRead(u: Unicode, s: string, cs: seq<string>, maxBytes: int, k: nat, end: nat, state: int)
    requires KeptSoFar(u, s, cs, maxBytes, k, end, state) && end == |s|
    ensures Fit(cs, maxBytes) == k && Concat(cs[..k]) == s[..end]
  {
    hide Clusters, Concat, ByteLen;
    NoClusters(u);
    assert s[end..] == "";
  }

  /** The loop stops before the first cluster that would pass the cap. */
  method TruncateGraphemeBytesLoop(u: Unicode, s: string, maxBytes: int) returns (r: string)
    ensures r == TruncateGraphemeBytes(u, s, maxBytes)
  {
    if maxBytes <= 0 {
      return "";
    }
    ghost var cs := Clusters(u, s, -1);
    if ByteLen(s) <= maxBytes {
      AllFits(u, s, maxBytes);
      return s;
    }
    var end, state, rest := 0, -1, s;
    ghost var k := 0;
    NothingRead(u, s, maxBytes);
    hide Clusters, Concat, Fit, ByteLen, KeptSoFar;
    while rest != ""
      invariant 0 <= end <= |s| && rest == s[end..] && 0 <= k <= |cs|
      invariant KeptSoFar(u, s, cs, maxBytes, k, end, state)
      decreases |rest|
    {
      OneMoreRead(u, s, cs, maxBytes, k, end, state);
      KeptConcat(u, s, cs, maxBytes, k, end, state);
      var (n, next) := u.cluster(rest, state);
      var next2 := end + n;
      if ByteLen(s[..next2]) > maxBytes {
        return s[..end];
      }
      KeptConcat(u, s, cs, maxBytes, k + 1, next2, next);
      end, rest, state := next2, rest[n..], next;
      k := k + 1;
    }
    AllRead(u, s, cs, maxBytes, k, end, state);
    r := s[..end];
  }

  lemma KeptConcat(u: Unicode, s: string, cs: seq<string>, maxBytes: int, k: nat, end: nat, state: int)
    requires KeptSoFar(u, s, cs, maxBytes, k, end, state)
    ensures end <= |s| && k <= |cs| && Concat(cs[..k]) == s[..end]
  {
  }

  lemma AllFits(u: Unicode, s: string, maxBytes: int)
    requires 0 < maxBytes && ByteLen(s) <= maxBytes
    ensures TruncateGraphemeBytes(u, s, maxBytes) == s
  {
    hide Clusters, Concat, Fit, ByteLen;
    var cs := Clusters(u, s, -1);
    ConcatClusters(u, s, -1);
    FitAll(cs, maxBytes);
    assert cs[..|cs|] == cs;
  }

  lemma NoClusters(u: Unicode)
    ensures Concat([]) == "" && forall st :: Clusters(u, "", st) == []
  {
  }

  lemma {:induction false} FitAll(cs: seq<string>, budget: int)
    requires ByteLen(Concat(cs)) <= budget
    ensures Fit(cs, budget) == |cs|
  {
    if cs != [] {
      ByteLenAppend(cs[0], Concat(cs[1..]));
      FitAll(cs[1..], budget - ByteLen(cs[0]));
    }
  }

  /** len(s) == 64 and every byte a lower-case hex digit. */
  predicate ValidHash(s: string) {
    |s| == 64 && forall i :: 0 <= i < |s| ==> IsHex(s[i])
  }

  predicate IsHex(c: char) {
    '0' <= c <= '9' || 'a' <= c <= 'f'
  }

  method ValidHashLoop(s: string) returns (ok: bool)
    ensures ok == ValidHash(s)
    ensures ok <==> |s| == 64 && forall c :: c in s ==> '0' <= c <= '9' || 'a' <= c <= 'f'
  {
    ByteLenBounds(s);
    assert forall k :: 0 <= k < |s| ==> s[k] in s;
    if ByteLen(s) != 64 {
      // A string of 64 hex digits is ASCII, so it has 64 bytes.
      assert ValidHash(s) ==> Ascii(s);
      return false;
    }
    for i := 0 to |s|
      invariant forall k :: 0 <= k < i ==> IsHex(s[k])
    {
      var c := s[i];
      if (c < '0' || c > '9') && (c < 'a' || c > 'f') {
        return false;
      }
    }
    assert Ascii(s);
    ok := true;
  }
}
