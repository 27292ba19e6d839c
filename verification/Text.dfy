/** Strings as the library package uses them: sequences of Unicode scalar values, measured in UTF-8 bytes. */
module Text {

  /** The number of bytes UTF-8 spends on one scalar value. */
  function Utf8Len(c: char): (n: nat)
    ensures 1 <= n <= 4
  {
    if c < '\U{80}' then 1 else if c < '\U{800}' then 2 else if c < '\U{10000}' then 3 else 4
  }

  /** Go's len(s). */
  function ByteLen(s: string): nat {
    if s == "" then 0 else Utf8Len(s[0]) + ByteLen(s[1..])
  }

  lemma NoBytes()
    ensures ByteLen("") == 0
  {
  }

  lemma {:induction false} ByteLenAppend(a: string, b: string)
    ensures ByteLen(a + b) == ByteLen(a) + ByteLen(b)
  {
    if a == "" {
      assert a + b == b;
    } else {
      assert (a + b)[1..] == a[1..] + b;
      ByteLenAppend(a[1..], b);
    }
  }

  /** A string is never shorter in bytes than in characters, and equally long when it is ASCII. */
  lemma {:induction false} ByteLenBounds(s: string)
    ensures |s| <= ByteLen(s)
    ensures Ascii(s) ==> ByteLen(s) == |s|
  {
    if s != "" {
      assert s[0] in s && forall c :: c in s[1..] ==> c in s;
      ByteLenBounds(s[1..]);
    }
  }

  /** A slice is never longer in bytes than the whole. */
  lemma ByteLenSlice(s: string, i: nat, j: nat)
    requires i <= j <= |s|
    ensures ByteLen(s[i..j]) <= ByteLen(s)
    ensures ByteLen(s) == ByteLen(s[..i]) + ByteLen(s[i..j]) + ByteLen(s[j..])
  {
    hide ByteLen;
    var a, b, c := s[..i], s[i..j], s[j..];
    assert s == a + (b + c);
    ByteLenAppend(a, b + c);
    ByteLenAppend(b, c);
  }

  predicate Ascii(s: string) {
    forall c :: c in s ==> c < '\U{80}'
  }

  /** ASCII with no control characters. */
  predicate Printable(s: string) {
    forall c :: c in s ==> ' ' <= c < '\U{80}'
  }

  /** The index of the last c in s, or -1: strings.LastIndexByte. */
  function LastIndexOf(s: string, c: char): (i: int)
    ensures -1 <= i < |s|
    ensures i >= 0 ==> s[i] == c
    ensures forall k :: i < k < |s| ==> s[k] != c
  {
    if s == "" then -1
    else if s[|s| - 1] == c then |s| - 1
    else LastIndexOf(s[..|s| - 1], c)
  }

  /** The last index at which s holds an element of cs, or -1: strings.LastIndexAny. */
  function LastIndexAny(s: string, cs: set<char>): (i: int)
    ensures -1 <= i < |s|
    ensures i >= 0 ==> s[i] in cs
    ensures forall k :: i < k < |s| ==> s[k] !in cs
  {
    if s == "" then -1
    else if s[|s| - 1] in cs then |s| - 1
    else LastIndexAny(s[..|s| - 1], cs)
  }

  /** strings.Split(s, sep) for a one-character separator: always at least one piece. */
  function Split(s: string, sep: char): (pieces: seq<string>)
    ensures pieces != []
    ensures forall p :: p in pieces ==> sep !in p
  {
    if s == "" then [""]
    else
      var rest := Split(s[1..], sep);
      if s[0] == sep then [""] + rest else [[s[0]] + rest[0]] + rest[1..]
  }

  function Join(pieces: seq<string>, sep: char): string {
    if pieces == [] then ""
    else if |pieces| == 1 then pieces[0]
    else pieces[0] + [sep] + Join(pieces[1..], sep)
  }

  /** Splitting what was joined gives the pieces back, when no piece holds the separator. */
  lemma {:induction false} SplitJoin(pieces: seq<string>, sep: char)
    requires pieces != [] && forall p :: p in pieces ==> sep !in p
    ensures Split(Join(pieces, sep), sep) == pieces
  {
    if |pieces| == 1 {
      SplitNone(pieces[0], sep);
    } else {
      SplitJoin(pieces[1..], sep);
      SplitFirst(pieces[0], Join(pieces[1..], sep), sep);
    }
  }

  lemma {:induction false} SplitNone(s: string, sep: char)
    requires sep !in s
    ensures Split(s, sep) == [s]
  {
    if s != "" {
      assert s[0] in s && [s[0]] + s[1..] == s;
      SplitNone(s[1..], sep);
    }
  }

  lemma {:induction false} SplitFirst(a: string, b: string, sep: char)
    requires sep !in a
    ensures Split(a + [sep] + b, sep) == [a] + Split(b, sep)
  {
    var s := a + [sep] + b;
    if a == "" {
      assert s[1..] == b;
    } else {
      assert a[0] in a && [a[0]] + a[1..] == a && s[1..] == a[1..] + [sep] + b;
      SplitFirst(a[1..], b, sep);
      assert Split(s[1..], sep)[1..] == Split(b, sep);
    }
  }

  /** Joining what was split gives the string back. */
  lemma {:induction false} JoinSplit(s: string, sep: char)
    ensures Join(Split(s, sep), sep) == s
  {
    if s != "" {
      JoinSplit(s[1..], sep);
      var rest := Split(s[1..], sep);
      if s[0] == sep {
        assert ([""] + rest)[1..] == rest;
      } else if |rest| > 1 {
        assert ([[s[0]] + rest[0]] + rest[1..])[1..] == rest[1..];
      }
    }
  }

  /** Strict lexical order, the one a file manager and SQLite's BINARY collation sort by. */
  predicate Lt(a: string, b: string) {
    b != "" && (a == "" || a[0] < b[0] || (a[0] == b[0] && Lt(a[1..], b[1..])))
  }

  /** The first difference decides, and a proper prefix comes first. */
  lemma {:induction false} LtByFirstDifference(a: string, b: string)
    ensures Lt(a, b) <==> exists k :: 0 <= k <= |a| && k < |b| && a[..k] == b[..k] && (k == |a| || a[k] < b[k])
  {
    if a != "" && b != "" && a[0] == b[0] {
      LtByFirstDifference(a[1..], b[1..]);
      if Lt(a, b) {
        var k :| 0 <= k <= |a[1..]| && k < |b[1..]| && a[1..][..k] == b[1..][..k]
            && (k == |a[1..]| || a[1..][k] < b[1..][k]);
        assert a[..k + 1] == [a[0]] + a[1..][..k] && b[..k + 1] == [b[0]] + b[1..][..k];
        assert k + 1 == |a| || a[k + 1] < b[k + 1];
      }
      if k :| 0 <= k <= |a| && k < |b| && a[..k] == b[..k] && (k == |a| || a[k] < b[k]) {
        assert k > 0;
        assert a[1..][..k - 1] == a[..k][1..] && b[1..][..k - 1] == b[..k][1..];
        assert k - 1 == |a[1..]| || a[1..][k - 1] < b[1..][k - 1];
      }
    } else if Lt(a, b) {
      assert a[..0] == b[..0];
    } else if k :| 0 <= k <= |a| && k < |b| && a[..k] == b[..k] && (k == |a| || a[k] < b[k]) {
      assert k > 0 ==> a[..k][0] == b[..k][0];
    }
  }

  lemma {:induction false} LtTotal(a: string, b: string)
    ensures !Lt(a, a)
    ensures a == b || Lt(a, b) || Lt(b, a)
    ensures !(Lt(a, b) && Lt(b, a))
  {
    if a != "" {
      LtTotal(a[1..], if b == "" then "" else b[1..]);
    }
  }

  lemma {:induction false} LtTransitive(a: string, b: string, c: string)
    requires Lt(a, b) && Lt(b, c)
    ensures Lt(a, c)
  {
    if a != "" && a[0] == b[0] == c[0] {
      LtTransitive(a[1..], b[1..], c[1..]);
    }
  }

  /** A common prefix does not affect the order. */
  lemma {:induction false} LtPrefix(p: string, a: string, b: string)
    ensures Lt(p + a, p + b) == Lt(a, b)
  {
    if p == "" {
      assert p + a == a && p + b == b;
    } else {
      assert (p + a)[1..] == p[1..] + a && (p + b)[1..] == p[1..] + b;
      LtPrefix(p[1..], a, b);
    }
  }

  /** Once two strings of one length differ, whatever follows them no longer matters. */
  lemma {:induction false} LtDecided(a: string, b: string, x: string, y: string)
    requires |a| == |b| && Lt(a, b)
    ensures Lt(a + x, b + y)
  {
    if a[0] == b[0] {
      assert (a + x)[1..] == a[1..] + x && (b + y)[1..] == b[1..] + y;
      LtDecided(a[1..], b[1..], x, y);
    }
  }

  function DigitChar(d: nat): (c: char)
    requires d < 10
    ensures '0' <= c <= '9'
  {
    '0' + d as char
  }

  function DigitValue(c: char): (d: nat)
    requires '0' <= c <= '9'
    ensures d < 10 && DigitChar(d) == c
  {
    c as int - '0' as int
  }

  predicate Digits(s: string) {
    forall i :: 0 <= i < |s| ==> '0' <= s[i] <= '9'
  }

  /** The value a run of decimal digits denotes. */
  function DecimalValue(s: string): nat
    requires Digits(s)
  {
    if s == "" then 0 else DecimalValue(s[..|s| - 1]) * 10 + DigitValue(s[|s| - 1])
  }

  /** fmt.Sprintf("%0*d", width, n) for a natural number: at least width digits. */
  function ZeroPadded(n: nat, width: nat): (s: string)
    ensures |s| >= width && (width > 0 || n > 0 ==> s != "")
    ensures Digits(s)
    decreases width, n
  {
    if width == 0 && n == 0 then ""
    else ZeroPadded(n / 10, if width == 0 then 0 else width - 1) + [DigitChar(n % 10)]
  }

  function Pow10(k: nat): nat {
    if k == 0 then 1 else 10 * Pow10(k - 1)
  }

  /** Printing is undone by reading, and uses exactly the asked-for width when the number fits. */
  lemma {:induction false} ZeroPaddedValue(n: nat, width: nat)
    ensures DecimalValue(ZeroPadded(n, width)) == n
    ensures n < Pow10(width) ==> |ZeroPadded(n, width)| == width
    decreases width, n
  {
    if width > 0 || n > 0 {
      var w := if width == 0 then 0 else width - 1;
      ZeroPaddedValue(n / 10, w);
      var s := ZeroPadded(n, width);
      assert s[..|s| - 1] == ZeroPadded(n / 10, w);
    }
  }

  /** Reading is undone by printing at the same width. */
  lemma {:induction false} DecimalValuePrints(s: string)
    requires Digits(s)
    ensures DecimalValue(s) < Pow10(|s|)
    ensures ZeroPadded(DecimalValue(s), |s|) == s
  {
    if s != "" {
      DecimalValuePrints(s[..|s| - 1]);
    }
  }

  /** Zero-padded numbers of one width sort as numbers do. */
  lemma {:induction false} ZeroPaddedOrder(a: nat, b: nat, width: nat)
    requires a < b < Pow10(width)
    ensures Lt(ZeroPadded(a, width), ZeroPadded(b, width))
  {
    hide Lt, DigitChar;
    ZeroPaddedValue(a / 10, width - 1);
    ZeroPaddedValue(b / 10, width - 1);
    var x, y := ZeroPadded(a / 10, width - 1), ZeroPadded(b / 10, width - 1);
    if a / 10 < b / 10 {
      ZeroPaddedOrder(a / 10, b / 10, width - 1);
    }
    DigitOrder(a, b);
    SnocOrder(x, y, DigitChar(a % 10), DigitChar(b % 10));
  }

  lemma DigitOrder(a: nat, b: nat)
    requires a < b
    ensures a / 10 <= b / 10
    ensures a / 10 == b / 10 ==> DigitChar(a % 10) < DigitChar(b % 10)
  {
  }

  lemma SnocOrder(x: string, y: string, c: char, d: char)
    requires |x| == |y| && (Lt(x, y) || (x == y && c < d))
    ensures Lt(x + [c], y + [d])
  {
    if Lt(x, y) {
      LtDecided(x, y, [c], [d]);
    } else {
      LtPrefix(x, [c], [d]);
    }
  }
}
