/** Drawing a pairing code: every code is as likely as any other. */
module CodeDraws {
  import opened Text

  const CODE_DIGITS := 6

  /** How often IssueCode draws before it gives up. */
  const ISSUE_RETRIES := 3

  const SPACE := 1_000_000
  const DRAWS := 0x1_0000_0000

  /** The largest multiple of the space that a draw can reach: anything from it on is drawn again. */
  const LIMIT := DRAWS - DRAWS % SPACE

  /** One read of four random bytes, which may fail. */
  datatype Read = Bytes(b0: nat, b1: nat, b2: nat, b3: nat) | ReadFailed

  predicate Octets(r: Read) {
    r.Bytes? ==> r.b0 < 256 && r.b1 < 256 && r.b2 < 256 && r.b3 < 256
  }

  function BigEndian(r: Read): (v: nat)
    requires r.Bytes?
  {
    ((r.b0 * 256 + r.b1) * 256 + r.b2) * 256 + r.b3
  }

  function Octet(v: nat): Read {
    var w := v / 256;
    Bytes(w / 256 / 256, w / 256 % 256, w % 256, v % 256)
  }

  /** Four octets are a draw, and every draw is one reading of four octets. */
  lemma DrawsAreReads(v: nat, r: Read)
    requires v < DRAWS
    ensures r.Bytes? && Octets(r) && BigEndian(r) == v <==> r == Octet(v)
    ensures Octet(v) == Bytes(v / 0x100_0000, v / 0x1_0000 % 256, v / 0x100 % 256, v % 256)
  {
    if r.Bytes? && Octets(r) && BigEndian(r) == v {
      Digit256((r.b0 * 256 + r.b1) * 256 + r.b2, r.b3);
      Digit256(r.b0 * 256 + r.b1, r.b2);
      Digit256(r.b0, r.b1);
    }
  }

  lemma Digit256(a: nat, b: nat)
    requires b < 256
    ensures (a * 256 + b) / 256 == a && (a * 256 + b) % 256 == b
  {
  }

  function Print(v: nat): string {
    ZeroPadded(v % SPACE, CODE_DIGITS)
  }

  datatype Drawn = Code(value: string) | Failed | StillDrawing

  /** The first read that fails or is below the limit decides. */
  function Generated(draws: seq<Read>): Drawn
    decreases |draws|
  {
    if draws == [] then StillDrawing
    else if draws[0].ReadFailed? then Failed
    else if BigEndian(draws[0]) >= LIMIT then Generated(draws[1..])
    else Code(Print(BigEndian(draws[0])))
  }

  /** The retry loop, over the draws the random source gives. */
  method GeneratePairingCode(draws: seq<Read>) returns (r: Drawn)
    ensures r == Generated(draws)
    ensures r.Code? ==> |r.value| == 6 && Digits(r.value)
    ensures r == StillDrawing <==> forall q :: q in draws ==> q.Bytes? && BigEndian(q) >= LIMIT
  {
    hide BigEndian, ZeroPadded, DecimalValue, Generated;
    r := StillDrawing;
    var i := 0;
    assert draws[0..] == draws;
    while i < |draws|
      invariant 0 <= i <= |draws|
      invariant forall q :: q in draws[..i] ==> q.Bytes? && BigEndian(q) >= LIMIT
      invariant Generated(draws) == Generated(draws[i..])
    {
      assert draws[i] in draws;
      OneRead(draws, i);
      if draws[i].ReadFailed? {
        return Failed;
      }
      var v := BigEndian(draws[i]);
      if v >= LIMIT {
        assert draws[..i + 1] == draws[..i] + [draws[i]];
        i := i + 1;
        continue;
      }
      PrintFits(v);
      return Code(ZeroPadded(v % SPACE, CODE_DIGITS));
    }
    assert draws[..|draws|] == draws && draws[|draws|..] == [];
    NoReadLeft();
  }

  /** The deciding read, in numbers: all before it are too large, and the code is its remainder, in six digits. */
  lemma {:induction false} GeneratedFrom(draws: seq<Read>) returns (i: nat)
    ensures i <= |draws| && forall q :: q in draws[..i] ==> q.Bytes? && BigEndian(q) >= 4_294_000_000
    ensures match Generated(draws)
            case StillDrawing => i == |draws|
            case Failed => i < |draws| && draws[i].ReadFailed?
            case Code(value) =>
              && i < |draws| && draws[i].Bytes? && BigEndian(draws[i]) < 4_294_000_000
              && |value| == 6 && Digits(value) && DecimalValue(value) == BigEndian(draws[i]) % 1_000_000
    decreases |draws|
  {
    hide BigEndian, ZeroPadded, DecimalValue, Digits, Print;
    i := 0;
    if draws != [] && draws[0].Bytes? {
      if BigEndian(draws[0]) >= LIMIT {
        i := GeneratedFrom(draws[1..]);
        assert draws[..i + 1] == [draws[0]] + draws[1..][..i];
        i := i + 1;
      } else {
        PrintFits(BigEndian(draws[0]));
      }
    }
  }

  lemma OneRead(draws: seq<Read>, i: nat)
    requires i < |draws|
    ensures Generated(draws[i..]) ==
            if draws[i].ReadFailed? then Failed
            else if BigEndian(draws[i]) >= LIMIT then Generated(draws[i + 1..])
            else Code(Print(BigEndian(draws[i])))
  {
    hide BigEndian, Print;
    assert draws[i..][0] == draws[i] && draws[i..][1..] == draws[i + 1..];
  }

  lemma NoReadLeft()
    ensures Generated([]) == StillDrawing
  {
  }

  lemma SpaceIsPow10()
    ensures Pow10(CODE_DIGITS) == SPACE
  {
    assert Pow10(1) == 10 && Pow10(2) == 100 && Pow10(3) == 1000;
    assert Pow10(4) == 10_000 && Pow10(5) == 100_000;
  }

  /** Accepts exactly the strings that are printed for the numbers below a million. */
  method ValidCodeFormat(s: string) returns (ok: bool)
    ensures ok <==> exists v: nat :: v < SPACE && s == Print(v)
    ensures ok <==> |s| == 6 && forall c :: c in s ==> '0' <= c <= '9'
  {
    forall v: nat | v < SPACE
      ensures |Print(v)| == CODE_DIGITS && Digits(Print(v))
    {
      PrintFits(v);
    }
    hide Print;
    if |s| != CODE_DIGITS {
      return false;
    }
    var i := 0;
    while i < |s|
      invariant 0 <= i <= |s| && forall j :: 0 <= j < i ==> '0' <= s[j] <= '9'
    {
      if s[i] < '0' || s[i] > '9' {
        assert s[i] in s;
        return false;
      }
      i := i + 1;
    }
    ok := true;
    CodesArePrinted(s);
  }

  lemma PrintFits(v: nat)
    ensures |Print(v)| == CODE_DIGITS && Digits(Print(v)) && DecimalValue(Print(v)) == v % SPACE
  {
    hide ZeroPadded, DecimalValue, Pow10;
    SpaceIsPow10();
    ZeroPaddedValue(v % SPACE, CODE_DIGITS);
  }

  /** Every code is printed, for the number it reads as. */
  lemma CodesArePrinted(code: string)
    requires |code| == CODE_DIGITS && Digits(code)
    ensures DecimalValue(code) < SPACE && Print(DecimalValue(code)) == code
  {
    hide ZeroPadded, DecimalValue, Pow10;
    SpaceIsPow10();
    DecimalValuePrints(code);
  }

  // ------------------------------------------------------------------ uniformity

  predicate Leaves(v: nat, space: nat, r: nat)
    requires space > 0
  {
    v % space == r
  }

  /** The draws below a bound that are folded to one residue. */
  function Preimages(bound: nat, space: nat, r: nat): set<nat>
    requires space > 0
  {
    set v: nat | v < bound && Leaves(v, space, r)
  }

  lemma NextMultiple(q: nat, space: nat, r: nat, v: nat)
    requires space > 0 && r < space && q * space <= v < q * space + space
    ensures v % space == r <==> v == q * space + r
  {
    ModOf(q, space, v - q * space);
  }

  lemma {:induction false} ModOf(q: nat, space: nat, r: nat)
    requires r < space
    ensures (q * space + r) % space == r
    decreases q
  {
    if q > 0 {
      ModOf(q - 1, space, r);
      assert q * space + r == (q - 1) * space + r + space;
      ModPlus((q - 1) * space + r, space);
    }
  }

  lemma ModPlus(n: nat, space: nat)
    requires space > 0
    ensures (n + space) % space == n % space
  {
    var a, b := (n + space) / space, n / space;
    assert n + space == a * space + (n + space) % space && n == b * space + n % space;
    assert (a - b - 1) * space == n % space - (n + space) % space;
    if a - b - 1 >= 1 {
      Larger(a - b - 1, space);
    } else if a - b - 1 <= -1 {
      Larger(b + 1 - a, space);
    }
  }

  lemma Larger(k: int, space: nat)
    requires k >= 1
    ensures k * space >= space
  {
  }

  /** Below a multiple of the space every residue is hit equally often. */
  lemma {:induction false} EquallyOften(q: nat, space: nat, r: nat)
    requires space > 0 && r < space
    ensures |Preimages(q * space, space, r)| == q
    decreases q
  {
    if q == 0 {
      assert Preimages(0, space, r) == {};
    } else {
      EquallyOften(q - 1, space, r);
      var below, next := Preimages((q - 1) * space, space, r), (q - 1) * space + r;
      assert q * space == (q - 1) * space + space;
      forall v: nat
        ensures v in Preimages(q * space, space, r) <==> v in below + {next}
      {
        if (q - 1) * space <= v < q * space {
          NextMultiple(q - 1, space, r, v);
        }
        assert Leaves(v, space, r) <==> v % space == r;
        if v == next {
          NextMultiple(q - 1, space, r, v);
        }
      }
      assert Preimages(q * space, space, r) == below + {next};
    }
  }

  /**
   * Rejection sampling is exactly uniform: of the draws 0, ..., draws - 1 that stay below draws - draws % space,
   * precisely draws / space are folded to any one residue, and fewer than space are drawn again.
   */
  lemma Uniform(draws: nat, space: nat, r: nat)
    requires space > 0 && r < space
    ensures |Preimages(draws - draws % space, space, r)| == draws / space
    ensures draws % space < space
  {
    assert draws - draws % space == (draws / space) * space;
    EquallyOften(draws / space, space, r);
  }

  /** The accepted draws that give one code. */
  ghost function DrawsOf(code: string): set<nat> {
    set v: nat | v < LIMIT && Print(v) == code
  }

  /** Each of the million codes comes from exactly 4294 accepted draws. */
  lemma EveryCodeEquallyLikely(code: string)
    requires |code| == CODE_DIGITS && Digits(code)
    ensures |DrawsOf(code)| == 4294
  {
    CodesArePrinted(code);
    hide Print, DecimalValue;
    var r := DecimalValue(code);
    Uniform(DRAWS, SPACE, r);
    forall v: nat
      ensures v in DrawsOf(code) <==> v in Preimages(LIMIT, SPACE, r)
    {
      assert Leaves(v, SPACE, r) <==> v % SPACE == r;
      PrintFits(v);
      PrintFolds(v);
    }
    assert DrawsOf(code) == Preimages(LIMIT, SPACE, r);
  }

  lemma PrintFolds(v: nat)
    ensures Print(v) == Print(v % SPACE)
  {
    hide ZeroPadded;
  }

  /** A code that is drawn comes from one of its accepted draws. */
  lemma {:induction false} GeneratedIsAccepted(draws: seq<Read>)
    ensures Generated(draws).Code? ==>
              exists q :: q in draws && q.Bytes? && BigEndian(q) in DrawsOf(Generated(draws).value)
    decreases |draws|
  {
    hide Print, BigEndian;
    if draws != [] && draws[0].Bytes? {
      if BigEndian(draws[0]) < LIMIT {
        assert draws[0] in draws && BigEndian(draws[0]) in DrawsOf(Generated(draws).value);
      } else {
        GeneratedIsAccepted(draws[1..]);
        assert forall q :: q in draws[1..] ==> q in draws;
      }
    }
  }
}
