/** Fixed-width integers of the .NET runtime and the byte lanes the codecs
    cut them into.

    C#'s `(byte)x` keeps the low eight bits, `x >> n` on a signed value is an
    arithmetic shift, i.e. floor division by 2^n, and an unchecked conversion
    to a narrower signed type wraps modulo 2^bits. Dafny's `/` and `%` with a
    positive divisor are floor division and a non-negative remainder, so the
    three operations are written below with explicit constants. */
module Numeric {

  newtype uint8 = x: int | 0 <= x < 0x100
  newtype int8 = x: int | -0x80 <= x < 0x80
  newtype uint16 = x: int | 0 <= x < 0x1_0000
  newtype int16 = x: int | -0x8000 <= x < 0x8000
  newtype int32 = x: int | -0x8000_0000 <= x < 0x8000_0000
  newtype int64 = x: int | -0x8000_0000_0000_0000 <= x < 0x8000_0000_0000_0000

  const TWO_8: int := 0x100
  const TWO_16: int := 0x1_0000
  const TWO_32: int := 0x1_0000_0000
  const TWO_64: int := 0x1_0000_0000_0000_0000

  function Min(a: int, b: int): (m: int) { if a <= b then a else b }
  function Max(a: int, b: int): (m: int) { if a >= b then a else b }

  /** The cast `(byte)x`: the low eight bits. */
  function Lo8(x: int): (b: uint8)
    ensures b as int == x % TWO_8
    ensures 0 <= x < TWO_8 ==> b as int == x
  {
    (x % TWO_8) as uint8
  }

  /** Unchecked conversions to the signed widths: the unique value of the
      width congruent to `x`. */
  function Wrap8(x: int): (r: int8)
    ensures (r as int - x) % TWO_8 == 0
    ensures -0x80 <= x < 0x80 ==> r as int == x
  {
    ((x + 0x80) % TWO_8 - 0x80) as int8
  }

  function Wrap16(x: int): (r: int16)
    ensures (r as int - x) % TWO_16 == 0
    ensures -0x8000 <= x < 0x8000 ==> r as int == x
  {
    ((x + 0x8000) % TWO_16 - 0x8000) as int16
  }

  function Wrap32(x: int): (r: int32)
    ensures (r as int - x) % TWO_32 == 0
    ensures -0x8000_0000 <= x < 0x8000_0000 ==> r as int == x
  {
    ((x + 0x8000_0000) % TWO_32 - 0x8000_0000) as int32
  }

  function Wrap64(x: int): (r: int64)
    ensures (r as int - x) % TWO_64 == 0
    ensures -0x8000_0000_0000_0000 <= x < 0x8000_0000_0000_0000 ==> r as int == x
  {
    ((x + 0x8000_0000_0000_0000) % TWO_64 - 0x8000_0000_0000_0000) as int64
  }

  /** `(byte)(v >> 8), (byte)v`: two lanes, most significant first. */
  function Lanes2(v: int): (s: seq<uint8>)
    ensures |s| == 2
  {
    [Lo8(v / 0x100), Lo8(v)]
  }

  /** `(byte)(v >> 24), (byte)(v >> 16), (byte)(v >> 8), (byte)v`. */
  function Lanes4(v: int): (s: seq<uint8>)
    ensures |s| == 4
  {
    [Lo8(v / 0x100_0000), Lo8(v / 0x1_0000), Lo8(v / 0x100), Lo8(v)]
  }

  /** `(byte)(v >> 56)` down to `(byte)v`. */
  function Lanes8(v: int): (s: seq<uint8>)
    ensures |s| == 8
  {
    [Lo8(v / 0x100_0000_0000_0000), Lo8(v / 0x1_0000_0000_0000),
     Lo8(v / 0x100_0000_0000), Lo8(v / 0x1_0000_0000),
     Lo8(v / 0x100_0000), Lo8(v / 0x1_0000), Lo8(v / 0x100), Lo8(v)]
  }

  /** `(b0 << 8) | b1` over disjoint lanes, i.e. the unsigned big-endian value. */
  function Compose2(s: seq<uint8>): (u: int)
    requires |s| == 2
    ensures 0 <= u < TWO_16
  {
    s[0] as int * 0x100 + s[1] as int
  }

  function Compose4(s: seq<uint8>): (u: int)
    requires |s| == 4
    ensures 0 <= u < TWO_32
  {
    s[0] as int * 0x100_0000 + s[1] as int * 0x1_0000 + s[2] as int * 0x100 + s[3] as int
  }

  function Compose8(s: seq<uint8>): (u: int)
    requires |s| == 8
    ensures 0 <= u < TWO_64
  {
    s[0] as int * 0x100_0000_0000_0000 + s[1] as int * 0x1_0000_0000_0000
    + s[2] as int * 0x100_0000_0000 + s[3] as int * 0x1_0000_0000
    + s[4] as int * 0x100_0000 + s[5] as int * 0x1_0000 + s[6] as int * 0x100 + s[7] as int
  }

  // ---------------------------------------------------------------------
  // Division by consecutive powers of 256: each is one more byte shifted out.

  lemma {:induction false} ShiftOneMore(x: int, d: int, q: int)
    requires d == 0x100 || d == 0x1_0000 || d == 0x100_0000 || d == 0x1_0000_0000
          || d == 0x100_0000_0000 || d == 0x1_0000_0000_0000 || d == 0x100_0000_0000_0000
    requires q == x / d
    ensures x / (d * 0x100) == q / 0x100
  {
    assert x == (d * 0x100) * (q / 0x100) + (d * (q % 0x100) + x % d);
  }

  /** Every lane the encoders produce is the byte of a repeated shift by 8. */
  lemma ShiftChain4(x: int)
    ensures x / 0x1_0000 == x / 0x100 / 0x100
    ensures x / 0x100_0000 == x / 0x1_0000 / 0x100
    ensures x / TWO_32 == x / 0x100_0000 / 0x100
  {
    ShiftOneMore(x, 0x100, x / 0x100);
    ShiftOneMore(x, 0x1_0000, x / 0x1_0000);
    ShiftOneMore(x, 0x100_0000, x / 0x100_0000);
  }

  lemma ShiftChain8(x: int)
    ensures x / 0x1_0000 == x / 0x100 / 0x100
    ensures x / 0x100_0000 == x / 0x1_0000 / 0x100
    ensures x / 0x1_0000_0000 == x / 0x100_0000 / 0x100
    ensures x / 0x100_0000_0000 == x / 0x1_0000_0000 / 0x100
    ensures x / 0x1_0000_0000_0000 == x / 0x100_0000_0000 / 0x100
    ensures x / 0x100_0000_0000_0000 == x / 0x1_0000_0000_0000 / 0x100
    ensures x / TWO_64 == x / 0x100_0000_0000_0000 / 0x100
  {
    ShiftChain4(x);
    ShiftOneMore(x, 0x1_0000_0000, x / 0x1_0000_0000);
    ShiftOneMore(x, 0x100_0000_0000, x / 0x100_0000_0000);
    ShiftOneMore(x, 0x1_0000_0000_0000, x / 0x1_0000_0000_0000);
    ShiftOneMore(x, 0x100_0000_0000_0000, x / 0x100_0000_0000_0000);
  }

  /** Peeling the low byte off a value written as `hi * 256 + lo`. */
  lemma PeelByte(x: int, hi: int, lo: int)
    requires x == hi * 0x100 + lo && 0 <= lo < 0x100
    ensures x / 0x100 == hi && x % 0x100 == lo
  {
  }

  // ---------------------------------------------------------------------
  // Composing the lanes of a value gives the value modulo 2^bits.

  lemma ComposeLanes2(x: int)
    ensures Compose2(Lanes2(x)) == x % TWO_16
  {
    assert x / TWO_16 == x / 0x100 / 0x100 by {
      ShiftOneMore(x, 0x100, x / 0x100);
    }
  }

  lemma ComposeLanes4(x: int)
    ensures Compose4(Lanes4(x)) == x % TWO_32
  {
    ShiftChain4(x);
    var s := Lanes4(x);
    assert Compose4(s) == x - (x / TWO_32) * TWO_32;
  }

  lemma ComposeLanes8(x: int)
    ensures Compose8(Lanes8(x)) == x % TWO_64
  {
    ShiftChain8(x);
    var s := Lanes8(x);
    var a := x / 0x1_0000_0000;
    assert Compose8(s) == Compose4(s[..4]) * TWO_32 + Compose4(s[4..]);
    ComposeLanes4(a);
    assert Lanes4(a) == s[..4] by {
      ShiftChain4(a);
      ShiftOneMore(x, 0x1_0000_0000, a);
      ShiftOneMore(x, 0x100_0000_0000, x / 0x100_0000_0000);
      ShiftOneMore(x, 0x1_0000_0000_0000, x / 0x1_0000_0000_0000);
    }
    assert x % TWO_32 == Compose4(s[4..]) by { ComposeLanes4(x); }
    assert a % TWO_32 == Compose4(s[..4]);
    assert x == a * TWO_32 + x % TWO_32;
    assert a == (a / TWO_32) * TWO_32 + a % TWO_32;
    assert x / TWO_64 == a / TWO_32;
  }

  // ---------------------------------------------------------------------
  // Lanes of a value congruent to a composed value are the composed lanes.

  lemma LanesOfCompose2(s: seq<uint8>, c: int)
    requires |s| == 2
    ensures Lanes2(Compose2(s) - c * TWO_16) == s
  {
    var x := Compose2(s) - c * TWO_16;
    var h := s[0] as int - c * 0x100;
    PeelByte(x, h, s[1] as int);
    PeelByte(h, -c, s[0] as int);
  }

  lemma LanesOfCompose4(s: seq<uint8>, c: int)
    requires |s| == 4
    ensures Lanes4(Compose4(s) - c * TWO_32) == s
  {
    var x := Compose4(s) - c * TWO_32;
    var h := s[0] as int - c * 0x100;
    assert x == ((h * 0x100 + s[1] as int) * 0x100 + s[2] as int) * 0x100 + s[3] as int;
    PeelByte(x, (h * 0x100 + s[1] as int) * 0x100 + s[2] as int, s[3] as int);
    PeelByte(x / 0x100, h * 0x100 + s[1] as int, s[2] as int);
    PeelByte(x / 0x100 / 0x100, h, s[1] as int);
    PeelByte(h, -c, s[0] as int);
    ShiftChain4(x);
  }

  /** A 64-bit value split into a high word `a` and a low word `w`: its eight
      lanes are the four lanes of each word. */
  lemma LanesOfWords(x: int, a: int, w: int)
    requires x == a * TWO_32 + w && 0 <= w < TWO_32
    ensures Lanes8(x) == Lanes4(a) + Lanes4(w)
  {
    HighLanes(x, a, w);
    LowLanes(x, a, w);
  }

  /** The four high lanes of `x` are the shifts of the high word. */
  lemma HighLanes(x: int, a: int, w: int)
    requires x == a * TWO_32 + w && 0 <= w < TWO_32
    ensures x / 0x100_0000_0000_0000 == a / 0x100_0000 && x / 0x1_0000_0000_0000 == a / 0x1_0000
    ensures x / 0x100_0000_0000 == a / 0x100 && x / TWO_32 == a
  {
    ShiftChain8(x);
    ShiftChain4(a);
    assert x / TWO_32 == a;
  }

  /** The four low lanes of `x` are those of the low word. */
  lemma LowLanes(x: int, a: int, w: int)
    requires x == a * TWO_32 + w && 0 <= w < TWO_32
    ensures Lo8(x / 0x100_0000) == Lo8(w / 0x100_0000) && Lo8(x / 0x1_0000) == Lo8(w / 0x1_0000)
    ensures Lo8(x / 0x100) == Lo8(w / 0x100) && Lo8(x) == Lo8(w)
  {
    ShiftChain4(x);
    ShiftChain4(w);
    var h1, h2, h3 := a * 0x100_0000 + w / 0x100, a * 0x1_0000 + w / 0x1_0000, a * 0x100 + w / 0x100_0000;
    PeelByte(x, h1, w % 0x100);
    PeelByte(h1, h2, w / 0x100 % 0x100);
    PeelByte(h2, h3, w / 0x1_0000 % 0x100);
  }

  /** The eight-lane value is the high word shifted past the low word. */
  lemma ComposeWords(s: seq<uint8>, c: int)
    requires |s| == 8
    ensures Compose8(s) - c * TWO_64 == (Compose4(s[..4]) - c * TWO_32) * TWO_32 + Compose4(s[4..])
  {
  }

  lemma LanesOfCompose8(s: seq<uint8>, c: int)
    requires |s| == 8
    ensures Lanes8(Compose8(s) - c * TWO_64) == s
  {
    assert s == s[..4] + s[4..];
    LanesOfHalves(s, c);
  }

  /** The eight lanes are the lanes of the two halves' words. */
  lemma LanesOfHalves(s: seq<uint8>, c: int)
    requires |s| == 8
    ensures Lanes8(Compose8(s) - c * TWO_64) == s[..4] + s[4..]
  {
    var hi, lo := s[..4], s[4..];
    ComposeWords(s, c);
    LanesOfSplit(Compose8(s) - c * TWO_64, hi, lo, c);
  }

  lemma LanesOfSplit(x: int, hi: seq<uint8>, lo: seq<uint8>, c: int)
    requires |hi| == 4 && |lo| == 4 && x == (Compose4(hi) - c * TWO_32) * TWO_32 + Compose4(lo)
    ensures Lanes8(x) == hi + lo
  {
    var a, w := Compose4(hi) - c * TWO_32, Compose4(lo);
    assert Lanes4(a) == hi by { LanesOfCompose4(hi, c); }
    assert Lanes4(w) == lo by { LanesOfCompose4(lo, 0); }
    LanesOfWords(x, a, w);
  }

  // ---------------------------------------------------------------------
  // Scaling by an element width.

  /** One more group of `p`. */
  lemma MulStep(q: nat, p: nat)
    requires q > 0
    ensures q * p == (q - 1) * p + p && (q - 1) * p >= 0
  {
  }

  /** Scaling by a width keeps the order of element counts. */
  lemma {:induction false} MulMonotone(a: int, b: int, w: nat)
    ensures a <= b ==> a * w <= b * w
    ensures w > 0 && a < b ==> a * w < b * w
    decreases w
  {
    if w > 0 {
      MulMonotone(a, b, w - 1);
      assert a * w == a * (w - 1) + a && b * w == b * (w - 1) + b;
    }
  }
}
