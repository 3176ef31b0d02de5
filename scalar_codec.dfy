/** The per-element wire format: FITS big-endian two's-complement integers
    and IEEE-754 bit patterns, one element after another with no padding.

    `Encode` gives the bytes the batch writers store into the staging buffer
    for one element, `Decode` the value the batch readers compose from one
    element's bytes. `EncodeRun`/`DecodeRun` lift them to a whole batch. */
module ScalarCodec {
  import opened Numeric

  /** The primitive element types the batch codecs are written for. */
  datatype Kind = Bool | Byte | SByte | Char | Short | Int | Long | Float | Double

  /** Floating-point values are carried as their bit patterns; their numeric
      meaning plays no part in transcoding. */
  datatype Float32 = SingleBits(bits: int32)
  datatype Float64 = DoubleBits(bits: int64)

  /** A value of one of the primitive kinds, as held in a C# array slot. */
  datatype Scalar =
    | BoolVal(b: bool)
    | ByteVal(u: uint8)
    | SByteVal(sb: int8)
    | CharVal(c: uint16)
    | ShortVal(h: int16)
    | IntVal(i: int32)
    | LongVal(l: int64)
    | FloatVal(f: Float32)
    | DoubleVal(d: Float64)

  function KindOf(x: Scalar): (k: Kind) {
    match x
    case BoolVal(_) => Bool
    case ByteVal(_) => Byte
    case SByteVal(_) => SByte
    case CharVal(_) => Char
    case ShortVal(_) => Short
    case IntVal(_) => Int
    case LongVal(_) => Long
    case FloatVal(_) => Float
    case DoubleVal(_) => Double
  }

  /** The slots of a C# array of kind `k` hold values of kind `k` only. */
  ghost predicate AllOfKind(vals: seq<Scalar>, k: Kind) {
    forall i :: 0 <= i < |vals| ==> KindOf(vals[i]) == k
  }

  /** The `...ByteStride` constants: `BitConverter.GetBytes(v).Length` of each
      kind, and 1 for the byte kinds. */
  function Width(k: Kind): (w: nat)
    ensures w == 1 || w == 2 || w == 4 || w == 8
    ensures w == 1 <==> k in {Bool, Byte, SByte}
    ensures w == 2 <==> k in {Char, Short}
    ensures w == 8 <==> k in {Long, Double}
  {
    match k
    case Bool => 1
    case Byte => 1
    case SByte => 1
    case Char => 2
    case Short => 2
    case Int => 4
    case Long => 8
    case Float => 4
    case Double => 8
  }

  /** The value a freshly allocated C# array of kind `k` holds. */
  function Default(k: Kind): (x: Scalar)
    ensures KindOf(x) == k
    ensures forall i :: 0 <= i < Width(k) ==> Encode(x)[i] == 0
  {
    match k
    case Bool => BoolVal(false)
    case Byte => ByteVal(0)
    case SByte => SByteVal(0)
    case Char => CharVal(0)
    case Short => ShortVal(0)
    case Int => IntVal(0)
    case Long => LongVal(0)
    case Float => FloatVal(SingleBits(0))
    case Double => DoubleVal(DoubleBits(0))
  }

  /** The bytes a batch writer stores for one element: 1/0 for a bool, the
      byte itself, `(byte)` of an sbyte, and the shifted lanes, most
      significant first, of every wider kind (floats through
      `SingleToInt32Bits`/`DoubleToInt64Bits`). */
  function Encode(x: Scalar): (bytes: seq<uint8>)
    ensures |bytes| == Width(KindOf(x))
  {
    match x
    case BoolVal(b) => [if b then 1 else 0]
    case ByteVal(u) => [u]
    case SByteVal(sb) => [Lo8(sb as int)]
    case CharVal(c) => Lanes2(c as int)
    case ShortVal(h) => Lanes2(h as int)
    case IntVal(i) => Lanes4(i as int)
    case LongVal(l) => Lanes8(l as int)
    case FloatVal(f) => Lanes4(f.bits as int)
    case DoubleVal(d) => Lanes8(d.bits as int)
  }

  /** The value a batch reader composes from one element's bytes:
      `BitConverter.ToBoolean` (nonzero is true), the byte, `(sbyte)` of the
      byte, and the big-endian composition, narrowed to the kind's width
      (floats by reinterpreting the composed integer's bits). */
  function Decode(k: Kind, bytes: seq<uint8>): (x: Scalar)
    requires |bytes| == Width(k)
    ensures KindOf(x) == k
  {
    match k
    case Bool => BoolVal(bytes[0] != 0)
    case Byte => ByteVal(bytes[0])
    case SByte => SByteVal(Wrap8(bytes[0] as int))
    case Char => CharVal(Compose2(bytes) as uint16)
    case Short => ShortVal(Wrap16(Compose2(bytes)))
    case Int => IntVal(Wrap32(Compose4(bytes)))
    case Long => LongVal(Wrap64(Compose8(bytes)))
    case Float => FloatVal(SingleBits(Wrap32(Compose4(bytes))))
    case Double => DoubleVal(DoubleBits(Wrap64(Compose8(bytes))))
  }

  // The composition undoes the lanes, per width.

  lemma Lanes2RoundTrip(v: int, unsigned: bool)
    requires if unsigned then 0 <= v < TWO_16 else -0x8000 <= v < 0x8000
    ensures unsigned ==> Compose2(Lanes2(v)) == v
    ensures !unsigned ==> Wrap16(Compose2(Lanes2(v))) as int == v
  {
    ComposeLanes2(v);
  }

  lemma Lanes4RoundTrip(v: int32)
    ensures Wrap32(Compose4(Lanes4(v as int))) == v
  {
    var x := v as int;
    ComposeLanes4(x);
    WrapOfResidue32(x);
  }

  lemma WrapOfResidue32(x: int)
    requires -0x8000_0000 <= x < 0x8000_0000
    ensures Wrap32(x % TWO_32) as int == x
  {
    assert x % TWO_32 == if x >= 0 then x else x + TWO_32;
  }

  lemma Lanes8RoundTrip(v: int64)
    ensures Wrap64(Compose8(Lanes8(v as int))) == v
  {
    var x := v as int;
    ComposeLanes8(x);
    WrapOfResidue64(x);
  }

  lemma WrapOfResidue64(x: int)
    requires -0x8000_0000_0000_0000 <= x < 0x8000_0000_0000_0000
    ensures Wrap64(x % TWO_64) as int == x
  {
    assert x % TWO_64 == if x >= 0 then x else x + TWO_64;
  }

  // The same, stated on the element codec one kind at a time.

  lemma DecodeEncode2(v: int16, c: uint16)
    ensures Decode(Short, Encode(ShortVal(v))) == ShortVal(v)
    ensures Decode(Char, Encode(CharVal(c))) == CharVal(c)
  {
    Lanes2RoundTrip(v as int, false);
    Lanes2RoundTrip(c as int, true);
  }

  lemma DecodeEncode4(v: int32)
    ensures Decode(Int, Encode(IntVal(v))) == IntVal(v)
    ensures Decode(Float, Encode(FloatVal(SingleBits(v)))) == FloatVal(SingleBits(v))
  {
    Lanes4RoundTrip(v);
  }

  lemma DecodeEncode8(v: int64)
    ensures Decode(Long, Encode(LongVal(v))) == LongVal(v)
    ensures Decode(Double, Encode(DoubleVal(DoubleBits(v)))) == DoubleVal(DoubleBits(v))
  {
    Lanes8RoundTrip(v);
  }

  // The lanes of the narrowed composition are the bytes composed.

  lemma LanesOfWrap2(bytes: seq<uint8>)
    requires |bytes| == 2
    ensures Lanes2(Wrap16(Compose2(bytes)) as int) == bytes
  {
    var u := Compose2(bytes);
    var c := if u < 0x8000 then 0 else 1;
    assert Wrap16(u) as int == u - c * TWO_16;
    LanesOfCompose2(bytes, c);
  }

  lemma LanesOfWrap4(bytes: seq<uint8>)
    requires |bytes| == 4
    ensures Lanes4(Wrap32(Compose4(bytes)) as int) == bytes
  {
    var u := Compose4(bytes);
    var c := if u < 0x8000_0000 then 0 else 1;
    assert Wrap32(u) as int == u - c * TWO_32;
    LanesOfCompose4(bytes, c);
  }

  lemma LanesOfWrap8(bytes: seq<uint8>)
    requires |bytes| == 8
    ensures Lanes8(Wrap64(Compose8(bytes)) as int) == bytes
  {
    var u := Compose8(bytes);
    var c := if u < 0x8000_0000_0000_0000 then 0 else 1;
    assert Wrap64(u) as int == u - c * TWO_64;
    LanesOfCompose8(bytes, c);
  }

  /** Reading back what was written gives the original value, for every kind. */
  lemma {:induction false} DecodeEncode(x: Scalar)
    ensures Decode(KindOf(x), Encode(x)) == x
  {
    match x
    case BoolVal(_) =>
    case ByteVal(_) =>
    case SByteVal(_) =>
    case CharVal(c) => DecodeEncode2(0, c);
    case ShortVal(h) => DecodeEncode2(h, 0);
    case IntVal(i) => DecodeEncode4(i);
    case FloatVal(f) => DecodeEncode4(f.bits);
    case LongVal(l) => DecodeEncode8(l);
    case DoubleVal(d) => DecodeEncode8(d.bits);
  }

  /** Writing back what was read gives the original bytes for every kind but
      bool, whose nonzero bytes all read as true and are written back as 1. */
  lemma {:induction false} EncodeDecode(k: Kind, bytes: seq<uint8>)
    requires |bytes| == Width(k)
    ensures Encode(Decode(k, bytes)) == if k == Bool then [if bytes[0] == 0 then 0 else 1] else bytes
  {
    match k
    case Bool =>
    case Byte =>
    case SByte =>
      var sb := Wrap8(bytes[0] as int);
      assert sb as int == bytes[0] as int || sb as int == bytes[0] as int - TWO_8;
    case Char => LanesOfCompose2(bytes, 0);
    case Short => LanesOfWrap2(bytes);
    case Int => LanesOfWrap4(bytes);
    case Float => LanesOfWrap4(bytes);
    case Long => LanesOfWrap8(bytes);
    case Double => LanesOfWrap8(bytes);
  }

  /** Two worked wire layouts: the 32-bit integer 0x01020304 and the
      character 0x0041. */
  lemma WireExamples()
    ensures Encode(IntVal(0x0102_0304)) == [0x01, 0x02, 0x03, 0x04]
    ensures Encode(CharVal(0x0041)) == [0x00, 0x41]
    ensures Encode(IntVal(-1)) == [0xFF, 0xFF, 0xFF, 0xFF]
  {
  }

  // ---------------------------------------------------------------------
  // Host byte order of the single-value writers.

  /** `BitConverter.GetBytes(x)` on a little-endian host: the lanes, least
      significant first. Only the kinds wider than a byte go through it. */
  function HostBytes(x: Scalar): (bytes: seq<uint8>)
    requires Width(KindOf(x)) > 1
    ensures |bytes| == Width(KindOf(x))
  {
    match x
    case CharVal(c) => [Lo8(c as int), Lo8(c as int / 0x100)]
    case ShortVal(h) => [Lo8(h as int), Lo8(h as int / 0x100)]
    case IntVal(i) => LittleLanes4(i as int)
    case LongVal(l) => LittleLanes8(l as int)
    case FloatVal(f) => LittleLanes4(f.bits as int)
    case DoubleVal(d) => LittleLanes8(d.bits as int)
  }

  function LittleLanes4(v: int): (s: seq<uint8>)
    ensures |s| == 4
  {
    [Lo8(v), Lo8(v / 0x100), Lo8(v / 0x1_0000), Lo8(v / 0x100_0000)]
  }

  function LittleLanes8(v: int): (s: seq<uint8>)
    ensures |s| == 8
  {
    [Lo8(v), Lo8(v / 0x100), Lo8(v / 0x1_0000), Lo8(v / 0x100_0000),
     Lo8(v / 0x1_0000_0000), Lo8(v / 0x100_0000_0000),
     Lo8(v / 0x1_0000_0000_0000), Lo8(v / 0x100_0000_0000_0000)]
  }

  // ---------------------------------------------------------------------
  // Batches.

  /** The bytes a batch writer emits for `vals`: the elements' encodings back
      to back, in index order. */
  function EncodeRun(k: Kind, vals: seq<Scalar>): (bytes: seq<uint8>)
    requires AllOfKind(vals, k)
    ensures |bytes| == Width(k) * |vals|
  {
    if vals == [] then []
    else
      var n := |vals| - 1;
      assert Width(k) * n + Width(k) == Width(k) * |vals|;
      EncodeRun(k, vals[..n]) + Encode(vals[n])
  }

  /** The values a batch reader composes from `bytes`, one per complete
      element-sized group, front to back. */
  function DecodeRun(k: Kind, bytes: seq<uint8>): (vals: seq<Scalar>)
    ensures AllOfKind(vals, k)
    ensures |vals| * Width(k) <= |bytes| < (|vals| + 1) * Width(k)
    decreases |bytes|
  {
    var w := Width(k);
    if |bytes| < w then []
    else
      var rest := DecodeRun(k, bytes[w..]);
      assert (|rest| + 1) * w == |rest| * w + w && (|rest| + 2) * w == (|rest| + 1) * w + w;
      [Decode(k, bytes[..w])] + rest
  }

  lemma {:induction false} EncodeRunAppend(k: Kind, a: seq<Scalar>, b: seq<Scalar>)
    requires AllOfKind(a, k) && AllOfKind(b, k)
    ensures AllOfKind(a + b, k)
    ensures EncodeRun(k, a + b) == EncodeRun(k, a) + EncodeRun(k, b)
    decreases |b|
  {
    AllOfKindAppend(k, a, b);
    if b == [] {
      assert a + b == a;
    } else {
      var front, last := b[..|b| - 1], b[|b| - 1];
      assert (a + b)[..|a + b| - 1] == a + front;
      assert AllOfKind(front, k) by { AllOfKindPrefix(k, b, |b| - 1); }
      EncodeRunAppend(k, a, front);
      ConcatAssoc(EncodeRun(k, a), EncodeRun(k, front), Encode(last));
    }
  }

  lemma AllOfKindAppend(k: Kind, a: seq<Scalar>, b: seq<Scalar>)
    requires AllOfKind(a, k) && AllOfKind(b, k)
    ensures AllOfKind(a + b, k)
  {
  }

  lemma AllOfKindPrefix(k: Kind, a: seq<Scalar>, n: nat)
    requires AllOfKind(a, k) && n <= |a|
    ensures AllOfKind(a[..n], k)
  {
  }

  lemma ConcatAssoc<T>(x: seq<T>, y: seq<T>, z: seq<T>)
    ensures (x + y) + z == x + (y + z)
  {
  }

  lemma {:induction false} DecodeRunAppend(k: Kind, s: seq<uint8>, t: seq<uint8>, m: nat)
    requires |s| == Width(k) * m
    ensures DecodeRun(k, s + t) == DecodeRun(k, s) + DecodeRun(k, t)
    decreases m
  {
    var w := Width(k);
    if m == 0 {
      assert s + t == t;
    } else {
      var st := s + t;
      assert |s[w..]| == w * (m - 1);
      assert st[..w] == s[..w] && st[w..] == s[w..] + t;
      DecodeRunAppend(k, s[w..], t, m - 1);
      var head := [Decode(k, s[..w])];
      assert DecodeRun(k, st) == head + DecodeRun(k, s[w..] + t);
      assert DecodeRun(k, s) == head + DecodeRun(k, s[w..]);
      ConcatAssoc(head, DecodeRun(k, s[w..]), DecodeRun(k, t));
    }
  }

  /** The `j`-th value of a batch is decoded from the `j`-th group of bytes. */
  lemma {:induction false} DecodeRunAt(k: Kind, bytes: seq<uint8>, m: nat, j: nat)
    requires |bytes| == m * Width(k) && j < m
    ensures j * Width(k) + Width(k) <= |bytes| && |DecodeRun(k, bytes)| == m
    ensures DecodeRun(k, bytes)[j] == Decode(k, bytes[j * Width(k)..j * Width(k) + Width(k)])
    decreases j
  {
    var w := Width(k);
    assert |bytes| == w * m;
    DecodeRunCount(k, bytes, m);
    MulStep(m, w);
    if j == 0 {
      assert bytes[..w] == bytes[0 * w..0 * w + w];
    } else {
      var rest := bytes[w..];
      assert |rest| == (m - 1) * w;
      DecodeRunAt(k, rest, m - 1, j - 1);
      var a := (j - 1) * w;
      assert j * w == a + w by { MulStep(j, w); }
      DropSlice(bytes, w, a, w);
      assert DecodeRun(k, bytes) == [Decode(k, bytes[..w])] + DecodeRun(k, rest);
      assert DecodeRun(k, bytes)[j] == DecodeRun(k, rest)[j - 1];
    }
  }

  lemma DropSlice<T>(s: seq<T>, d: nat, a: nat, n: nat)
    requires d + a + n <= |s|
    ensures s[d..][a..a + n] == s[d + a..d + a + n]
  {
  }

  /** The bytes of `m` elements decode to exactly `m` values. */
  lemma {:induction false} DecodeRunCount(k: Kind, bytes: seq<uint8>, m: nat)
    requires |bytes| == Width(k) * m
    ensures |DecodeRun(k, bytes)| == m
    decreases m
  {
    if m > 0 {
      assert |bytes[Width(k)..]| == Width(k) * (m - 1);
      DecodeRunCount(k, bytes[Width(k)..], m - 1);
    }
  }

  /** One element's bytes decode to that one element. */
  lemma DecodeRunSingle(x: Scalar)
    ensures DecodeRun(KindOf(x), Encode(x)) == [x]
  {
    var k, e := KindOf(x), Encode(x);
    DecodeEncode(x);
    assert e[..Width(k)] == e;
    assert DecodeRun(k, e[Width(k)..]) == [];
  }

  /** A single-value writer emits what a one-element batch write emits. */
  lemma EncodeRunSingle(x: Scalar)
    ensures AllOfKind([x], KindOf(x)) && EncodeRun(KindOf(x), [x]) == Encode(x)
  {
    assert [x][..0] == [];
  }

  /** The batch round trip: reading back a batch write gives the same values. */
  lemma {:induction false} DecodeEncodeRun(k: Kind, vals: seq<Scalar>)
    requires AllOfKind(vals, k)
    ensures DecodeRun(k, EncodeRun(k, vals)) == vals
    decreases |vals|
  {
    if vals != [] {
      var front, last := vals[..|vals| - 1], vals[|vals| - 1];
      AllOfKindPrefix(k, vals, |vals| - 1);
      var f, l := EncodeRun(k, front), Encode(last);
      assert EncodeRun(k, vals) == f + l;
      assert DecodeRun(k, f + l) == DecodeRun(k, f) + DecodeRun(k, l) by {
        DecodeRunAppend(k, f, l, |front|);
      }
      assert DecodeRun(k, f) == front by { DecodeEncodeRun(k, front); }
      assert DecodeRun(k, l) == [last] by { DecodeRunSingle(last); }
      assert front + [last] == vals;
    }
  }

  /** And the batch read is injective: for every kind but bool, writing back
      what was read reproduces the bytes. */
  lemma {:induction false} EncodeDecodeRun(k: Kind, bytes: seq<uint8>, m: nat)
    requires k != Bool && |bytes| == Width(k) * m
    ensures EncodeRun(k, DecodeRun(k, bytes)) == bytes
    decreases m
  {
    var w := Width(k);
    if m > 0 {
      assert w * m == w * (m - 1) + w && w * (m - 1) >= 0;
      var first, tail := bytes[..w], bytes[w..];
      assert bytes == first + tail && |tail| == w * (m - 1);
      var head := Decode(k, first);
      var rest := DecodeRun(k, tail);
      assert DecodeRun(k, bytes) == [head] + rest;
      assert EncodeRun(k, rest) == tail by {
        EncodeDecodeRun(k, tail, m - 1);
      }
      assert EncodeRun(k, [head]) == first by {
        EncodeDecode(k, first);
        assert [head][..0] == [];
      }
      EncodeRunAppend(k, [head], rest);
    }
  }

  /** A bool batch is one byte per element, 1 for true and 0 for false. */
  lemma {:induction false} BoolRunBytes(vals: seq<Scalar>, i: nat)
    requires AllOfKind(vals, Bool) && i < |vals|
    ensures EncodeRun(Bool, vals)[i] == if vals[i].b then 1 else 0
    decreases |vals|
  {
    if i < |vals| - 1 {
      BoolRunBytes(vals[..|vals| - 1], i);
    }
  }

  // ---------------------------------------------------------------------
  // Text.

  /** A C# string as its UTF-16 code units. */
  type String16 = seq<uint16>

  /** A string written as raw bytes, one per character (its low eight bits),
      with no length prefix or terminator. */
  function TextBytes(s: String16): (bytes: seq<uint8>)
    ensures |bytes| == |s|
    ensures forall i :: 0 <= i < |s| ==> bytes[i] as int == s[i] as int % TWO_8
  {
    seq(|s|, i requires 0 <= i < |s| => Lo8(s[i] as int))
  }

  /** An array of strings written back to back, with no separator. */
  function TextRun(ss: seq<String16>): (bytes: seq<uint8>)
    ensures ss == [] ==> bytes == []
    ensures |bytes| >= if ss == [] then 0 else |ss[|ss| - 1]|
  {
    if ss == [] then [] else TextRun(ss[..|ss| - 1]) + TextBytes(ss[|ss| - 1])
  }

  lemma {:induction false} TextRunAppend(a: seq<String16>, b: seq<String16>)
    ensures TextRun(a + b) == TextRun(a) + TextRun(b)
    decreases |b|
  {
    if b == [] {
      assert a + b == a;
    } else {
      assert (a + b)[..|a + b| - 1] == a + b[..|b| - 1];
      TextRunAppend(a, b[..|b| - 1]);
    }
  }
}
