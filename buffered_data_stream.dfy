/** `BufferedDataStream`: the big-endian reader and writer of FITS data over
    a byte stream.

    The wrapped stream is modelled as the bytes it can still deliver
    (`source`, read from position `pos`) and the bytes written to it so far
    (`sink`). A `Stream.Read` may return fewer bytes than asked for; the
    model lets it return any positive number up to what is available, and 0
    only at the end of the input. */
module BufferedData {
  import opened Numeric
  import opened Streams
  import opened ScalarCodec
  import opened ArrayValues

  datatype SeekOrigin = Begin | Current | End

  /** `s` with the slots `offset .. offset + m - 1` replaced by the first `m`
      decoded values: what a batch read leaves in its buffer when it faults
      after `m` elements or, with `m` the whole batch, completes. */
  function Overlay(s: seq<Scalar>, offset: int, vals: seq<Scalar>, m: nat): (r: seq<Scalar>)
    requires m <= |vals| && (m == 0 || (0 <= offset && offset + m <= |s|))
    ensures |r| == |s|
    ensures forall i :: 0 <= i < m ==> r[offset + i] == vals[i]
    ensures forall j :: 0 <= j < |s| && !(offset <= j < offset + m) ==> r[j] == s[j]
  {
    seq(|s|, j requires 0 <= j < |s| => if offset <= j < offset + m then vals[j - offset] else s[j])
  }

  /** How many slots from `offset` on a buffer of length `len` can take
      before an index falls outside it, out of `size`. */
  function Filled(len: nat, offset: int, size: nat): (m: nat)
    ensures m <= size
    ensures m == size <==> size == 0 || (0 <= offset && offset + size <= len)
    ensures m > 0 ==> 0 <= offset && offset + m <= len
  {
    if offset < 0 || offset >= len then 0 else Min(size, len - offset)
  }

  /** Overlaying nothing leaves the buffer as it was. */
  lemma OverlayNone(s: seq<Scalar>, offset: int, vals: seq<Scalar>)
    ensures Overlay(s, offset, vals, 0) == s
  {
  }

  /** Overlaying a whole buffer from its start gives the decoded values. */
  lemma OverlayWhole(s: seq<Scalar>, vals: seq<Scalar>)
    requires |vals| == |s|
    ensures Overlay(s, 0, vals, |s|) == vals
  {
  }

  /** The values overlaid keep the buffer's kind. */
  lemma OverlayKinds(s: seq<Scalar>, offset: int, vals: seq<Scalar>, m: nat, k: Kind)
    requires m <= |vals| && (m == 0 || (0 <= offset && offset + m <= |s|))
    requires AllOfKind(s, k) && AllOfKind(vals, k)
    ensures AllOfKind(Overlay(s, offset, vals, m), k)
  {
  }

  /** A byte batch decodes to the bytes themselves. */
  lemma {:induction false} DecodeBytes(bytes: seq<uint8>)
    ensures |DecodeRun(Byte, bytes)| == |bytes|
    ensures forall j :: 0 <= j < |bytes| ==> DecodeRun(Byte, bytes)[j] == ByteVal(bytes[j])
    decreases |bytes|
  {
    if bytes != [] {
      DecodeBytes(bytes[1..]);
      assert DecodeRun(Byte, bytes) == [ByteVal(bytes[0])] + DecodeRun(Byte, bytes[1..]);
    }
  }

  /** A buffer that holds the first `m` values from `offset` on and its old
      contents elsewhere is their overlay, and keeps the kind. */
  lemma OverlayAt(was: seq<Scalar>, now: seq<Scalar>, offset: int, vals: seq<Scalar>, m: nat, k: Kind)
    requires m <= |vals| && (m == 0 || (0 <= offset && offset + m <= |was|)) && |now| == |was|
    requires forall j :: 0 <= j < m ==> now[offset + j] == vals[j]
    requires forall j :: 0 <= j < |was| && !(offset <= j < offset + m) ==> now[j] == was[j]
    requires AllOfKind(was, k) && AllOfKind(vals, k)
    ensures now == Overlay(was, offset, vals, m) && AllOfKind(now, k)
  {
    forall j | 0 <= j < |was| ensures now[j] == Overlay(was, offset, vals, m)[j] {
      if offset <= j < offset + m {
        assert now[offset + (j - offset)] == vals[j - offset];
      }
    }
    OverlayKinds(was, offset, vals, m, k);
  }

  /** The loop of the batch readers: the bytes of one element after
      another decoded into `buf[nRead + offset]`, stopping at the first index
      outside the buffer. The result is the number of elements stored. */
  method DecodeInto(k: Kind, tbuf: seq<uint8>, buf: array<Scalar>, offset: int, size: nat) returns (nRead: nat)
    requires |tbuf| == Width(k) * size && AllOfKind(buf[..], k)
    modifies buf
    ensures |DecodeRun(k, tbuf)| == size
    ensures nRead == Filled(buf.Length, offset, size)
    ensures buf[..] == Overlay(old(buf[..]), offset, DecodeRun(k, tbuf), nRead)
    ensures AllOfKind(buf[..], k)
  {
    var w := Width(k);
    ghost var vals := DecodeRun(k, tbuf);
    DecodeRunCount(k, tbuf, size);
    assert |tbuf| == size * w;
    ghost var m := Filled(buf.Length, offset, size);
    nRead := 0;
    var b := 0;
    while b < |tbuf|
      invariant 0 <= nRead <= m && b == nRead * w
      invariant forall j :: 0 <= j < nRead ==> buf[offset + j] == vals[j]
      invariant forall j :: 0 <= j < buf.Length && !(offset <= j < offset + nRead) ==> buf[j] == old(buf[j])
      decreases size - nRead
    {
      if nRead + offset < 0 || nRead + offset >= buf.Length {
        assert nRead == m;
        break;
      }
      assert nRead < size by { MulMonotone(size, nRead, w); }
      DecodeRunAt(k, tbuf, size, nRead);
      buf[nRead + offset] := Decode(k, tbuf[b..b + w]);
      nRead, b := nRead + 1, b + w;
    }
    assert nRead == m by { MulMonotone(nRead, size, w); }
    OverlayAt(old(buf[..]), buf[..], offset, vals, nRead, k);
  }

  /** The `m` slots of `s` from `offset` on, or none. */
  function Slots<T>(s: seq<T>, offset: int, m: nat): (r: seq<T>)
    requires m == 0 || (0 <= offset && offset + m <= |s|)
    ensures |r| == m
    ensures forall j :: 0 <= j < m ==> r[j] == s[offset + j]
  {
    if m == 0 then [] else s[offset..offset + m]
  }

  /** One more element's bytes appended to a batch. */
  lemma EncodeRunSnoc(k: Kind, s: seq<Scalar>, offset: int, m: nat)
    requires 0 <= offset && offset + m < |s| && AllOfKind(s, k)
    ensures AllOfKind(Slots(s, offset, m), k) && AllOfKind(Slots(s, offset, m + 1), k)
    ensures EncodeRun(k, Slots(s, offset, m + 1)) == EncodeRun(k, Slots(s, offset, m)) + Encode(s[offset + m])
  {
    var shorter, longer := Slots(s, offset, m), Slots(s, offset, m + 1);
    assert AllOfKind(longer, k) by {
      forall j | 0 <= j < m + 1 ensures KindOf(longer[j]) == k {
        assert longer[j] == s[offset + j];
      }
    }
    assert longer[..m] == shorter;
    assert longer[m] == s[offset + m];
    assert EncodeRun(k, longer) == EncodeRun(k, longer[..m]) + Encode(longer[m]);
  }

  /** `out[b + j] = e[j]` for each lane `j` of one element. */
  method StoreBytes(out: array<uint8>, b: nat, e: seq<uint8>)
    requires b + |e| <= out.Length
    modifies out
    ensures out[..b + |e|] == old(out[..b]) + e
  {
    forall j | 0 <= j < |e| {
      out[b + j] := e[j];
    }
    assert forall i :: 0 <= i < b ==> out[i] == old(out[i]);
  }

  function Reversed(s: seq<uint8>): (r: seq<uint8>)
    ensures |r| == |s|
    ensures forall i :: 0 <= i < |s| ==> r[i] == s[|s| - 1 - i]
    decreases |s|
  {
    if s == [] then [] else Reversed(s[1..]) + [s[0]]
  }

  /** Swapping the host-order bytes end for end gives the big-endian
      encoding. */
  lemma HostBytesSwapped(x: Scalar)
    requires Width(KindOf(x)) > 1
    ensures Reversed(HostBytes(x)) == Encode(x)
  {
    var h := HostBytes(x);
    assert Reversed(h) == seq(|h|, i requires 0 <= i < |h| => h[|h| - 1 - i]);
  }

  /** A fresh array holding `vs`: the one-dimensional array the dispatchers
      hand to the batch reads and writes. */
  method NewArray<T>(vs: seq<T>) returns (a: array<T>)
    ensures fresh(a) && a[..] == vs
  {
    a := new T[|vs|](i requires 0 <= i < |vs| => vs[i]);
  }

  lemma TextRunSnoc(s: seq<String16>, offset: int, m: nat)
    requires 0 <= offset && offset + m < |s|
    ensures TextRun(Slots(s, offset, m + 1)) == TextRun(Slots(s, offset, m)) + TextBytes(s[offset + m])
  {
    var longer := Slots(s, offset, m + 1);
    assert longer[..m] == Slots(s, offset, m);
  }

  lemma SlotsKinds(s: seq<Scalar>, offset: int, m: nat, k: Kind)
    requires m == 0 || (0 <= offset && offset + m <= |s|)
    requires AllOfKind(s, k)
    ensures AllOfKind(Slots(s, offset, m), k)
  {
  }

  /** One pass of the batch writers' loop: the bytes of the next slot
      stored after those of the slots before it. */
  method EncodeNext(k: Kind, ghost vs: seq<Scalar>, offset: int, i: nat, x: Scalar, out: array<uint8>, b: nat)
    requires 0 <= offset && offset + i < |vs| && AllOfKind(vs, k) && x == vs[offset + i]
    requires b + Width(k) <= out.Length
    requires AllOfKind(Slots(vs, offset, i), k) && out[..b] == EncodeRun(k, Slots(vs, offset, i))
    modifies out
    ensures AllOfKind(Slots(vs, offset, i + 1), k)
    ensures out[..b + Width(k)] == EncodeRun(k, Slots(vs, offset, i + 1))
  {
    EncodeRunSnoc(k, vs, offset, i);
    StoreBytes(out, b, Encode(x));
  }

  /** The loop of the batch writers: the bytes of `buf[nWritten + offset]`
      stored at `out[b..b + w]`, element after element; it stops at the
      first index outside `buf`. */
  method EncodeInto(k: Kind, buf: array<Scalar>, offset: int, size: nat, out: array<uint8>) returns (ok: bool)
    requires AllOfKind(buf[..], k) && size * Width(k) <= out.Length
    modifies out
    ensures ok <==> Filled(buf.Length, offset, size) == size
    ensures ok ==> AllOfKind(Slots(buf[..], offset, size), k)
    ensures ok ==> out[..size * Width(k)] == EncodeRun(k, Slots(buf[..], offset, size))
  {
    var w := Width(k);
    ghost var vs := buf[..];
    var nWritten, b := 0, 0;
    while nWritten < size
      invariant 0 <= nWritten <= size && b == nWritten * w
      invariant nWritten > 0 ==> 0 <= offset && offset + nWritten <= |vs|
      invariant AllOfKind(Slots(vs, offset, nWritten), k)
      invariant out[..b] == EncodeRun(k, Slots(vs, offset, nWritten))
    {
      if nWritten + offset < 0 || nWritten + offset >= buf.Length {
        return false;
      }
      assert b + w == (nWritten + 1) * w <= out.Length by {
        MulStep(nWritten + 1, w);
        MulMonotone(nWritten + 1, size, w);
      }
      EncodeNext(k, vs, offset, nWritten, buf[nWritten + offset], out, b);
      nWritten, b := nWritten + 1, b + w;
    }
    return true;
  }

  class BufferedDataStream {
    /** The bytes the wrapped stream delivers, from its start. */
    const source: seq<uint8>
    /** `_s.CanSeek`. */
    const canSeek: bool
    /** The wrapped stream's read position. */
    var pos: nat
    /** Everything written through `_out`, in order. */
    var sink: seq<uint8>
    /** `_outBuf`: the staging buffer of the batch writers; it only grows. */
    var outBuf: array<uint8>
    /** `_garbageBuf`: where a forward skip on an unseekable stream reads to. */
    const garbageBuf: array<uint8>
    var primitiveArrayCount: int

    ghost predicate Valid()
      reads this
    {
      garbageBuf.Length == 1024
    }

    /** `new BufferedDataStream(s)` over a writable stream. */
    constructor (input: seq<uint8>, seekable: bool)
      ensures Valid() && fresh(outBuf) && fresh(garbageBuf)
      ensures source == input && canSeek == seekable
      ensures pos == 0 && sink == [] && outBuf.Length == 0 && primitiveArrayCount == 0
    {
      source := input;
      canSeek := seekable;
      pos := 0;
      sink := [];
      outBuf := new uint8[0];
      garbageBuf := new uint8[1024];
      primitiveArrayCount := 0;
    }

    // -------------------------------------------------------------------
    // The wrapped stream.

    /** `_s.Read(buf, off, n)`: some of the next bytes, at least one unless
        nothing was asked for or the input is exhausted. */
    method ReadChunk(buf: array<uint8>, off: nat, n: nat) returns (k: nat)
      requires off + n <= buf.Length
      modifies this`pos, buf
      ensures k <= n && k <= Avail(source, old(pos))
      ensures k == 0 <==> n == 0 || Avail(source, old(pos)) == 0
      ensures pos == old(pos) + k
      ensures buf[..] == old(buf[..off]) + Take(source, old(pos), k) + old(buf[off + k..])
    {
      var a := Avail(source, pos);
      if n == 0 || a == 0 {
        k := 0;
      } else {
        k :| 0 < k && k <= n && k <= a;
      }
      ghost var chunk := Take(source, pos, k);
      forall j | 0 <= j < k {
        buf[off + j] := source[pos + j];
      }
      assert buf[..] == old(buf[..off]) + chunk + old(buf[off + k..]);
      pos := pos + k;
    }

    /** `ReadBytesExactly(count)`: the next `count` bytes, read chunk by
        chunk. A negative count fails to allocate; running out of input
        fails after consuming what was left. */
    method ReadBytesExactly(count: int) returns (r: Result<seq<uint8>>)
      modifies this`pos
      ensures count < 0 ==> r == Err(Overflow) && pos == old(pos)
      ensures 0 <= count <= Avail(source, old(pos)) ==>
                r == Ok(Take(source, old(pos), count)) && pos == old(pos) + count
      ensures count >= 0 && count > Avail(source, old(pos)) ==>
                r == Err(EndOfStream(count, Avail(source, old(pos)))) && pos == old(pos) + Avail(source, old(pos))
    {
      if count < 0 {
        return Err(Overflow);
      }
      var buffer := new uint8[count];
      var totalRead := 0;
      ghost var p0, avail := pos, Avail(source, pos);
      while totalRead < count
        invariant 0 <= totalRead <= count && totalRead <= avail
        invariant pos == p0 + totalRead && Avail(source, pos) == avail - totalRead
        invariant buffer[..totalRead] == Take(source, p0, totalRead)
        decreases count - totalRead
      {
        ghost var before := buffer[..totalRead];
        var bytesRead := ReadChunk(buffer, totalRead, count - totalRead);
        if bytesRead == 0 {
          assert totalRead == avail < count;
          return Err(EndOfStream(count, totalRead));
        }
        TakeSplit(source, p0, totalRead, bytesRead);
        assert buffer[..totalRead + bytesRead] == before + Take(source, p0 + totalRead, bytesRead) by {
          assert buffer[..totalRead + bytesRead] == buffer[..][..totalRead + bytesRead];
        }
        totalRead := totalRead + bytesRead;
      }
      assert buffer[..] == buffer[..totalRead];
      return Ok(buffer[..]);
    }

    // -------------------------------------------------------------------
    // Reading.

    /** `Read(T[] buf, offset, size)` for every primitive kind `k`: reads
        `size` elements' bytes exactly and decodes them into the slots from
        `offset` on. Every exception is swallowed and makes the result 0:
        too little input (which still consumes it), a negative size, and an
        index outside the buffer (after the slots before it were stored;
        the byte copy checks its bounds first and stores nothing).
        Otherwise the result is the number of bytes consumed. */
    method Read(k: Kind, buf: array<Scalar>, offset: int, size: int) returns (n: int)
      requires AllOfKind(buf[..], k)
      modifies this`pos, buf
      ensures AllOfKind(buf[..], k)
      ensures var a, need := Avail(source, old(pos)), Width(k) * size;
              if size < 0 then n == 0 && pos == old(pos) && buf[..] == old(buf[..])
              else if need > a then n == 0 && pos == old(pos) + a && buf[..] == old(buf[..])
              else
                var vals := DecodeRun(k, Take(source, old(pos), need));
                var m := Filled(buf.Length, offset, size);
                pos == old(pos) + need && |vals| == size &&
                if k == Byte && m < size then n == 0 && buf[..] == old(buf[..])
                else buf[..] == Overlay(old(buf[..]), offset, vals, m) && n == if m == size then need else 0
    {
      var w := Width(k);
      assert size < 0 ==> w * size < 0;
      var t := ReadBytesExactly(w * size);
      if t.Err? {
        return 0;
      }
      var tbuf := t.value;
      ghost var vals := DecodeRun(k, tbuf);
      DecodeRunCount(k, tbuf, size);
      if k == Byte {
        if offset < 0 || offset + |tbuf| > buf.Length {
          OverlayNone(buf[..], offset, vals);
          return 0;
        }
        DecodeBytes(tbuf);
        forall j | 0 <= j < |tbuf| {
          buf[offset + j] := ByteVal(tbuf[j]);
        }
        assert buf[..] == Overlay(old(buf[..]), offset, vals, size);
        return |tbuf|;
      }
      var nRead := DecodeInto(k, tbuf, buf, offset, size);
      if nRead < size {
        return 0;
      }
      return nRead * w;
    }

    /** `Read(T[] buf)`: the whole array, which is filled when enough input
        remains and left as it was otherwise. */
    method ReadWhole(k: Kind, buf: array<Scalar>) returns (n: int)
      requires AllOfKind(buf[..], k)
      modifies this`pos, buf
      ensures var a, need := Avail(source, old(pos)), Width(k) * buf.Length;
              if need <= a then
                buf[..] == DecodeRun(k, Take(source, old(pos), need)) && n == need && pos == old(pos) + need
              else
                buf[..] == old(buf[..]) && n == 0 && pos == old(pos) + a
    {
      ghost var p0, need := pos, Width(k) * buf.Length;
      n := Read(k, buf, 0, buf.Length);
      if need <= Avail(source, p0) {
        assert Filled(buf.Length, 0, buf.Length) == buf.Length;
        OverlayWhole(old(buf[..]), DecodeRun(k, Take(source, p0, need)));
      }
    }

    /** `ReadChar`, `ReadInt16`, `ReadInt32`, `ReadInt64`, `ReadSingle`,
        `ReadDouble`: a one-element batch read into a fresh array. Too
        little input is not reported: the value is then the array's
        default. */
    method ReadScalar(k: Kind) returns (x: Scalar)
      requires Width(k) > 1
      modifies this`pos
      ensures KindOf(x) == k
      ensures var a, w := Avail(source, old(pos)), Width(k);
              if w <= a then x == Decode(k, Take(source, old(pos), w)) && pos == old(pos) + w
              else x == Default(k) && pos == old(pos) + a
    {
      var buf := new Scalar[1](_ => Default(k));
      var _ := Read(k, buf, 0, 1);
      x := buf[0];
      var w := Width(k);
      if w <= Avail(source, old(pos)) {
        DecodeRunAt(k, Take(source, old(pos), w), 1, 0);
        assert Take(source, old(pos), w)[0..w] == Take(source, old(pos), w);
      }
    }

    /** `ReadBoolean`, `ReadByte`, `ReadSByte` through the `BinaryReader`:
        one byte, or an end-of-stream exception when there is none. */
    method ReadDirect(k: Kind) returns (r: Result<Scalar>)
      requires Width(k) == 1
      modifies this`pos
      ensures Avail(source, old(pos)) == 0 ==> r == Err(EndOfStream(1, 0)) && pos == old(pos)
      ensures Avail(source, old(pos)) > 0 ==>
                r == Ok(Decode(k, [source[old(pos)]])) && pos == old(pos) + 1
    {
      if Avail(source, pos) == 0 {
        return Err(EndOfStream(1, 0));
      }
      r := Ok(Decode(k, [source[pos]]));
      pos := pos + 1;
    }

    // -------------------------------------------------------------------
    // Writing.

    /** `Write(byte)`, `Write(sbyte)`, `Write(bool)` through the
        `BinaryWriter`: the byte, `(byte)` of the sbyte, 1 or 0. */
    method WriteDirect(x: Scalar)
      requires Width(KindOf(x)) == 1
      modifies this`sink
      ensures sink == old(sink) + Encode(x)
    {
      var bytes := match x
        case BoolVal(b) => [if b then 1 else 0]
        case ByteVal(u) => [u]
        case SByteVal(sb) => [Lo8(sb as int)];
      sink := sink + bytes;
    }

    /** `Write(char)`, `Write(short)`, `Write(int)`, `Write(long)`,
        `Write(float)`, `Write(double)`: the host-order bytes of
        `BitConverter.GetBytes`, swapped end for end, then written. */
    method WriteSwapped(x: Scalar)
      requires Width(KindOf(x)) > 1
      modifies this`sink
      ensures sink == old(sink) + Encode(x)
    {
      var host := HostBytes(x);
      var tbuf := new uint8[|host|](i requires 0 <= i < |host| => host[i]);
      var bPrime: uint8;
      if tbuf.Length == 2 {
        bPrime := tbuf[0]; tbuf[0] := tbuf[1]; tbuf[1] := bPrime;
      } else if tbuf.Length == 4 {
        bPrime := tbuf[0]; tbuf[0] := tbuf[3]; tbuf[3] := bPrime;
        bPrime := tbuf[1]; tbuf[1] := tbuf[2]; tbuf[2] := bPrime;
      } else {
        bPrime := tbuf[0]; tbuf[0] := tbuf[7]; tbuf[7] := bPrime;
        bPrime := tbuf[1]; tbuf[1] := tbuf[6]; tbuf[6] := bPrime;
        bPrime := tbuf[2]; tbuf[2] := tbuf[5]; tbuf[5] := bPrime;
        bPrime := tbuf[3]; tbuf[3] := tbuf[4]; tbuf[4] := bPrime;
      }
      assert tbuf[..] == Reversed(host);
      HostBytesSwapped(x);
      sink := sink + tbuf[..];
    }

    /** `Write(T[] buf, offset, size)` for every primitive kind `k`. A byte
        array goes straight to the `BinaryWriter`, which refuses a window
        outside the array. Every other kind is staged in `_outBuf`, grown to
        `w * size` bytes when smaller: an index outside `buf` faults before
        anything is written, and a negative size faults at the final write. */
    method WriteRun(k: Kind, buf: array<Scalar>, offset: int, size: int) returns (r: Outcome)
      requires AllOfKind(buf[..], k)
      modifies this`sink, this`outBuf, outBuf
      ensures outBuf == old(outBuf) || fresh(outBuf)
      ensures k == Byte ==> outBuf == old(outBuf)
      ensures k != Byte ==> outBuf.Length == Max(old(outBuf.Length), Width(k) * size)
      ensures k == Byte && (offset < 0 || size < 0 || offset + size > buf.Length) ==>
                r == Fail(ArgumentError) && sink == old(sink)
      ensures k != Byte && size < 0 ==> r == Fail(ArgumentError) && sink == old(sink)
      ensures k != Byte && size >= 0 && Filled(buf.Length, offset, size) < size ==>
                r == Fail(IndexOutOfRange) && sink == old(sink)
      ensures size >= 0 && Filled(buf.Length, offset, size) == size &&
              (k == Byte ==> 0 <= offset && offset + size <= buf.Length) ==>
                AllOfKind(Slots(buf[..], offset, size), k) &&
                r == Pass && sink == old(sink) + EncodeRun(k, Slots(buf[..], offset, size))
    {
      if k == Byte {
        if offset < 0 || size < 0 || offset + size > buf.Length {
          return Fail(ArgumentError);
        }
        SlotsKinds(buf[..], offset, size, k);
        sink := sink + EncodeRun(k, Slots(buf[..], offset, size));
        return Pass;
      }
      var w := Width(k);
      if outBuf.Length < w * size {
        outBuf := new uint8[w * size];
      }
      if size < 0 {
        assert w * size < 0;
        return Fail(ArgumentError);
      }
      var ok := EncodeInto(k, buf, offset, size, outBuf);
      if !ok {
        return Fail(IndexOutOfRange);
      }
      sink := sink + outBuf[..size * w];
      return Pass;
    }

    /** `Write(T[] buf)`: the whole array, one element after another. */
    method WriteWhole(k: Kind, buf: array<Scalar>) returns (r: Outcome)
      requires AllOfKind(buf[..], k)
      modifies this`sink, this`outBuf, outBuf
      ensures outBuf == old(outBuf) || fresh(outBuf)
      ensures outBuf.Length >= old(outBuf.Length)
      ensures k != Byte ==> outBuf.Length == Max(old(outBuf.Length), Width(k) * buf.Length)
      ensures r == Pass && sink == old(sink) + EncodeRun(k, buf[..])
    {
      r := WriteRun(k, buf, 0, buf.Length);
      assert Slots(buf[..], 0, buf.Length) == buf[..];
    }

    /** `Write(String[] buf, offset, size)`: each string's bytes in turn;
        an index outside `buf` faults after the strings before it were
        written. */
    method WriteStrings(buf: array<String16>, offset: int, size: int) returns (r: Outcome)
      modifies this`sink
      ensures var m := Filled(buf.Length, offset, Max(size, 0));
              sink == old(sink) + TextRun(Slots(buf[..], offset, m)) &&
              r == if m == Max(size, 0) then Pass else Fail(IndexOutOfRange)
    {
      ghost var vs := buf[..];
      ghost var m := Filled(buf.Length, offset, Max(size, 0));
      var i := offset;
      while i < offset + size
        invariant 0 <= i - offset <= m
        invariant sink == old(sink) + TextRun(Slots(vs, offset, i - offset))
        decreases offset + size - i
      {
        if i < 0 || i >= buf.Length {
          assert i - offset == m;
          return Fail(IndexOutOfRange);
        }
        TextRunSnoc(vs, offset, i - offset);
        sink := sink + TextBytes(buf[i]);
        i := i + 1;
      }
      return Pass;
    }

    /** `Write(String[] buf)`: every string of the array. */
    method WriteAllStrings(buf: array<String16>) returns (r: Outcome)
      modifies this`sink
      ensures r == Pass && sink == old(sink) + TextRun(buf[..])
    {
      r := WriteStrings(buf, 0, buf.Length);
      assert Slots(buf[..], 0, buf.Length) == buf[..];
    }

    // -------------------------------------------------------------------
    // The array dispatchers.

    /** `ReadArray(o)`: resets `primitiveArrayCount` and reads into `o`. */
    method ReadArray(o: ArrayValue) returns (v: ArrayValue, r: Result<int>)
      requires WellTyped(o)
      modifies this`pos, this`primitiveArrayCount
      ensures var rd := ReadValue(source, o, ReadState(old(pos), 0));
              v == rd.value && ReadState(pos, primitiveArrayCount) == rd.state &&
              r == if rd.err.None? then Ok(rd.state.count) else Err(rd.err.value)
    {
      primitiveArrayCount := 0;
      v, r := PrimitiveArrayRecurse(o);
    }

    /** `PrimitiveArrayRecurse(o)`: reads into every one-dimensional
        primitive array reachable from `o`, in index order, adding the bytes
        each batch read reports to `primitiveArrayCount`, and returns the
        count. The arrays' new contents are returned as `v`. */
    method PrimitiveArrayRecurse(o: ArrayValue) returns (v: ArrayValue, r: Result<int>)
      requires WellTyped(o)
      modifies this`pos, this`primitiveArrayCount
      ensures var rd := ReadValue(source, o, old(ReadState(pos, primitiveArrayCount)));
              v == rd.value && ReadState(pos, primitiveArrayCount) == rd.state &&
              r == if rd.err.None? then Ok(rd.state.count) else Err(rd.err.value)
      decreases o, 1
    {
      match o {
        case Null =>
          return Null, Ok(primitiveArrayCount);
        case NotArray(name) =>
          return o, Err(InvalidObject(name));
        case Rect(_, _, _) =>
          return o, Err(RectangularReadNotSupported);
        case OneD(Strings(_)) =>
          return o, Err(InvalidObject("System.String[]"));
        case OneD(Others(name)) =>
          return o, Err(InvalidObject(name));
        case OneD(Prims(k, vs)) =>
          v := ReadPrimitives(k, vs);
          return v, Ok(primitiveArrayCount);
        case Jagged(es) =>
          v, r := ReadElements(o);
      }
    }

    /** A one-dimensional primitive array in `PrimitiveArrayRecurse`: one
        batch read over the whole array, whose result is added to the
        count. */
    method ReadPrimitives(k: Kind, vs: seq<Scalar>) returns (v: ArrayValue)
      requires AllOfKind(vs, k)
      modifies this`pos, this`primitiveArrayCount
      ensures var rd := ReadLeaf(source, k, vs, old(ReadState(pos, primitiveArrayCount)));
              v == rd.value && ReadState(pos, primitiveArrayCount) == rd.state
    {
      ghost var p0, need := pos, Width(k) * |vs|;
      var a := NewArray(vs);
      var n := Read(k, a, 0, |vs|);
      if need <= Avail(source, p0) {
        ghost var vals := DecodeRun(k, Take(source, p0, need));
        assert Filled(a.Length, 0, |vs|) == |vs|;
        OverlayWhole(vs, vals);
        assert a[..] == vals && n == need;
      } else {
        assert a[..] == vs && n == 0;
      }
      primitiveArrayCount := primitiveArrayCount + n;
      v := OneD(Prims(k, a[..]));
    }

    /** An array of arrays in `PrimitiveArrayRecurse`: each element in index
        order, up to the first exception. */
    method ReadElements(o: ArrayValue) returns (v: ArrayValue, r: Result<int>)
      requires o.Jagged? && WellTyped(o)
      modifies this`pos, this`primitiveArrayCount
      ensures var rd := ReadElems(source, o, 0, old(ReadState(pos, primitiveArrayCount)));
              v == Jagged(rd.values) && ReadState(pos, primitiveArrayCount) == rd.state &&
              r == if rd.err.None? then Ok(rd.state.count) else Err(rd.err.value)
      decreases o, 0
    {
      var es := o.elements;
      ghost var st0 := ReadState(pos, primitiveArrayCount);
      var done: seq<ArrayValue> := [];
      var i := 0;
      while i < |es|
        invariant 0 <= i <= |es| && |done| == i
        invariant ElemsSoFar(source, o, st0, done, i, ReadState(pos, primitiveArrayCount))
      {
        ghost var cur := ReadState(pos, primitiveArrayCount);
        var e, ri := PrimitiveArrayRecurse(es[i]);
        if ri.Err? {
          ElemsSoFarStop(source, o, st0, done, i, cur);
          return Jagged(done + [e] + es[i + 1..]), Err(ri.error);
        }
        ElemsSoFarStep(source, o, st0, done, i, cur);
        done := done + [e];
        i := i + 1;
      }
      return Jagged(done), Ok(primitiveArrayCount);
    }

    /** `WriteArray(o)`: writes every array reachable from `o`, in index
        order, up to the first exception, which it returns. */
    method WriteArray(o: ArrayValue) returns (r: Outcome)
      requires WellTyped(o)
      modifies this`sink, this`outBuf, outBuf
      ensures outBuf == old(outBuf) || fresh(outBuf)
      ensures outBuf.Length >= old(outBuf.Length)
      ensures sink == old(sink) + WriteValue(o).bytes
      ensures r == if WriteValue(o).err.None? then Pass else Fail(WriteValue(o).err.value)
      decreases o, 1
    {
      match o {
        case Null =>
          return Fail(NullReference);
        case NotArray(name) =>
          return Fail(InvalidObject(name));
        case Rect(_, _, _) =>
          r := WriteRectangularArray(o);
        case OneD(Strings(ss)) =>
          var a := NewArray(ss);
          r := WriteStrings(a, 0, |ss|);
          assert Slots(a[..], 0, |ss|) == ss;
        case OneD(Others(name)) =>
          return Fail(InvalidObject(name));
        case OneD(Prims(k, vs)) =>
          var a := NewArray(vs);
          r := WriteRun(k, a, 0, |vs|);
          assert Slots(a[..], 0, |vs|) == vs;
        case Jagged(es) =>
          r := WriteElements(o);
      }
    }

    /** An array of arrays in `WriteArray`: each element in index order, up
        to the first exception. */
    method WriteElements(o: ArrayValue) returns (r: Outcome)
      requires o.Jagged? && WellTyped(o)
      modifies this`sink, this`outBuf, outBuf
      ensures outBuf == old(outBuf) || fresh(outBuf)
      ensures outBuf.Length >= old(outBuf.Length)
      ensures sink == old(sink) + WriteElems(o, 0).bytes
      ensures r == if WriteElems(o, 0).err.None? then Pass else Fail(WriteElems(o, 0).err.value)
      decreases o, 0
    {
      var es := o.elements;
      ghost var total := Emission(old(sink) + WriteElems(o, 0).bytes, WriteElems(o, 0).err);
      var i := 0;
      while i < |es|
        invariant 0 <= i <= |es|
        invariant outBuf == old(outBuf) || fresh(outBuf)
        invariant outBuf.Length >= old(outBuf.Length)
        invariant total.bytes == sink + WriteElems(o, i).bytes && total.err == WriteElems(o, i).err
      {
        WriteElemsStep(o, i, sink, total);
        var ri := WriteArray(es[i]);
        if ri.Fail? {
          return ri;
        }
        i := i + 1;
      }
      return Pass;
    }

    /** `WriteRectangularArray(array)`: the cells of a float, double, int,
        short, long, byte or sbyte array copied to a one-dimensional array
        in memory order and written as one batch; any other element type is
        refused. */
    method WriteRectangularArray(o: ArrayValue) returns (r: Outcome)
      requires o.Rect? && WellTyped(o)
      modifies this`sink, this`outBuf, outBuf
      ensures outBuf == old(outBuf) || fresh(outBuf)
      ensures outBuf.Length >= old(outBuf.Length)
      ensures sink == old(sink) + WriteValue(o).bytes
      ensures r == if WriteValue(o).err.None? then Pass else Fail(WriteValue(o).err.value)
    {
      match o.element {
        case Named(name) =>
          return Fail(RectangularWriteNotSupported(name));
        case Prim(k) =>
          if !RectWritable(k) {
            return Fail(RectangularWriteNotSupported(KindName(k)));
          }
          var cells := Flatten(o.grid);
          var flat := NewArray(cells);
          r := WriteRun(k, flat, 0, |cells|);
          assert Slots(flat[..], 0, |cells|) == cells;
      }
    }

    // -------------------------------------------------------------------
    // Seeking.

    /** `Seek(distance)`: relative to the current position. */
    method SeekForward(distance: int) returns (r: Result<int>)
      requires Valid()
      modifies this`pos, garbageBuf
      ensures canSeek ==> r == SeekTo(source, old(pos), distance, Current) &&
                          (r.Ok? ==> pos == old(pos) + r.value) && (r.Err? ==> pos == old(pos))
      ensures !canSeek ==> r == SkipBy(source, old(pos), distance) &&
                           (r.Ok? ==> pos == old(pos) + r.value) && (r.Err? ==> pos == old(pos))
    {
      r := Seek(distance, Current);
    }

    /** `Seek(distance, origin)`. A seekable stream moves to the target
        position and the result is how far it moved; a target before the
        start faults. An unseekable stream skips forward by reading into
        `_garbageBuf`, at most 1024 bytes at a time, whatever `origin`
        says; a negative distance faults at the first read. The skipping
        loop stops when the distance is covered or a read returns nothing. */
    method Seek(distance: int, origin: SeekOrigin) returns (r: Result<int>)
      requires Valid()
      modifies this`pos, garbageBuf
      ensures canSeek ==> r == SeekTo(source, old(pos), distance, origin) &&
                          (r.Ok? ==> pos == old(pos) + r.value) && (r.Err? ==> pos == old(pos))
      ensures !canSeek ==> r == SkipBy(source, old(pos), distance) &&
                           (r.Ok? ==> pos == old(pos) + r.value) && (r.Err? ==> pos == old(pos))
    {
      if canSeek {
        var oldPos := pos;
        var newPos := match origin
          case Begin => distance
          case Current => pos + distance
          case End => |source| + distance;
        if newPos < 0 {
          return Err(SeekBeforeBegin);
        }
        pos := newPos;
        return Ok(newPos - oldPos);
      }
      if distance < 0 {
        return Err(ArgumentError);
      }
      ghost var d0 := distance;
      var dist := 0;
      var remaining := distance;
      var len := ReadChunk(garbageBuf, 0, Min(remaining, garbageBuf.Length));
      while remaining > 0 && len > 0
        invariant 0 <= len <= remaining && dist + remaining == d0 && dist >= 0
        invariant pos == old(pos) + dist + len
        invariant len <= Avail(source, old(pos) + dist)
        invariant len == 0 ==> remaining == 0 || Avail(source, old(pos) + dist) == 0
        invariant garbageBuf.Length == 1024
        invariant dist <= Avail(source, old(pos)) && Avail(source, old(pos) + dist) == Avail(source, old(pos)) - dist
        decreases remaining
      {
        dist := dist + len;
        remaining := remaining - len;
        len := ReadChunk(garbageBuf, 0, Min(remaining, garbageBuf.Length));
      }
      return Ok(dist);
    }
  }

  /** Where a seekable stream ends up: the offset it moved by, or the
      fault of a target before the start. */
  function SeekTo(source: seq<uint8>, pos: nat, distance: int, origin: SeekOrigin): (r: Result<int>)
    ensures r.Ok? ==> pos + r.value >= 0
    ensures r.Ok? && origin == Current ==> r.value == distance
    ensures r.Err? <==> r == Err(SeekBeforeBegin)
    ensures origin == Begin && distance >= 0 ==> r == Ok(distance - pos)
    ensures origin == End && |source| + distance >= 0 ==> r == Ok(|source| + distance - pos)
    ensures origin == Current && pos + distance >= 0 ==> r == Ok(distance)
    ensures origin == Begin && distance < 0 ==> r.Err?
    ensures origin == End && |source| + distance < 0 ==> r.Err?
  {
    var target := match origin
      case Begin => distance
      case Current => pos + distance
      case End => |source| + distance;
    if target < 0 then Err(SeekBeforeBegin) else Ok(target - pos)
  }

  /** How far an unseekable stream skips: the distance, but no further than
      the end of the input. */
  function SkipBy(source: seq<uint8>, pos: nat, distance: int): (r: Result<int>)
    ensures distance < 0 <==> r == Err(ArgumentError)
    ensures r.Ok? ==> 0 <= r.value <= distance && r.value <= Avail(source, pos)
    ensures 0 <= distance <= Avail(source, pos) ==> r == Ok(distance)
    ensures distance > Avail(source, pos) ==> r == Ok(Avail(source, pos))
  {
    if distance < 0 then Err(ArgumentError) else Ok(Min(distance, Avail(source, pos)))
  }
}
