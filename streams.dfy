/** What the transcoder can observe of the stream it wraps: the exceptions
    it raises or lets through, and the window of input bytes ahead of the
    read position. */
module Streams {
  import opened Numeric

  /** The exceptions of the C# code, as values. */
  datatype IOError =
    | EndOfStream(requested: nat, available: nat)   // EndOfStreamException of the exact-read guard
    | Overflow                                      // `new byte[n]` with a negative n
    | IndexOutOfRange                               // an array index outside the array
    | ArgumentError                                 // Argument(OutOfRange)Exception of a stream or BlockCopy
    | InvalidObject(typeName: string)               // IOException: not an array, or an unknown element type
    | RectangularReadNotSupported                   // IOException of the read dispatcher
    | RectangularWriteNotSupported(elementName: string)
    | NullReference                                 // a null array handed to the write dispatcher
    | SeekBeforeBegin                               // IOException of Stream.Seek on a seekable stream

  datatype Result<T> = Ok(value: T) | Err(error: IOError)

  /** The outcome of an operation that returns nothing (a C# `void` method). */
  datatype Outcome = Pass | Fail(error: IOError)

  /** Bytes still to be read from `source` at position `pos` (a seekable
      stream may be positioned past its end). */
  function Avail(source: seq<uint8>, pos: nat): (n: nat)
    ensures pos + n <= |source| || n == 0
    ensures n == 0 <==> pos >= |source|
  {
    if pos <= |source| then |source| - pos else 0
  }

  /** The next `n` bytes of `source` after `pos`. */
  function Take(source: seq<uint8>, pos: nat, n: nat): (s: seq<uint8>)
    requires n <= Avail(source, pos)
    ensures |s| == n
    ensures forall i :: 0 <= i < n ==> s[i] == source[pos + i]
  {
    if n == 0 then [] else source[pos..pos + n]
  }

  /** Reading `m` bytes and then `n` more takes the next `m + n` bytes. */
  lemma {:induction false} TakeSplit(source: seq<uint8>, pos: nat, m: nat, n: nat)
    requires m + n <= Avail(source, pos)
    ensures Avail(source, pos + m) == Avail(source, pos) - m
    ensures Take(source, pos, m + n) == Take(source, pos, m) + Take(source, pos + m, n)
  {
    var whole, left, right := Take(source, pos, m + n), Take(source, pos, m), Take(source, pos + m, n);
    assert |whole| == |left + right|;
    forall i | 0 <= i < m + n ensures whole[i] == (left + right)[i] {
      if i >= m {
        assert right[i - m] == source[pos + m + (i - m)];
      }
    }
  }
}
