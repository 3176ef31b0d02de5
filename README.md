# BufferedDataStream: a verified model of the FITS big-endian transcoder

`BufferedDataStream` (CSharpFITS) wraps a .NET `Stream` and reads and writes
FITS data in the layout of the FITS Standard 4.0: section 5.2 (big-endian
two's-complement integers) and section 5.3 (IEEE-754 values, transported as
their bit patterns). This project models its core, which has five parts:

- the exact-read guard `ReadBytesExactly`;
- the batch codecs `Read(T[], offset, size)` and `Write(T[], offset, size)`
  for bool, byte, sbyte, char, short, int, long, float and double, with
  their whole-array wrappers and the staging buffer `_outBuf`;
- the single-value readers and writers (the writers swap the host's
  little-endian `BitConverter` bytes);
- the array dispatchers `ReadArray`/`PrimitiveArrayRecurse`, which count
  bytes in `primitiveArrayCount`, and `WriteArray`/`WriteRectangularArray`;
- `Seek`, which delegates on a seekable stream and skips by reading into
  `_garbageBuf` on one that cannot seek.

The model has six modules:

- `Numeric` (`numeric.dfy`): the fixed-width integer types, and the byte
  lanes `Lo8(x / 2^k)` with their big-endian composition. It also holds the
  division-chain lemmas behind every round trip.
- `Streams` (`streams.dfy`):
  - the exceptions as an `IOError` datatype;
  - `Result`/`Outcome`;
  - the input as a byte sequence read from a position.
- `ScalarCodec` (`scalar_codec.dfy`):
  - the per-element wire format: `Encode`/`Decode` and the batch lifts
    `EncodeRun`/`DecodeRun`;
  - the host byte order of `BitConverter`;
  - strings written as raw bytes.
- `ArrayValues` (`array_values.dfy`):
  - the dispatcher's objects as a datatype (null, non-array,
    one-dimensional, array of arrays, rectangular);
  - row-major flattening;
  - what reading into an object and writing it do, as the functions
    `ReadValue` and `WriteValue`.
- `BufferedData` (`buffered_data_stream.dfy`):
  - the class `BufferedDataStream`: its input bytes and position, the bytes
    written so far, `_outBuf`, `_garbageBuf` and `primitiveArrayCount`;
  - one method per operation, each proved against the functions above;
  - the batch loops `DecodeInto`/`EncodeInto` over arrays.
- `SkipLoop` (`skip_loop.dfy`): the unseekable skip loop as written, with
  reads that return as much as they can,
  which does not terminate at the end of the input (see Findings).

The nine typed overloads of each codec become one method over a `Kind`
tag and an `array<Scalar>` whose slots all hold that kind, as C#'s typing
guarantees. The wrapped stream's `Read` may return any positive number of
bytes up to what is asked for and available, and 0 only at the end of the
input. The proofs hold for every such sequence of short reads.

## Model

| member | source | states |
|---|---|---|
| BufferedData.BufferedDataStream.constructor | CSharpFITS/util/BufferedDataStream.cs:41-51 | a new stream stands at the start of its input (offset 0), has written nothing, has an empty staging buffer, a 1024-byte garbage buffer and a zero count |
| BufferedData.BufferedDataStream.ReadBytesExactly | CSharpFITS/util/BufferedDataStream.cs:1060-1078 | for any short-read behaviour: the next `count` bytes exactly, advancing by `count`; or, when fewer remain, an end-of-stream error reporting the count and the bytes available, after consuming them all; a negative count fails without reading |
| BufferedData.BufferedDataStream.Read | CSharpFITS/util/BufferedDataStream.cs:293-512 | a negative size or too little input gives 0 and leaves the buffer untouched (the input is still consumed); otherwise `stride*size` bytes are consumed and the slots from `offset` on get the decoded values, the rest unchanged; the result is `stride*size` only if every slot fit, and a byte window that does not fit stores nothing |
| BufferedData.BufferedDataStream.ReadWhole | CSharpFITS/util/BufferedDataStream.cs:248-291 | the whole array is the decoding of the next bytes and the result is their number, or, on short input, the array is unchanged and the result 0 |
| BufferedData.BufferedDataStream.ReadScalar | CSharpFITS/util/BufferedDataStream.cs:109-149 | `ReadChar`/`ReadInt16`/`ReadInt32`/`ReadInt64`/`ReadSingle`/`ReadDouble` give the decoded next `stride` bytes, or the kind's default (0) without an error when fewer remain |
| BufferedData.BufferedDataStream.ReadDirect | CSharpFITS/util/BufferedDataStream.cs:93-107 | `ReadBoolean`/`ReadByte`/`ReadSByte` decode one byte, or report end of stream without moving |
| BufferedData.Overlay | CSharpFITS/util/BufferedDataStream.cs:408-419 | what a batch read leaves in the caller's buffer after storing `m` decoded values: the same length, slot `offset + i` holding the i-th value for every `i < m`, every other slot unchanged |
| BufferedData.DecodeInto | CSharpFITS/util/BufferedDataStream.cs:408-419 | the decoding loop stores the i-th decoded value at `offset + i` until an index falls outside the buffer, changes no other slot, and returns how many it stored |
| BufferedData.Filled | CSharpFITS/util/BufferedDataStream.cs:410-413 | how many slots a loop from `offset` can store before leaving the buffer: all `size` exactly when the window fits |
| BufferedData.BufferedDataStream.WriteDirect | CSharpFITS/util/BufferedDataStream.cs:517-530 | a bool, byte or sbyte is appended as its single wire byte |
| BufferedData.BufferedDataStream.WriteSwapped | CSharpFITS/util/BufferedDataStream.cs:532-619 | swapping `BitConverter`'s little-endian bytes end for end appends exactly the big-endian encoding the batch writer emits |
| BufferedData.HostBytesSwapped | CSharpFITS/util/BufferedDataStream.cs:532-582 | the reversed host-order bytes of every multi-byte value are its big-endian encoding |
| BufferedData.BufferedDataStream.WriteRun | CSharpFITS/util/BufferedDataStream.cs:815-970 | the staging buffer grows to `max(old length, stride*size)` and never shrinks (the byte kind leaves it alone); a window inside `buf` appends exactly the encodings of its elements; an index outside `buf`, a negative size, or a byte window outside the array fails and appends nothing |
| BufferedData.EncodeInto | CSharpFITS/util/BufferedDataStream.cs:876-891 | the staging loop fills the first `stride*size` bytes with the encodings of the window, and fails exactly when the window leaves `buf` |
| BufferedData.BufferedDataStream.WriteWhole | CSharpFITS/util/BufferedDataStream.cs:765-808 | writing a whole array appends the encoding of every element, in order; the staging buffer grows to `max(old length, stride*length)` (the byte kind leaves it alone) and never shrinks |
| BufferedData.BufferedDataStream.WriteStrings | CSharpFITS/util/BufferedDataStream.cs:972-978 | the strings of the window are written back to back with no separator; an index outside `buf` fails after the strings before it were written |
| BufferedData.BufferedDataStream.WriteAllStrings | CSharpFITS/util/BufferedDataStream.cs:810-813 | writing a whole string array appends every string's bytes in order |
| BufferedData.BufferedDataStream.ReadArray | CSharpFITS/util/BufferedDataStream.cs:162-166 | the count restarts at 0; the result, the new position, the count and the arrays' new contents are those of `ReadValue` |
| BufferedData.BufferedDataStream.PrimitiveArrayRecurse | CSharpFITS/util/BufferedDataStream.cs:170-246 | the recursive walk reads exactly what `ReadValue` describes, adding each leaf read's result to `primitiveArrayCount` in index order |
| BufferedData.BufferedDataStream.ReadPrimitives | CSharpFITS/util/BufferedDataStream.cs:199-244 | a one-dimensional primitive array is read whole and its result added to the count, as `ReadLeaf` describes |
| BufferedData.BufferedDataStream.ReadElements | CSharpFITS/util/BufferedDataStream.cs:186-193 | the elements of an array of arrays are read in index order, stopping at the first exception, as `ReadElems` describes |
| ArrayValues.ReadValue | CSharpFITS/util/BufferedDataStream.cs:170-246 | a null adds nothing and moves nothing; a non-array, a string array, an unknown element type and a rectangular array are refused without reading; the position never moves back |
| ArrayValues.ReadLeaf | CSharpFITS/util/BufferedDataStream.cs:199-244 | a leaf read neither raises nor changes the array's kind or length |
| ArrayValues.ReadElems | CSharpFITS/util/BufferedDataStream.cs:186-193 | the reading of an array of arrays has one value per element and never moves the position back |
| ArrayValues.ReadCountBound | CSharpFITS/util/BufferedDataStream.cs:170-246 | the count never decreases and grows by no more than the bytes consumed |
| ArrayValues.ReadElemsCountBound | CSharpFITS/util/BufferedDataStream.cs:186-193 | the same bound over the elements of an array of arrays |
| ArrayValues.ReadStopsAtError | CSharpFITS/util/BufferedDataStream.cs:186-193 | after an element raises, the later elements keep their contents and the exception is the one that element raised |
| ArrayValues.ReadAfterWrite | CSharpFITS/util/BufferedDataStream.cs:162-246 | reading what `WriteArray` emitted into an array of the same shape gives back the written values, consumes exactly those bytes, and counts every one of them |
| ArrayValues.WriteValue | CSharpFITS/util/BufferedDataStream.cs:629-706 | a null faults on `GetType()`, and a non-array, a one-dimensional array of an unknown element type, a rectangular array of a non-primitive type and a rectangular bool or char array are refused by name, each emitting nothing |
| ArrayValues.JaggedOf | CSharpFITS/util/BufferedDataStream.cs:712-763 | a grid's jagged counterpart has one element per row, and its innermost rows are primitive arrays of the cells |
| BufferedData.BufferedDataStream.WriteArray | CSharpFITS/util/BufferedDataStream.cs:629-706 | appends exactly the bytes `WriteValue` gives and returns its exception; the staging buffer is the old one or a fresh one that is no shorter |
| BufferedData.BufferedDataStream.WriteElements | CSharpFITS/util/BufferedDataStream.cs:642-649 | an array of arrays is written element by element in index order, stopping at the first exception; the staging buffer never shrinks |
| BufferedData.BufferedDataStream.WriteRectangularArray | CSharpFITS/util/BufferedDataStream.cs:712-763 | a rectangular float, double, int, short, long, byte or sbyte array is written as one batch of its row-major cells; any other element type is refused by name and emits nothing; the staging buffer never shrinks |
| ArrayValues.RectWriteMatchesJagged | CSharpFITS/util/BufferedDataStream.cs:712-763 | writing a rectangular array emits the same bytes as writing the array of arrays with the same rows |
| ArrayValues.FlattenAt | CSharpFITS/util/BufferedDataStream.cs:712-763 | the cell at index tuple `idx` sits at its row-major position of the flattened run |
| ArrayValues.Flatten | CSharpFITS/util/BufferedDataStream.cs:719-757 | the one-dimensional copy of a rectangular array: a row of cells is itself, and a grid of one row is that row's copy (its length and row-major order are `FlattenSize` and `FlattenAt`) |
| ArrayValues.WriteElems | CSharpFITS/util/BufferedDataStream.cs:642-649 | writing the elements from `i` on: nothing past the end, and a write that ends without an exception wrote every one of those elements without one |
| ArrayValues.ReadableJagged | CSharpFITS/util/BufferedDataStream.cs:184-193 | the array of arrays a rectangular grid stands for is one the read dispatcher accepts (it recurses into it instead of refusing it) |
| ArrayValues.RectReadBack | CSharpFITS/util/BufferedDataStream.cs:184-196 | a rectangular array written by `WriteRectangularArray` and read back into an array of arrays of the same shape gives the grid's rows with their cells, consuming and counting every byte written |
| ArrayValues.FlattenSize | CSharpFITS/util/BufferedDataStream.cs:712-763 | the flattened run holds the product of the extents |
| BufferedData.BufferedDataStream.Seek | CSharpFITS/util/BufferedDataStream.cs:1005-1025 | a seekable stream moves to the target and returns how far it moved, or faults on a target before the start; an unseekable one skips the whole distance when that much input remains and otherwise stops at the end of the input, and returns how far it skipped; a negative distance on an unseekable stream faults without moving |
| BufferedData.BufferedDataStream.SeekForward | CSharpFITS/util/BufferedDataStream.cs:1000-1003 | `Seek(distance)` is the seek relative to the current position |
| BufferedData.SeekTo | CSharpFITS/util/BufferedDataStream.cs:1007-1012 | a seek from the start, the current position or the end succeeds exactly when its target is not before the start, moving by the distance (relative) or onto the target; a target before the start faults with the seek-before-begin error, for each origin |
| BufferedData.SkipBy | CSharpFITS/util/BufferedDataStream.cs:1013-1024 | a skip covers the whole distance when that much input remains, and otherwise stops at the end of the input; a negative distance faults |
| ScalarCodec.DecodeEncode | CSharpFITS/util/BufferedDataStream.cs:364-512 | reading back one element's written bytes gives the original value, for every kind |
| ScalarCodec.EncodeDecode | CSharpFITS/util/BufferedDataStream.cs:846-970 | writing back what was read gives the original bytes for every kind but bool, whose nonzero bytes are written back as 1 |
| ScalarCodec.DecodeEncodeRun | CSharpFITS/util/BufferedDataStream.cs:364-512 | the batch round trip: reading back a batch write gives the same values |
| ScalarCodec.EncodeDecodeRun | CSharpFITS/util/BufferedDataStream.cs:846-970 | for every kind but bool, writing back a batch read reproduces the bytes |
| ScalarCodec.BoolRunBytes | CSharpFITS/util/BufferedDataStream.cs:833-844 | a bool batch write emits exactly one byte per element, 1 for true and 0 for false |
| ScalarCodec.EncodeRunSingle | CSharpFITS/util/BufferedDataStream.cs:532-614 | a single-value write emits what a one-element batch write emits |
| ScalarCodec.DecodeRunSingle | CSharpFITS/util/BufferedDataStream.cs:109-149 | one element's bytes decode to exactly that element |
| ScalarCodec.EncodeRunAppend | CSharpFITS/util/BufferedDataStream.cs:815-970 | the encoding of two runs back to back is the concatenation of their encodings |
| ScalarCodec.WireExamples | CSharpFITS/util/BufferedDataStream.cs:882-890 | the int 0x01020304 is written as 01 02 03 04, -1 as FF FF FF FF, and the char 'A' as 00 41 |
| ScalarCodec.TextBytes | CSharpFITS/util/BufferedDataStream.cs:972-978 | a string is written as one byte per character, its low eight bits |
| ScalarCodec.Width | CSharpFITS/util/BufferedDataStream.cs:81-88 | the byte strides: 1 exactly for bool, byte and sbyte, 2 exactly for char and short, 8 exactly for long and double, and so 4 for int and float |
| ScalarCodec.Default | CSharpFITS/util/BufferedDataStream.cs:109-149 | what the one-slot array of `ReadChar`…`ReadDouble` still holds after a swallowed short read: a value of the kind asked for whose wire bytes are all zero |
| ScalarCodec.Encode | CSharpFITS/util/BufferedDataStream.cs:833-970 | one element is exactly `stride` bytes: 1/0 for a bool, the byte, `(byte)` of an sbyte, and the shifted lanes most significant first for the wider kinds (the float writer through `SingleToInt32Bits`); `DecodeEncode` and `EncodeDecode` prove `Decode` its inverse |
| ScalarCodec.Decode | CSharpFITS/util/BufferedDataStream.cs:332-512 | one element's `stride` bytes compose to a value of the kind read: nonzero bytes are true, and the wider kinds are the big-endian composition narrowed to their width (lines 364, 385, 412, 439-440, 467-468, 495-497) |
| ScalarCodec.EncodeRun | CSharpFITS/util/BufferedDataStream.cs:815-970 | a batch of `n` elements writes exactly `stride * n` bytes, the elements' encodings in index order |
| ScalarCodec.DecodeRun | CSharpFITS/util/BufferedDataStream.cs:293-512 | a batch read yields values of the kind read, one per whole `stride`-byte group: `n * stride <= bytes < (n + 1) * stride` |
| ScalarCodec.HostBytes | CSharpFITS/util/BufferedDataStream.cs:532-599 | `BitConverter.GetBytes` on a little-endian host gives `stride` bytes, least significant first; `HostBytesSwapped` proves their reversal the big-endian encoding |
| ScalarCodec.TextRun | CSharpFITS/util/BufferedDataStream.cs:972-978 | an empty string array writes nothing, and it writes at least as many bytes as the last string has; `TextRunAppend` gives the back-to-back layout |
| BufferedData.BufferedDataStream.ReadChunk | CSharpFITS/util/BufferedDataStream.cs:1067 | `_s.Read(buf, off, n)` stores the next `k` input bytes at `off` and leaves the rest of `buf` alone, with `k <= n` and `k <= ` what remains, and `k == 0` exactly when nothing was asked for or nothing remains |
| ScalarCodec.TextRunAppend | CSharpFITS/util/BufferedDataStream.cs:972-978 | the bytes of two string runs back to back are the bytes of each, concatenated |
| SkipLoop.Start | CSharpFITS/util/BufferedDataStream.cs:1015 | the loop's first read into the garbage buffer asks for the distance (at most 1024 bytes), keeps the whole distance still to skip, has skipped nothing yet, and moves the position by what it read |
| SkipLoop.Step | CSharpFITS/util/BufferedDataStream.cs:1016-1021 | one pass of the loop as written subtracts the last read from the distance, adds it to the total, and moves the position by the next read |
| SkipLoop.RunAsWritten | CSharpFITS/util/BufferedDataStream.cs:1016-1022 | the `for` loop as written, run while `GuardAsWritten` (`distance > 0 && len != -1`) holds: the total skipped never falls and plus the remaining distance stays the requested one, the position is always the start plus the total and the last read, and a loop whose guard is already false does nothing |
| SkipLoop.AsWrittenNeverExits | CSharpFITS/util/BufferedDataStream.cs:1016-1022 | the loop as written is still running after any number of passes once the distance reaches beyond the end of the input |
| SkipLoop.EmptyInputNeverExits | CSharpFITS/util/BufferedDataStream.cs:1016-1022 | skipping one byte of an empty unseekable stream never leaves the loop as written |
| SkipLoop.ReadGarbage | CSharpFITS/util/BufferedDataStream.cs:1015-1021 | one garbage read returns at most the request, 1024 and what remains, and 0 exactly when nothing was asked for or nothing remains |

## Left out

- .NET plumbing is not modelled:
  - the `BufferedStream`, `BinaryReader` and `BinaryWriter` construction;
  - `Flush`, `Close` and `SetLength`;
  - the delegating `CanRead`, `CanSeek`, `CanWrite`, `Length`, `Position`
    and `FilePointer` properties;
  - the one-argument constructor's buffer size.
- The stream is modelled as writable.
- Input and output are kept apart: the bytes read come from a fixed input
  and the bytes written are appended to a separate output. The position
  shared by reading and writing on one .NET stream is not modelled.
- Of the `#if NETSTANDARD2_0` / `#else` alternatives, the model follows
  one branch each; the other produces the same bytes and values:
  - `ReadBytesExactly` follows the `NETSTANDARD2_0` loop over `Stream.Read`
    (lines 1064-1073), not `Stream.ReadExactly` (line 1075);
  - the short, int, long, float and double batch readers follow the
    `NETSTANDARD2_0` shift composition (for example line 412, and lines
    467-468 and 495-497 with the bits taken as the float or double), not
    the `BinaryPrimitives` readers of the `#else` branches;
  - the float batch writer follows the `#else` branch, which takes the
    bits with `BitConverter.SingleToInt32Bits` (lines 933-948), not the
    `unsafe` pointer cast `*(int*)&f` of the `NETSTANDARD2_0` branch
    (lines 915-931).
- `BufferedData.BufferedDataStream.WriteRun`: the product `stride * size`
  is a 32-bit `int` in the source and is taken here as an unbounded
  integer. A product beyond 2^31 - 1 that wraps around is not modelled.
- `BufferedData.BufferedDataStream.Read`: the byte count `stride * size`
  passed to `ReadBytesExactly` is a 32-bit `int` in the source (for
  example lines 408 and 463) and is unbounded here. A size whose product
  wraps around is not modelled: for an int array and size 2^30 + 1 the
  source asks for 4 bytes, the model for 4 · (2^30 + 1).
- `BufferedData.BufferedDataStream.WriteRectangularArray`: the byte count
  `totalLength * sizeof(T)` given to `Buffer.BlockCopy` (lines 720-744) is
  a 32-bit `int` in the source and is unbounded here. Its wrap-around is
  not modelled.
- `BufferedData.BufferedDataStream.Seek`: the read request
  `(int)Math.Min(distance, 1024)` (lines 1016 and 1021) truncates a
  64-bit distance to 32 bits. The model takes every negative distance as
  the fault of the first read. A negative distance whose low 32 bits are
  a small non-negative number (such as -2^32 + 5, which the cast turns
  into 5) makes the source read up to that many bytes and return 0; that
  case is not modelled.
- `BufferedData.BufferedDataStream.constructor`: the wrapped stream is
  taken to stand at its start, offset 0, when it is wrapped, so that the
  position is the absolute offset `Seek` from `Begin` or `End` works with.
  A stream already advanced before it was wrapped is not modelled.
- `BufferedData.BufferedDataStream.ReadArray`: `primitiveArrayCount` is a
  32-bit `int` in the source and is unbounded here. Its overflow is not
  modelled.
- `BufferedData.BufferedDataStream.PrimitiveArrayRecurse`: the C# method
  fills the caller's leaf arrays in place. The model returns the filled
  value as an `ArrayValue` instead, so aliasing between leaf arrays is not
  modelled.
- `BufferedData.BufferedDataStream.WriteStrings`: the loop bound
  `offset + size` (line 974) is a 32-bit `int` in the source and wraps;
  here it is unbounded. For a 3-element array, offset 1 and size
  2^31 - 1, the source's bound wraps to -2^31, the loop never runs and
  the write returns with nothing written; the model writes `buf[1]` and
  `buf[2]` and then fails with an index out of range. The same holds for
  offset 2^31 - 1 and size 1.
- The batch codecs' buffers are never null here: `array<Scalar>` and
  `array<String16>` have no null value. In the source, `Read(null, offset,
  size)` still consumes `stride * size` bytes through `ReadBytesExactly`,
  then faults on the first store (or in `Buffer.BlockCopy`), and the
  swallowed exception makes it return 0. `Write(null, offset, size)` with
  a positive size raises a `NullReferenceException` from the staging loop,
  or for bytes an `ArgumentNullException` from `BinaryWriter.Write`. Neither
  path is modelled.
- The host is taken to be little-endian. `BufferedData.BufferedDataStream.WriteSwapped`
  and `BufferedData.HostBytesSwapped` rely on `BitConverter.GetBytes`
  giving the least significant byte first; on a big-endian host the
  source's unconditional swap would write little-endian bytes.
- Null elements are modelled as `Null` entries of an array of arrays. Null
  strings inside a string array are not modelled.
- Float and double values are only bit patterns. NaN, infinities and
  IEEE-754 arithmetic play no part in transcoding and are not modelled.
- `ArrayFuncs.GetDimensions`, `ArrayFuncs.IsArrayOfArrays` and
  `SupportClass.ToByteArray` are not part of this model:
  - the first two become the shape of an `ArrayValue`;
  - `ToByteArray` is taken as one byte per UTF-16 code unit, its low eight
    bits.
- `Buffer.BlockCopy` of a rectangular array is taken to copy its cells in
  row-major order.
- `Read(byte[], …)` is modelled with an up-front bounds check that stores
  nothing when the window does not fit, as the framework's range copy
  does.
- The unseekable skip loop (`SkipLoop.ReadGarbage`) assumes each read into
  `_garbageBuf` returns as many bytes as it can. `BufferedData.BufferedDataStream.Seek`
  itself allows any short read.
- Where the code's behaviour differs from its documented intent, the model
  follows the code:
  - `ReadChar`, `ReadInt16`, `ReadInt32`, `ReadInt64`, `ReadSingle` and
    `ReadDouble` do not throw at the end of the input: the swallowed batch
    failure makes them return 0;
  - a batch read is all-or-nothing: it returns `stride*size` or 0, never a
    partial count;
  - the unseekable `Seek` ignores `origin`;
  - a negative distance on an unseekable stream is modelled as the
    argument error of the first read. It is not excluded by a precondition.

## Findings

| source | as written | input that shows it | evidently intended | confidence | as-written member | corrected member |
|---|---|---|---|---|---|---|
| CSharpFITS/util/BufferedDataStream.cs:1016-1022 | the skip loop of an unseekable `Seek` runs while `distance > 0 && len != -1`, but `Stream.Read` returns 0 at the end of the stream, never -1 | `Seek(1)` on an empty unseekable stream: the first read returns 0, the distance stays 1, and the loop never exits | stop when a read returns 0, having skipped what was left | not executed | SkipLoop.AsWrittenNeverExits | BufferedData.BufferedDataStream.Seek |
