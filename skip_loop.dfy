/** The skipping loop of `Seek` on a stream that cannot seek, as the source
    writes it: read into the 1024-byte garbage buffer until the distance is
    covered or a read returns -1. A .NET `Stream.Read` returns 0 at the end
    of the stream, never -1, so when the distance reaches beyond the end
    the loop never exits. `BufferedDataStream.Seek` models the intended
    loop, which stops when a read returns 0. */
module SkipLoop {
  import opened Numeric
  import opened Streams

  /** The loop's variables: the distance still to skip, the total skipped,
      the length of the last read, and the input position. */
  datatype Skip = Skip(distance: int, dist: int, len: int, pos: nat)

  /** One read of at most `request` bytes into the garbage buffer; the
      stream is taken to return as much as it has, up to the request. */
  function ReadGarbage(source: seq<uint8>, pos: nat, request: nat): (n: nat)
    ensures n <= request && n <= 1024 && n <= Avail(source, pos)
    ensures n == 0 <==> request == 0 || Avail(source, pos) == 0
  {
    Min(Min(request, 1024), Avail(source, pos))
  }

  /** The last read never exceeds the distance it was asked for. */
  ghost predicate Sound(s: Skip) {
    0 <= s.len <= s.distance
  }

  /** The state after the loop's initial read. */
  function Start(source: seq<uint8>, pos: nat, distance: nat): (s: Skip)
    ensures Sound(s) && s.distance == distance && s.dist == 0 && s.pos == pos + s.len
  {
    var len := ReadGarbage(source, pos, distance);
    Skip(distance, 0, len, pos + len)
  }

  /** One pass of the loop body: count the last read, then read again. */
  function Step(source: seq<uint8>, s: Skip): (t: Skip)
    requires Sound(s)
    ensures Sound(t)
    ensures t.distance == s.distance - s.len && t.dist == s.dist + s.len
    ensures t.pos == s.pos + t.len
  {
    var d := s.distance - s.len;
    var len := ReadGarbage(source, s.pos, d);
    Skip(d, s.dist + s.len, len, s.pos + len)
  }

  /** The loop condition as written. */
  predicate GuardAsWritten(s: Skip) {
    s.distance > 0 && s.len != -1
  }

  /** At most `n` passes of the loop as written. */
  function RunAsWritten(source: seq<uint8>, s: Skip, n: nat): (t: Skip)
    requires Sound(s)
    ensures Sound(t)
    ensures t.dist + t.distance == s.dist + s.distance
    ensures s.dist <= t.dist
    ensures t.pos - t.len - t.dist == s.pos - s.len - s.dist
    ensures !GuardAsWritten(s) ==> t == s
    decreases n
  {
    if n == 0 || !GuardAsWritten(s) then s else RunAsWritten(source, Step(source, s), n - 1)
  }

  /** Reading never gets ahead of the input: the distance still to skip
      stays beyond what is left. */
  ghost predicate Beyond(source: seq<uint8>, s: Skip) {
    Sound(s) && s.distance - s.len > Avail(source, s.pos)
  }

  lemma StepBeyond(source: seq<uint8>, s: Skip)
    requires Beyond(source, s)
    ensures GuardAsWritten(s) && Beyond(source, Step(source, s))
  {
    var t := Step(source, s);
    assert Avail(source, s.pos + t.len) == Avail(source, s.pos) - t.len;
  }

  /** When the distance reaches beyond the end of the input, the loop as
      written is still running after any number of passes. */
  lemma {:induction false} AsWrittenNeverExits(source: seq<uint8>, pos: nat, distance: nat, n: nat)
    requires distance > Avail(source, pos)
    ensures GuardAsWritten(RunAsWritten(source, Start(source, pos, distance), n))
  {
    var s := Start(source, pos, distance);
    assert Avail(source, pos + s.len) == Avail(source, pos) - s.len;
    RunBeyond(source, s, n);
  }

  lemma {:induction false} RunBeyond(source: seq<uint8>, s: Skip, n: nat)
    requires Beyond(source, s)
    ensures Beyond(source, RunAsWritten(source, s, n))
    ensures GuardAsWritten(RunAsWritten(source, s, n))
    decreases n
  {
    StepBeyond(source, s);
    if n > 0 {
      RunBeyond(source, Step(source, s), n - 1);
    }
  }

  /** The smallest such input: skipping one byte of an empty unseekable
      stream. The first read returns 0 and the loop goes round forever. */
  lemma EmptyInputNeverExits(n: nat)
    ensures GuardAsWritten(RunAsWritten([], Start([], 0, 1), n))
  {
    AsWrittenNeverExits([], 0, 1, n);
  }
}
