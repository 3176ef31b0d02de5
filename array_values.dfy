/** The objects the array dispatcher is handed, as values, and what reading
    into them and writing them does.

    Reflection on the C# side (`GetType().IsArray`, `GetDimensions`,
    `IsArrayOfArrays`, `GetElementType`) becomes the shape of an
    `ArrayValue`: a null reference, a non-array object, a one-dimensional
    array of some element type, an array of arrays, or a rectangular
    multi-dimensional array whose cells are kept as a nested grid. */
module ArrayValues {
  import opened Numeric
  import opened Streams
  import opened ScalarCodec

  datatype Option<T> = None | Some(value: T)

  /** A one-dimensional array: of a primitive kind, of strings, or of any
      other element type (named by the array type's full name). */
  datatype Leaf =
    | Prims(kind: Kind, values: seq<Scalar>)
    | Strings(texts: seq<String16>)
    | Others(arrayTypeName: string)

  /** The element type of a rectangular array. */
  datatype ElemType = Prim(kind: Kind) | Named(typeName: string)

  /** The cells of a rectangular array, one level per dimension. */
  datatype Grid = Cells(cells: seq<Scalar>) | Rows(rows: seq<Grid>)

  datatype ArrayValue =
    | Null
    | NotArray(typeName: string)
    | OneD(leaf: Leaf)
    | Jagged(elements: seq<ArrayValue>)
    | Rect(element: ElemType, dims: seq<nat>, grid: Grid)

  /** The `Type.FullName` of each primitive element type. */
  function KindName(k: Kind): (name: string) {
    match k
    case Bool => "System.Boolean"
    case Byte => "System.Byte"
    case SByte => "System.SByte"
    case Char => "System.Char"
    case Short => "System.Int16"
    case Int => "System.Int32"
    case Long => "System.Int64"
    case Float => "System.Single"
    case Double => "System.Double"
  }

  // ---------------------------------------------------------------------
  // Rectangular arrays.

  function Product(dims: seq<nat>): (p: nat) {
    if dims == [] then 1 else dims[0] * Product(dims[1..])
  }

  /** `g` has the extents `dims`, outermost first. */
  ghost predicate Shaped(g: Grid, dims: seq<nat>)
    decreases g
  {
    match g
    case Cells(c) => |dims| == 1 && |c| == dims[0]
    case Rows(rs) =>
      |dims| > 1 && |rs| == dims[0] && forall i :: 0 <= i < |rs| ==> Shaped(rs[i], dims[1..])
  }

  /** The cells in row-major order: the last index varies fastest, which is
      the memory order `Buffer.BlockCopy` copies a rectangular array in. */
  function Flatten(g: Grid): (cells: seq<Scalar>)
    ensures g.Cells? ==> cells == g.cells
    ensures g.Rows? && |g.rows| == 1 ==> cells == Flatten(g.rows[0])
    decreases g, 1
  {
    match g
    case Cells(c) => c
    case Rows(rs) =>
      assert |rs| == 1 ==> FlattenRows(g, 0) == Flatten(rs[0]) + FlattenRows(g, 1) == Flatten(rs[0]) + [];
      FlattenRows(g, 0)
  }

  /** The flattened rows `i..` of `g`, one row after another. */
  function FlattenRows(g: Grid, i: nat): (cells: seq<Scalar>)
    requires g.Rows?
    decreases g, 0, |g.rows| - i
  {
    if i >= |g.rows| then [] else Flatten(g.rows[i]) + FlattenRows(g, i + 1)
  }

  ghost predicate InBounds(idx: seq<nat>, dims: seq<nat>) {
    |idx| == |dims| && forall j :: 0 <= j < |dims| ==> idx[j] < dims[j]
  }

  /** The cell at index tuple `idx`. */
  function At(g: Grid, dims: seq<nat>, idx: seq<nat>): (x: Scalar)
    requires Shaped(g, dims) && InBounds(idx, dims)
    decreases g
  {
    match g
    case Cells(c) => c[idx[0]]
    case Rows(rs) =>
      assert InBounds(idx[1..], dims[1..]) by {
        forall j | 0 <= j < |dims| - 1 ensures idx[1..][j] < dims[1..][j] {
          assert idx[1..][j] == idx[j + 1] && dims[1..][j] == dims[j + 1];
        }
      }
      At(rs[idx[0]], dims[1..], idx[1..])
  }

  /** The position of index tuple `idx` in the row-major order. */
  function RowMajor(dims: seq<nat>, idx: seq<nat>): (n: int)
    requires |idx| == |dims|
  {
    if dims == [] then 0 else idx[0] * Product(dims[1..]) + RowMajor(dims[1..], idx[1..])
  }

  /** A grid of extents `dims` holds exactly `Product(dims)` cells. */
  lemma {:induction false} FlattenSize(g: Grid, dims: seq<nat>)
    requires Shaped(g, dims)
    ensures |Flatten(g)| == Product(dims)
    decreases g, 1
  {
    match g
    case Cells(c) =>
    case Rows(rs) => FlattenRowsSize(g, dims, 0);
  }

  lemma {:induction false} FlattenRowsSize(g: Grid, dims: seq<nat>, i: nat)
    requires g.Rows? && Shaped(g, dims) && i <= |g.rows|
    ensures |FlattenRows(g, i)| == (|g.rows| - i) * Product(dims[1..])
    decreases g, 0, |g.rows| - i
  {
    if i < |g.rows| {
      var p, q := Product(dims[1..]), |g.rows| - i;
      assert FlattenRows(g, i) == Flatten(g.rows[i]) + FlattenRows(g, i + 1);
      FlattenSize(g.rows[i], dims[1..]);
      FlattenRowsSize(g, dims, i + 1);
      MulStep(q, p);
    }
  }

  /** The cell at `idx` sits at position `RowMajor(dims, idx)` of the
      flattened run. */
  lemma {:induction false} FlattenAt(g: Grid, dims: seq<nat>, idx: seq<nat>)
    requires Shaped(g, dims) && InBounds(idx, dims)
    ensures 0 <= RowMajor(dims, idx) < |Flatten(g)|
    ensures Flatten(g)[RowMajor(dims, idx)] == At(g, dims, idx)
    decreases g
  {
    FlattenSize(g, dims);
    match g
    case Cells(c) =>
      assert RowMajor(dims, idx) == idx[0];
    case Rows(rs) =>
      var i, rest, inner := idx[0], idx[1..], dims[1..];
      var r := rs[i];
      assert Shaped(r, inner);
      assert InBounds(rest, inner) by {
        forall j | 0 <= j < |inner| ensures rest[j] < inner[j] {
          assert rest[j] == idx[j + 1];
        }
      }
      FlattenAt(r, inner, rest);
      FlattenSize(r, inner);
      assert At(g, dims, idx) == At(r, inner, rest);
      assert Flatten(g) == FlattenRows(g, 0);
      FlattenRowsAt(g, dims, 0, i, RowMajor(inner, rest), RowMajor(dims, idx));
  }

  /** Row `i` of the rows from `from` on starts after `i - from` whole rows. */
  lemma {:induction false} FlattenRowsAt(g: Grid, dims: seq<nat>, from: nat, i: nat, j: nat, n: nat)
    requires g.Rows? && Shaped(g, dims) && from <= i < |g.rows|
    requires j < Product(dims[1..]) && n == (i - from) * Product(dims[1..]) + j
    ensures j < |Flatten(g.rows[i])| && n < |FlattenRows(g, from)|
    ensures FlattenRows(g, from)[n] == Flatten(g.rows[i])[j]
    decreases i - from
  {
    var p := Product(dims[1..]);
    var head := Flatten(g.rows[from]);
    FlattenSize(g.rows[from], dims[1..]);
    assert FlattenRows(g, from) == head + FlattenRows(g, from + 1);
    if from < i {
      var q := i - from;
      MulStep(q, p);
      FlattenRowsAt(g, dims, from + 1, i, j, n - p);
    } else {
      assert n == j;
    }
  }

  /** A rectangular grid as the jagged array of arrays with the same cells. */
  function JaggedOf(k: Kind, g: Grid): (o: ArrayValue)
    ensures g.Cells? ==> o == OneD(Prims(k, g.cells))
    ensures g.Rows? ==> o.Jagged? && |o.elements| == |g.rows|
    decreases g
  {
    match g
    case Cells(c) => OneD(Prims(k, c))
    case Rows(rs) => Jagged(seq(|rs|, i requires 0 <= i < |rs| => JaggedOf(k, rs[i])))
  }

  /** The element types `WriteRectangularArray` flattens; bool and char are
      not among them. */
  predicate RectWritable(k: Kind) {
    k in {Float, Double, Int, Short, Long, Byte, SByte}
  }

  // ---------------------------------------------------------------------
  // Well-typed values: every slot holds a value of its array's kind.

  ghost predicate WellTyped(o: ArrayValue)
    decreases o
  {
    match o
    case Null => true
    case NotArray(_) => true
    case OneD(leaf) => leaf.Prims? ==> AllOfKind(leaf.values, leaf.kind)
    case Jagged(es) => forall i :: 0 <= i < |es| ==> WellTyped(es[i])
    case Rect(e, dims, g) =>
      |dims| >= 2 && Shaped(g, dims) && (e.Prim? ==> AllOfKind(Flatten(g), e.kind))
  }

  // ---------------------------------------------------------------------
  // Writing.

  /** The bytes a write emits and the exception it ends with, if any. */
  datatype Emission = Emission(bytes: seq<uint8>, err: Option<IOError>)

  /** `WriteArray(o)`: a null reference faults on `GetType()`, a non-array
      and an array of an unknown element type are refused, a one-dimensional
      array is written whole by its batch writer, an array of arrays writes
      its elements in index order up to the first exception, and a
      rectangular array is written as its row-major flattened run. */
  function WriteValue(o: ArrayValue): (e: Emission)
    requires WellTyped(o)
    ensures o.Null? ==> e == Emission([], Some(NullReference))
    ensures o.NotArray? ==> e == Emission([], Some(InvalidObject(o.typeName)))
    ensures o.OneD? && o.leaf.Others? ==> e == Emission([], Some(InvalidObject(o.leaf.arrayTypeName)))
    ensures o.Rect? && o.element.Named? ==> e == Emission([], Some(RectangularWriteNotSupported(o.element.typeName)))
    ensures o.Rect? && o.element.Prim? && !RectWritable(o.element.kind) ==>
              e == Emission([], Some(RectangularWriteNotSupported(KindName(o.element.kind))))
    decreases o, 1
  {
    match o
    case Null => Emission([], Some(NullReference))
    case NotArray(name) => Emission([], Some(InvalidObject(name)))
    case OneD(Prims(k, vs)) => Emission(EncodeRun(k, vs), None)
    case OneD(Strings(ss)) => Emission(TextRun(ss), None)
    case OneD(Others(name)) => Emission([], Some(InvalidObject(name)))
    case Jagged(es) => WriteElems(o, 0)
    case Rect(Prim(k), _, g) =>
      if RectWritable(k) then Emission(EncodeRun(k, Flatten(g)), None)
      else Emission([], Some(RectangularWriteNotSupported(KindName(k))))
    case Rect(Named(name), _, _) => Emission([], Some(RectangularWriteNotSupported(name)))
  }

  /** The elements `i..` of an array of arrays, written one after another;
      an exception in one element ends the write. */
  function WriteElems(o: ArrayValue, i: nat): (e: Emission)
    requires o.Jagged? && WellTyped(o)
    ensures i >= |o.elements| ==> e == Emission([], None)
    ensures e.err.None? ==> forall j :: i <= j < |o.elements| ==> WriteValue(o.elements[j]).err.None?
    decreases o, 0, |o.elements| - i
  {
    if i >= |o.elements| then Emission([], None)
    else
      var first := WriteValue(o.elements[i]);
      if first.err.Some? then first
      else
        var rest := WriteElems(o, i + 1);
        Emission(first.bytes + rest.bytes, rest.err)
  }

  /** One element of an array of arrays, then the rest unless it raised:
      what is still to be written after `head` shrinks by that element. */
  lemma WriteElemsStep(o: ArrayValue, i: nat, head: seq<uint8>, whole: Emission)
    requires o.Jagged? && WellTyped(o) && i < |o.elements|
    requires whole.bytes == head + WriteElems(o, i).bytes && whole.err == WriteElems(o, i).err
    ensures var first := WriteValue(o.elements[i]);
            if first.err.Some? then whole == Emission(head + first.bytes, first.err)
            else
              whole.bytes == (head + first.bytes) + WriteElems(o, i + 1).bytes &&
              whole.err == WriteElems(o, i + 1).err
  {
    var first, rest := WriteValue(o.elements[i]), WriteElems(o, i + 1);
    if first.err.None? {
      assert WriteElems(o, i).bytes == first.bytes + rest.bytes;
      assert head + (first.bytes + rest.bytes) == (head + first.bytes) + rest.bytes;
    }
  }

  /** Writing a rectangular array emits what writing the jagged array of
      arrays with the same cells emits: its rows, in order, flattened. */
  lemma RectWriteMatchesJagged(k: Kind, dims: seq<nat>, g: Grid)
    requires RectWritable(k) && |dims| >= 2 && Shaped(g, dims) && AllOfKind(Flatten(g), k)
    ensures WellTyped(JaggedOf(k, g))
    ensures WriteValue(Rect(Prim(k), dims, g)) == WriteValue(JaggedOf(k, g))
  {
    JaggedOfWellTyped(k, g);
    GridRunIsJaggedRun(k, g);
  }

  lemma {:induction false} GridRunIsJaggedRun(k: Kind, g: Grid)
    requires AllOfKind(Flatten(g), k) && WellTyped(JaggedOf(k, g))
    ensures WriteValue(JaggedOf(k, g)) == Emission(EncodeRun(k, Flatten(g)), None)
    decreases g, 1
  {
    if g.Rows? {
      assert FlattenRows(g, 0) == Flatten(g);
      RowsRunIsElemsRun(k, g, 0);
    }
  }

  lemma {:induction false} RowsRunIsElemsRun(k: Kind, g: Grid, i: nat)
    requires g.Rows? && AllOfKind(FlattenRows(g, i), k) && WellTyped(JaggedOf(k, g)) && i <= |g.rows|
    ensures WriteElems(JaggedOf(k, g), i) == Emission(EncodeRun(k, FlattenRows(g, i)), None)
    decreases g, 0, |g.rows| - i
  {
    var o := JaggedOf(k, g);
    if i < |g.rows| {
      var row := g.rows[i];
      var here, later := Flatten(row), FlattenRows(g, i + 1);
      SplitKinds(k, here, later);
      assert o.elements[i] == JaggedOf(k, row);
      GridRunIsJaggedRun(k, row);
      RowsRunIsElemsRun(k, g, i + 1);
      EncodeRunAppend(k, here, later);
    }
  }

  lemma SplitKinds(k: Kind, a: seq<Scalar>, b: seq<Scalar>)
    requires AllOfKind(a + b, k)
    ensures AllOfKind(a, k) && AllOfKind(b, k)
  {
    assert forall j :: 0 <= j < |a| ==> a[j] == (a + b)[j];
    assert forall j :: 0 <= j < |b| ==> b[j] == (a + b)[|a| + j];
  }

  /** Each row of a grid whose cells are all of kind `k` has cells of kind `k`. */
  lemma {:induction false} RowKind(k: Kind, g: Grid, i: nat)
    requires g.Rows? && AllOfKind(Flatten(g), k) && i < |g.rows|
    ensures AllOfKind(Flatten(g.rows[i]), k)
  {
    assert FlattenRows(g, 0) == Flatten(g);
    FlattenRowsKind(k, g, i);
    SplitKinds(k, Flatten(g.rows[i]), FlattenRows(g, i + 1));
  }

  /** The jagged array of arrays of a grid of kind `k` is well-typed. */
  lemma {:induction false} JaggedOfWellTyped(k: Kind, g: Grid)
    requires AllOfKind(Flatten(g), k)
    ensures WellTyped(JaggedOf(k, g))
    decreases g
  {
    if g.Rows? {
      var o := JaggedOf(k, g);
      forall j | 0 <= j < |o.elements| ensures WellTyped(o.elements[j]) {
        RowKind(k, g, j);
        JaggedOfWellTyped(k, g.rows[j]);
      }
    }
  }

  /** The rows from `i` on are a suffix of the flattened grid. */
  lemma {:induction false} FlattenRowsKind(k: Kind, g: Grid, i: nat)
    requires g.Rows? && AllOfKind(FlattenRows(g, 0), k) && i <= |g.rows|
    ensures AllOfKind(FlattenRows(g, i), k)
    decreases i
  {
    if i > 0 {
      FlattenRowsKind(k, g, i - 1);
      SplitKinds(k, Flatten(g.rows[i - 1]), FlattenRows(g, i));
    }
  }

  // ---------------------------------------------------------------------
  // Reading.

  /** The input position and the running `primitiveArrayCount`. */
  datatype ReadState = ReadState(pos: nat, count: int)

  datatype Reading = Reading(value: ArrayValue, state: ReadState, err: Option<IOError>)

  /** A one-dimensional batch read of `Read(buf, 0, buf.Length)`: all of the
      array's bytes are decoded into it, or, when fewer bytes remain, the
      rest of the input is consumed, the array is untouched and 0 is added. */
  function ReadLeaf(source: seq<uint8>, k: Kind, vs: seq<Scalar>, st: ReadState): (r: Reading)
    ensures r.err == None && r.value.OneD? && r.value.leaf.Prims? && r.value.leaf.kind == k
    ensures |r.value.leaf.values| == |vs|
  {
    var need := Width(k) * |vs|;
    if need <= Avail(source, st.pos) then
      DecodeRunCount(k, Take(source, st.pos, need), |vs|);
      Reading(OneD(Prims(k, DecodeRun(k, Take(source, st.pos, need)))),
              ReadState(st.pos + need, st.count + need), None)
    else
      Reading(OneD(Prims(k, vs)), ReadState(st.pos + Avail(source, st.pos), st.count), None)
  }

  /** `PrimitiveArrayRecurse(o)`: what it leaves in `o`, the new position and
      count, and the exception it ends with. A null adds nothing; a
      non-array, an array of strings or of an unknown element type, and a
      rectangular array are refused. */
  function ReadValue(source: seq<uint8>, o: ArrayValue, st: ReadState): (r: Reading)
    ensures o.Null? ==> r == Reading(Null, st, None)
    ensures o.Rect? ==> r == Reading(o, st, Some(RectangularReadNotSupported))
    ensures o.NotArray? ==> r == Reading(o, st, Some(InvalidObject(o.typeName)))
    ensures o.OneD? && !o.leaf.Prims? ==> r.value == o && r.state == st && r.err.Some?
    ensures r.state.pos >= st.pos
    decreases o, 1
  {
    match o
    case Null => Reading(Null, st, None)
    case NotArray(name) => Reading(o, st, Some(InvalidObject(name)))
    case OneD(Prims(k, vs)) => ReadLeaf(source, k, vs, st)
    case OneD(Strings(_)) => Reading(o, st, Some(InvalidObject("System.String[]")))
    case OneD(Others(name)) => Reading(o, st, Some(InvalidObject(name)))
    case Jagged(es) =>
      var r := ReadElems(source, o, 0, st);
      Reading(Jagged(r.values), r.state, r.err)
    case Rect(_, _, _) => Reading(o, st, Some(RectangularReadNotSupported))
  }

  /** Two writes back to back occupy consecutive stretches of the input. */
  lemma SliceSplit(source: seq<uint8>, pos: nat, a: seq<uint8>, b: seq<uint8>)
    requires pos + |a + b| <= |source| && source[pos..pos + |a + b|] == a + b
    ensures source[pos..pos + |a|] == a
    ensures source[pos + |a|..pos + |a| + |b|] == b
  {
    assert source[pos..pos + |a|] == (a + b)[..|a|];
    assert source[pos + |a|..pos + |a| + |b|] == (a + b)[|a|..];
  }

  datatype ElemsReading = ElemsReading(values: seq<ArrayValue>, state: ReadState, err: Option<IOError>)

  /** The loop of `PrimitiveArrayRecurse` over an array of arrays: the
      elements read so far, followed by the rest read from the current
      state, make up the whole reading. */
  ghost predicate ElemsSoFar(source: seq<uint8>, o: ArrayValue, st0: ReadState, done: seq<ArrayValue>, i: nat, st: ReadState)
    requires o.Jagged? && i <= |o.elements|
  {
    var rest := ReadElems(source, o, i, st);
    ReadElems(source, o, 0, st0) == ElemsReading(done + rest.values, rest.state, rest.err)
  }

  /** An element read without an exception joins the elements read so far. */
  lemma {:induction false} ElemsSoFarStep(source: seq<uint8>, o: ArrayValue, st0: ReadState, done: seq<ArrayValue>, i: nat, st: ReadState)
    requires o.Jagged? && i < |o.elements| && ElemsSoFar(source, o, st0, done, i, st)
    requires ReadValue(source, o.elements[i], st).err.None?
    ensures var first := ReadValue(source, o.elements[i], st);
            ElemsSoFar(source, o, st0, done + [first.value], i + 1, first.state)
  {
    var first := ReadValue(source, o.elements[i], st);
    var rest := ReadElems(source, o, i + 1, first.state);
    assert ReadElems(source, o, i, st).values == [first.value] + rest.values;
    assert done + ([first.value] + rest.values) == (done + [first.value]) + rest.values;
  }

  /** An element that raises an exception ends the reading: it and the
      elements after it are what the whole reading leaves. */
  lemma {:induction false} ElemsSoFarStop(source: seq<uint8>, o: ArrayValue, st0: ReadState, done: seq<ArrayValue>, i: nat, st: ReadState)
    requires o.Jagged? && i < |o.elements| && ElemsSoFar(source, o, st0, done, i, st)
    requires ReadValue(source, o.elements[i], st).err.Some?
    ensures var first := ReadValue(source, o.elements[i], st);
            ReadElems(source, o, 0, st0) == ElemsReading(done + [first.value] + o.elements[i + 1..], first.state, first.err)
  {
    var first := ReadValue(source, o.elements[i], st);
    assert ReadElems(source, o, i, st).values == [first.value] + o.elements[i + 1..];
    assert done + ([first.value] + o.elements[i + 1..]) == done + [first.value] + o.elements[i + 1..];
  }

  /** The elements `i..` of an array of arrays read in index order; after an
      exception the remaining elements are left as they were. */
  function ReadElems(source: seq<uint8>, o: ArrayValue, i: nat, st: ReadState): (r: ElemsReading)
    requires o.Jagged? && i <= |o.elements|
    ensures |r.values| == |o.elements| - i
    ensures r.state.pos >= st.pos
    decreases o, 0, |o.elements| - i
  {
    if i == |o.elements| then ElemsReading([], st, None)
    else
      var first := ReadValue(source, o.elements[i], st);
      if first.err.Some? then ElemsReading([first.value] + o.elements[i + 1..], first.state, first.err)
      else
        var rest := ReadElems(source, o, i + 1, first.state);
        ElemsReading([first.value] + rest.values, rest.state, rest.err)
  }

  /** The count grows by at most the number of bytes consumed: every byte
      counted was read, but a truncated array consumes bytes it does not
      count. */
  lemma {:induction false} ReadCountBound(source: seq<uint8>, o: ArrayValue, st: ReadState)
    ensures var r := ReadValue(source, o, st);
            st.count <= r.state.count && r.state.count - st.count <= r.state.pos - st.pos
    decreases o, 1
  {
    match o
    case Jagged(es) => ReadElemsCountBound(source, o, 0, st);
    case _ =>
  }

  lemma {:induction false} ReadElemsCountBound(source: seq<uint8>, o: ArrayValue, i: nat, st: ReadState)
    requires o.Jagged? && i <= |o.elements|
    ensures var r := ReadElems(source, o, i, st);
            st.count <= r.state.count && r.state.count - st.count <= r.state.pos - st.pos
    decreases o, 0, |o.elements| - i
  {
    if i < |o.elements| {
      var first := ReadValue(source, o.elements[i], st);
      ReadCountBound(source, o.elements[i], st);
      if first.err.None? {
        ReadElemsCountBound(source, o, i + 1, first.state);
      }
    }
  }

  /** The reading stops at the first exception: the elements after the one
      that raised it keep their contents. */
  lemma {:induction false} ReadStopsAtError(source: seq<uint8>, o: ArrayValue, i: nat, st: ReadState)
    requires o.Jagged? && i < |o.elements|
    requires ReadValue(source, o.elements[i], st).err.Some?
    ensures ReadElems(source, o, i, st).values[1..] == o.elements[i + 1..]
    ensures ReadElems(source, o, i, st).err == ReadValue(source, o.elements[i], st).err
  {
  }

  // ---------------------------------------------------------------------
  // Reading back what was written.

  /** The objects the read dispatcher accepts: nulls, one-dimensional
      primitive arrays and arrays of them. */
  ghost predicate Readable(o: ArrayValue)
    decreases o
  {
    match o
    case Null => true
    case OneD(leaf) => leaf.Prims?
    case Jagged(es) => forall i :: 0 <= i < |es| ==> Readable(es[i])
    case _ => false
  }

  /** `dest` is an array of the same shape as `o`: same kinds and lengths,
      any contents. */
  ghost predicate SameShape(dest: ArrayValue, o: ArrayValue)
    decreases o
  {
    match o
    case Null => dest.Null?
    case NotArray(_) => dest == o
    case OneD(Prims(k, vs)) => dest.OneD? && dest.leaf.Prims? && dest.leaf.kind == k && |dest.leaf.values| == |vs|
    case OneD(_) => dest == o
    case Jagged(es) =>
      dest.Jagged? && |dest.elements| == |es| && forall i :: 0 <= i < |es| ==> SameShape(dest.elements[i], es[i])
    case Rect(_, _, _) => dest == o
  }

  /** Reading into an array of the same shape what `WriteArray` emitted for
      `o` fills it with `o`'s values, leaves the position just after those
      bytes and counts each of them. */
  lemma {:induction false} ReadAfterWrite(source: seq<uint8>, pos: nat, count: int, dest: ArrayValue, o: ArrayValue, w: Emission)
    requires WellTyped(o) && Readable(o) && SameShape(dest, o)
    requires w == WriteValue(o)
    requires w.err == None && pos + |w.bytes| <= |source| && source[pos..pos + |w.bytes|] == w.bytes
    ensures ReadValue(source, dest, ReadState(pos, count)) == Reading(o, ReadState(pos + |w.bytes|, count + |w.bytes|), None)
    decreases o, 1
  {
    match o
    case Null =>
    case OneD(Prims(k, vs)) =>
      assert Take(source, pos, |w.bytes|) == w.bytes == EncodeRun(k, vs);
      DecodeEncodeRun(k, vs);
    case Jagged(es) =>
      ReadElemsAfterWrite(source, pos, count, dest, o, 0, w);
  }

  lemma {:induction false} ReadElemsAfterWrite(source: seq<uint8>, pos: nat, count: int, dest: ArrayValue, o: ArrayValue, i: nat, w: Emission)
    requires o.Jagged? && WellTyped(o) && Readable(o) && SameShape(dest, o) && i <= |o.elements|
    requires w == WriteElems(o, i)
    requires w.err == None && pos + |w.bytes| <= |source| && source[pos..pos + |w.bytes|] == w.bytes
    ensures var r := ReadElems(source, dest, i, ReadState(pos, count));
            r.values == o.elements[i..] && r.err == None &&
            r.state.pos == pos + |w.bytes| && r.state.count == count + |w.bytes|
    decreases o, 0, |o.elements| - i
  {
    if i < |o.elements| {
      var e, d := o.elements[i], dest.elements[i];
      var first, rest := WriteValue(e), WriteElems(o, i + 1);
      ElementAfterWrite(dest, o, i, w, first, rest);
      var m, n := |first.bytes|, |rest.bytes|;
      HeadAfterWrite(source, pos, count, d, e, first, rest.bytes);
      var pos', count' := pos + m, count + m;
      ReadElemsAfterWrite(source, pos', count', dest, o, i + 1, rest);
      ElemsAfterWriteStep(source, dest, o, i, ReadState(pos, count), ReadState(pos', count'));
    }
  }

  /** An element of a written array of arrays: of the same kind of shape
      as its counterpart, and written without an exception before the rest. */
  lemma {:induction false} ElementAfterWrite(dest: ArrayValue, o: ArrayValue, i: nat, w: Emission, first: Emission, rest: Emission)
    requires o.Jagged? && WellTyped(o) && Readable(o) && SameShape(dest, o) && i < |o.elements|
    requires w == WriteElems(o, i) && w.err == None
    requires first == WriteValue(o.elements[i]) && rest == WriteElems(o, i + 1)
    ensures dest.Jagged? && i < |dest.elements|
    ensures WellTyped(o.elements[i]) && Readable(o.elements[i]) && SameShape(dest.elements[i], o.elements[i])
    ensures first.err == None && rest.err == None && w.bytes == first.bytes + rest.bytes
  {
  }

  /** The first of two writes back to back reads back, and the second
      follows it in the input. */
  lemma {:induction false} HeadAfterWrite(source: seq<uint8>, pos: nat, count: int, d: ArrayValue, e: ArrayValue, first: Emission, tail: seq<uint8>)
    requires WellTyped(e) && Readable(e) && SameShape(d, e) && first == WriteValue(e) && first.err == None
    requires pos + |first.bytes + tail| <= |source| && source[pos..pos + |first.bytes + tail|] == first.bytes + tail
    ensures ReadValue(source, d, ReadState(pos, count)) ==
            Reading(e, ReadState(pos + |first.bytes|, count + |first.bytes|), None)
    ensures source[pos + |first.bytes|..pos + |first.bytes| + |tail|] == tail
    decreases e, 2
  {
    SliceSplit(source, pos, first.bytes, tail);
    ReadAfterWrite(source, pos, count, d, e, first);
  }

  /** An element read back, followed by the rest read back. */
  lemma {:induction false} ElemsAfterWriteStep(source: seq<uint8>, dest: ArrayValue, o: ArrayValue, i: nat, st: ReadState, st': ReadState)
    requires dest.Jagged? && o.Jagged? && i < |dest.elements| && i < |o.elements|
    requires ReadValue(source, dest.elements[i], st) == Reading(o.elements[i], st', None)
    requires var r := ReadElems(source, dest, i + 1, st'); r.values == o.elements[i + 1..] && r.err == None
    ensures var r, rest := ReadElems(source, dest, i, st), ReadElems(source, dest, i + 1, st');
            r.values == o.elements[i..] && r.err == None && r.state == rest.state
  {
    ConsSlice(o.elements, i);
  }

  /** The array of arrays a rectangular grid stands for is one the read
      dispatcher accepts. */
  lemma {:induction false} ReadableJagged(k: Kind, g: Grid)
    ensures Readable(JaggedOf(k, g))
    decreases g
  {
    if g.Rows? {
      var o := JaggedOf(k, g);
      forall j | 0 <= j < |o.elements| ensures Readable(o.elements[j]) {
        ReadableJagged(k, g.rows[j]);
      }
    }
  }

  /** A rectangular array written and then read back into an array of
      arrays of the same shape gives that array of arrays with the grid's
      cells, consuming and counting every byte written. */
  lemma RectReadBack(source: seq<uint8>, pos: nat, count: int, dest: ArrayValue, k: Kind, dims: seq<nat>, g: Grid)
    requires RectWritable(k) && |dims| >= 2 && Shaped(g, dims) && AllOfKind(Flatten(g), k)
    requires SameShape(dest, JaggedOf(k, g))
    requires var w := WriteValue(Rect(Prim(k), dims, g));
             pos + |w.bytes| <= |source| && source[pos..pos + |w.bytes|] == w.bytes
    ensures var n := |WriteValue(Rect(Prim(k), dims, g)).bytes|;
            ReadValue(source, dest, ReadState(pos, count)) == Reading(JaggedOf(k, g), ReadState(pos + n, count + n), None)
  {
    RectWriteMatchesJagged(k, dims, g);
    ReadableJagged(k, g);
    ReadAfterWrite(source, pos, count, dest, JaggedOf(k, g), WriteValue(JaggedOf(k, g)));
  }

  lemma ConsSlice<T>(s: seq<T>, i: nat)
    requires i < |s|
    ensures s[i..] == [s[i]] + s[i + 1..]
  {
  }
}
