/**
 * Execution buffers: decoding a raw result buffer into a flat array
 * (decode_buffer) and the 2-D, real-valued view the region extractor copies
 * from (the reshape and complex widening inside _extract_memory_regions).
 *
 * Sample values are abstract integers: the code only copies them and splits
 * complex samples into their two parts, it never computes with them.
 */
module Buffers {

  /** A complex sample; `re` and `im` stand for the two float32 parts. */
  datatype Complex = Complex(re: int, im: int)

  /** A numpy array of one dimension (shape (N,)) or two (shape (N, width)). */
  datatype NdArray<T> = Vector(items: seq<T>) | Matrix(width: nat, rows: seq<seq<T>>)

  /** A decoded buffer: an integer array or a complex array. */
  datatype Buffer = IntBuffer(ints: NdArray<int>) | ComplexBuffer(samples: NdArray<Complex>)

  /** A buffer as the execution service returns it: a dtype tag and its payload. */
  datatype RawBuffer = RawBuffer(dtype: string, data: seq<bv8>)

  /** A 2-D real-valued array: `width` columns, one sequence per row. */
  datatype Table = Table(width: nat, rows: seq<seq<int>>)

  /** Every row of a 2-D array has the declared number of columns. */
  predicate WellFormedArray<T>(a: NdArray<T>) {
    a.Matrix? ==> forall r :: 0 <= r < |a.rows| ==> |a.rows[r]| == a.width
  }

  predicate WellFormed(b: Buffer) {
    match b
    case IntBuffer(a) => WellFormedArray(a)
    case ComplexBuffer(a) => WellFormedArray(a)
  }

  predicate Rectangular(t: Table) {
    forall r :: 0 <= r < |t.rows| ==> |t.rows[r]| == t.width
  }

  /** `shape[0]`: the length of the first axis. */
  function RowCount<T>(a: NdArray<T>): nat {
    match a
    case Vector(items) => |items|
    case Matrix(_, rows) => |rows|
  }

  /** The number of columns once a 1-D array is seen as a single column. */
  function ColumnCount<T>(a: NdArray<T>): nat {
    match a
    case Vector(_) => 1
    case Matrix(width, _) => width
  }

  function Rows(b: Buffer): nat {
    match b
    case IntBuffer(a) => RowCount(a)
    case ComplexBuffer(a) => RowCount(a)
  }

  /** Element (r, c) of the 2-D view of an array. */
  function At<T>(a: NdArray<T>, r: nat, c: nat): T
    requires WellFormedArray(a) && r < RowCount(a) && c < ColumnCount(a)
  {
    match a
    case Vector(items) => items[r]
    case Matrix(_, rows) => rows[r][c]
  }

  /**
   * decode_buffer: the "complex" tag yields the complex samples, the
   * "integer" tag the int32 samples, any other tag an empty integer array.
   * The two byte decoders of the execution service are parameters.
   */
  function DecodeBuffer(buffer: RawBuffer,
                        toComplex32: seq<bv8> -> seq<Complex>,
                        toI32: seq<bv8> -> seq<int>): (r: Buffer)
    ensures WellFormed(r) && r.ComplexBuffer? == (buffer.dtype == "complex")
    ensures buffer.dtype == "complex" ==> r.samples == Vector(toComplex32(buffer.data))
    ensures buffer.dtype == "integer" ==> r.ints == Vector(toI32(buffer.data))
    ensures buffer.dtype != "complex" && buffer.dtype != "integer" ==> r.ints == Vector([])
  {
    if buffer.dtype == "complex" then ComplexBuffer(Vector(toComplex32(buffer.data)))
    else if buffer.dtype == "integer" then IntBuffer(Vector(toI32(buffer.data)))
    else IntBuffer(Vector([]))
  }

  /** A 1-D array seen as a column (lines 101-102): each element becomes a row of one column. */
  function Reshape2D<T>(a: NdArray<T>): (m: NdArray<T>)
    requires WellFormedArray(a)
    ensures m.Matrix? && WellFormedArray(m)
    ensures m.width == ColumnCount(a) && |m.rows| == RowCount(a)
    ensures forall r, c :: 0 <= r < |m.rows| && 0 <= c < m.width ==> m.rows[r][c] == At(a, r, c)
  {
    match a
    case Vector(items) => Matrix(1, seq(|items|, r requires 0 <= r < |items| => [items[r]]))
    case Matrix(_, _) => a
  }

  function RealParts(zs: seq<Complex>): (xs: seq<int>)
    ensures |xs| == |zs| && forall k :: 0 <= k < |zs| ==> xs[k] == zs[k].re
  {
    seq(|zs|, k requires 0 <= k < |zs| => zs[k].re)
  }

  function ImagParts(zs: seq<Complex>): (xs: seq<int>)
    ensures |xs| == |zs| && forall k :: 0 <= k < |zs| ==> xs[k] == zs[k].im
  {
    seq(|zs|, k requires 0 <= k < |zs| => zs[k].im)
  }

  /**
   * The 2-D real view of a buffer (lines 100-105): 1-D becomes one column; a
   * complex array becomes its real parts stacked beside its imaginary parts,
   * doubling the width. The rows are kept, one for one.
   */
  function Widen(b: Buffer): (t: Table)
    requires WellFormed(b)
    ensures Rectangular(t) && |t.rows| == Rows(b)
    ensures b.IntBuffer? ==> t.width == ColumnCount(b.ints)
    ensures b.IntBuffer? ==> forall r, c :: 0 <= r < |t.rows| && 0 <= c < t.width ==>
              t.rows[r][c] == At(b.ints, r, c)
    ensures b.ComplexBuffer? ==> t.width == 2 * ColumnCount(b.samples)
    ensures b.ComplexBuffer? ==> forall r, c :: 0 <= r < |t.rows| && 0 <= c < ColumnCount(b.samples) ==>
              t.rows[r][c] == At(b.samples, r, c).re
    ensures b.ComplexBuffer? ==> forall r, c ::
              0 <= r < |t.rows| && ColumnCount(b.samples) <= c < t.width ==>
              t.rows[r][c] == At(b.samples, r, c - ColumnCount(b.samples)).im
  {
    match b
    case IntBuffer(a) =>
      var m := Reshape2D(a);
      Table(m.width, m.rows)
    case ComplexBuffer(a) =>
      var m := Reshape2D(a);
      Table(2 * m.width, seq(|m.rows|, r requires 0 <= r < |m.rows| => RealParts(m.rows[r]) + ImagParts(m.rows[r])))
  }

  /**
   * What the extractor sees of a freshly decoded buffer: one row per sample;
   * a complex sample a+bj becomes the row [a, b], an integer sample x the
   * row [x]; an unknown tag gives no rows at all.
   */
  lemma DecodedRows(buffer: RawBuffer, toComplex32: seq<bv8> -> seq<Complex>, toI32: seq<bv8> -> seq<int>)
    ensures var t := Widen(DecodeBuffer(buffer, toComplex32, toI32));
      && (buffer.dtype == "complex" ==>
            var zs := toComplex32(buffer.data);
            t.width == 2 && |t.rows| == |zs| &&
            forall r :: 0 <= r < |zs| ==> t.rows[r] == [zs[r].re, zs[r].im])
      && (buffer.dtype == "integer" ==>
            var xs := toI32(buffer.data);
            t.width == 1 && |t.rows| == |xs| &&
            forall r :: 0 <= r < |xs| ==> t.rows[r] == [xs[r]])
      && (buffer.dtype != "complex" && buffer.dtype != "integer" ==> t.width == 1 && t.rows == [])
  {
    var b := DecodeBuffer(buffer, toComplex32, toI32);
    var t := Widen(b);
    if buffer.dtype == "complex" {
      var zs := toComplex32(buffer.data);
      forall r | 0 <= r < |zs| ensures t.rows[r] == [zs[r].re, zs[r].im] {
        assert t.rows[r][0] == zs[r].re && t.rows[r][1] == zs[r].im;
      }
    } else if buffer.dtype == "integer" {
      var xs := toI32(buffer.data);
      forall r | 0 <= r < |xs| ensures t.rows[r] == [xs[r]] {
        assert t.rows[r][0] == xs[r];
      }
    }
  }
}
