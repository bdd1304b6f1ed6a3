/**
 * The value _extract_memory_regions computes, as functions. A region is a
 * (num_shots, length) matrix of cells; a cell is None until some lane writes
 * it, which stands for the uninitialised memory np.ndarray hands out.
 *
 * The computation follows the source step by step: derive the shot count,
 * then region by region allocate and fill, lane set by lane set and, within
 * a lane set, lane by lane in ascending offset order. The first error in
 * that order is the one raised.
 */
module Regions {
  import opened Wrappers
  import opened Buffers
  import opened Sources

  /** A declared memory region: its element type tag and its length per shot. */
  datatype ParameterSpec = ParameterSpec(typ: string, length: nat)

  /** The memory-descriptor dictionary, in its iteration order. */
  type Descriptors = seq<(string, ParameterSpec)>

  /** The numpy storage a region is allocated with. */
  datatype StorageType = Int64 | Float64

  /** What the extraction can raise. */
  datatype Error =
    | NoShotSource                       // `next` finds no region, or no source for the first one
    | MissingBuffer(key: string)         // `buffers[key]` for a key no buffer came back under
    | UnexpectedMemoryType(typ: string)  // alloc: the element type is not one of the four tags
    | RegionOverflow(region: string, offset: nat, end: nat, width: nat)  // a lane past the region
    | BroadcastMismatch(region: string, offset: nat, end: nat)  // numpy cannot broadcast the rows

  type Cell = Option<int>

  /** An assembled region: storage type, shape, and the cells (None: never written). */
  datatype Region = Region(dtype: StorageType, shots: nat, length: nat, cells: seq<seq<Cell>>)

  predicate ValidRegion(g: Region) {
    |g.cells| == g.shots && forall s :: 0 <= s < g.shots ==> |g.cells[s]| == g.length
  }

  function Names(ds: Descriptors): set<string> {
    set d | 0 <= d < |ds| :: ds[d].0
  }

  /** A dictionary never holds the same region name twice. */
  predicate DistinctNames(ds: Descriptors) {
    forall d, e :: 0 <= d < e < |ds| ==> ds[d].0 != ds[e].0
  }

  predicate WellFormedBuffers(buffers: map<string, Buffer>) {
    forall key :: key in buffers ==> WellFormed(buffers[key])
  }

  /** The dtype table of alloc (lines 62-67). */
  function StorageOf(typ: string): Option<StorageType> {
    if typ == "BIT" || typ == "INTEGER" then Some(Int64)
    else if typ == "REAL" || typ == "FLOAT" then Some(Float64)
    else None
  }

  /** A freshly allocated region: the right shape, nothing written yet. */
  function Blank(dtype: StorageType, shots: nat, length: nat): (g: Region)
    ensures ValidRegion(g) && g.dtype == dtype && g.shots == shots && g.length == length
    ensures forall s, c :: 0 <= s < shots && 0 <= c < length ==> g.cells[s][c] == None
  {
    Region(dtype, shots, length, seq(shots, s => seq(length, c => None)))
  }

  /** The number of rows of `buf[i::step]` when `buf` has `n` rows. */
  function StrideCount(n: nat, i: nat, step: nat): nat
    requires step > 0
  {
    if i >= n then 0 else (n - i - 1) / step + 1
  }

  /** The buffer row that feeds shot row `s`. */
  function Src(first: nat, s: nat, stride: nat): nat {
    first + s * stride
  }

  /**
   * The row stride of the assignment at line 113: a slice of as many rows as
   * there are shots is copied row for row; a slice of one row is broadcast
   * to every shot (stride 0).
   */
  function LaneStride(t: Table, lanes: seq<MemoryReference>, shots: nat, i: nat): nat
    requires |lanes| > 0
  {
    if StrideCount(|t.rows|, i, |lanes|) == shots then |lanes| else 0
  }

  /** Lane `i` passes the width check of lines 107-112 and numpy accepts its rows. */
  predicate LaneFits(t: Table, lanes: seq<MemoryReference>, shots: nat, length: nat, i: nat)
    requires i < |lanes|
  {
    var k := StrideCount(|t.rows|, i, |lanes|);
    lanes[i].offset + t.width <= length && (k == shots || k == 1)
  }

  lemma StrideCountIndex(n: nat, i: nat, step: nat, s: nat)
    requires step > 0
    ensures Src(i, s, step) < n <==> s < StrideCount(n, i, step)
  {
    if i < n {
      var q := (n - i - 1) / step;
      assert q * step <= n - i - 1 < (q + 1) * step;
      if s <= q {
        MulMonotone(s, q, step);
      } else {
        MulMonotone(q + 1, s, step);
      }
    }
  }

  lemma MulMonotone(a: nat, b: nat, k: nat)
    requires a <= b
    ensures a * k <= b * k
  {
  }

  /** Every row the lane reads exists. */
  lemma LaneRowsExist(t: Table, lanes: seq<MemoryReference>, shots: nat, length: nat, i: nat)
    requires i < |lanes| && LaneFits(t, lanes, shots, length, i)
    ensures forall s :: 0 <= s < shots ==> Src(i, s, LaneStride(t, lanes, shots, i)) < |t.rows|
  {
    var k := StrideCount(|t.rows|, i, |lanes|);
    forall s | 0 <= s < shots ensures Src(i, s, LaneStride(t, lanes, shots, i)) < |t.rows| {
      if k == shots {
        StrideCountIndex(|t.rows|, i, |lanes|, s);
      } else {
        StrideCountIndex(|t.rows|, i, |lanes|, 0);
      }
    }
  }

  /** `region[:, offset:offset+width] = rows`: columns [offset, offset+width) of every shot. */
  function WriteLane(g: Region, offset: nat, t: Table, first: nat, stride: nat): (r: Region)
    requires ValidRegion(g) && Rectangular(t) && offset + t.width <= g.length
    requires forall s :: 0 <= s < g.shots ==> Src(first, s, stride) < |t.rows|
    ensures ValidRegion(r) && r.dtype == g.dtype && r.shots == g.shots && r.length == g.length
    ensures forall s, c :: 0 <= s < g.shots && 0 <= c < g.length ==>
      r.cells[s][c] == if offset <= c < offset + t.width then Some(t.rows[Src(first, s, stride)][c - offset])
                       else g.cells[s][c]
  {
    var cells := seq(g.shots, s requires 0 <= s < g.shots =>
      seq(g.length, c requires 0 <= c < g.length =>
        if offset <= c < offset + t.width then Some(t.rows[Src(first, s, stride)][c - offset])
        else g.cells[s][c]));
    Region(g.dtype, g.shots, g.length, cells)
  }

  /** The lanes of one lane set, sorted, from index `i` on (lines 106-113). */
  function PlaceLanes(region: string, g: Region, t: Table, lanes: seq<MemoryReference>, i: nat): (r: Result<Region, Error>)
    requires ValidRegion(g) && Rectangular(t) && i <= |lanes|
    ensures r.Success? ==> ValidRegion(r.value) && r.value.dtype == g.dtype &&
                           r.value.shots == g.shots && r.value.length == g.length
    decreases |lanes| - i
  {
    if i == |lanes| then Success(g)
    else
      var offset := lanes[i].offset;
      var end := offset + t.width;
      if end > g.length then Failure(RegionOverflow(region, offset, end, g.length))
      else if !LaneFits(t, lanes, g.shots, g.length, i) then Failure(BroadcastMismatch(region, offset, end))
      else
        LaneRowsExist(t, lanes, g.shots, g.length, i);
        PlaceLanes(region, WriteLane(g, offset, t, i, LaneStride(t, lanes, g.shots, i)), t, lanes, i + 1)
  }

  /** The lane sets of one region, from index `j` on (lines 96-113). */
  function FillLaneSets(region: string, g: Region, sets: seq<LaneSet>, buffers: map<string, Buffer>, j: nat)
    : (r: Result<Region, Error>)
    requires ValidRegion(g) && WellFormedBuffers(buffers) && j <= |sets|
    ensures r.Success? ==> ValidRegion(r.value) && r.value.dtype == g.dtype &&
                           r.value.shots == g.shots && r.value.length == g.length
    decreases |sets| - j
  {
    if j == |sets| then Success(g)
    else
      var key := sets[j].key;
      if key !in buffers then Failure(MissingBuffer(key))
      else
        match PlaceLanes(region, g, Widen(buffers[key]), SortByOffset(sets[j].lanes), 0)
        case Failure(e) => Failure(e)
        case Success(g') => FillLaneSets(region, g', sets, buffers, j + 1)
  }

  /** The regions, from descriptor `d` on (lines 93-113), added to `acc`. */
  function FillRegions(ds: Descriptors, groups: Groups, buffers: map<string, Buffer>, shots: nat,
                       acc: map<string, Region>, d: nat): Result<map<string, Region>, Error>
    requires WellFormedBuffers(buffers) && Names(ds) <= groups.Keys && d <= |ds|
    decreases |ds| - d
  {
    if d == |ds| then Success(acc)
    else
      var (name, spec) := ds[d];
      match StorageOf(spec.typ)
      case None => Failure(UnexpectedMemoryType(spec.typ))
      case Some(dtype) =>
        match FillLaneSets(name, Blank(dtype, shots, spec.length), groups[name], buffers, 0)
        case Failure(e) => Failure(e)
        case Success(g) => FillRegions(ds, groups, buffers, shots, acc[name := g], d + 1)
  }

  /**
   * The shot count (lines 89-91): the row count of the buffer of the first
   * region's first lane set, divided by the number of lanes in that set.
   */
  function ShotCount(ds: Descriptors, groups: Groups, buffers: map<string, Buffer>): Result<nat, Error>
    requires Names(ds) <= groups.Keys && forall n :: n in groups ==> WellGrouped(groups[n])
  {
    if |ds| == 0 then Failure(NoShotSource)
    else
      var first := ds[0].0;
      if |groups[first]| == 0 then Failure(NoShotSource)
      else
        var key := groups[first][0].key;
        assert WellGrouped(groups[first]);
        if key !in buffers then Failure(MissingBuffer(key))
        else Success(Rows(buffers[key]) / |groups[first][0].lanes|)
  }

  /** _extract_memory_regions as a function of its three dictionaries. */
  function Extract(ds: Descriptors, ro: ReadoutSources, buffers: map<string, Buffer>): Result<map<string, Region>, Error>
    requires WellFormedBuffers(buffers)
  {
    var groups := Group(Names(ds), ro);
    match ShotCount(ds, groups, buffers)
    case Failure(e) => Failure(e)
    case Success(shots) => FillRegions(ds, groups, buffers, shots, map[], 0)
  }
}
