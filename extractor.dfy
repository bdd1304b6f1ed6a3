/**
 * _extract_memory_regions as the source runs it: regions are allocated as
 * 2-D arrays and filled in place, column slice by column slice. Each step is
 * proved against the functions of module Regions, so the arrays it returns
 * hold exactly what Extract describes.
 */
module Extractor {
  import opened Wrappers
  import opened Buffers
  import opened Sources
  import opened Regions

  /** An allocated region: its numpy storage type and its (shots, length) array. */
  datatype Allocated = Allocated(dtype: StorageType, data: array2<int>)

  /**
   * The array has the region's shape and holds every written cell of it; a
   * cell the region leaves unwritten may hold anything.
   */
  ghost predicate Agrees(data: array2<int>, g: Region)
    reads data
  {
    && ValidRegion(g)
    && data.Length0 == g.shots && data.Length1 == g.length
    && forall s, c :: 0 <= s < g.shots && 0 <= c < g.length && g.cells[s][c].Some? ==>
         data[s, c] == g.cells[s][c].value
  }

  /** The allocated regions realise the computed ones, each in an array of its own. */
  ghost predicate Realizes(regions: map<string, Allocated>, grids: map<string, Region>)
    reads set n | n in regions :: regions[n].data
  {
    && regions.Keys == grids.Keys
    && (forall n :: n in regions ==> regions[n].dtype == grids[n].dtype && Agrees(regions[n].data, grids[n]))
    && (forall n, m :: n in regions && m in regions && n != m ==> regions[n].data != regions[m].data)
  }

  /** alloc (lines 61-71): a fresh (shots, length) array of the declared element type. */
  method Alloc(spec: ParameterSpec, shots: nat) returns (r: Result<Allocated, Error>)
    ensures r.Failure? <==> StorageOf(spec.typ).None?
    ensures r.Failure? ==> r.error == UnexpectedMemoryType(spec.typ)
    ensures r.Success? ==> && r.value.dtype == StorageOf(spec.typ).value
                           && fresh(r.value.data)
                           && Agrees(r.value.data, Blank(r.value.dtype, shots, spec.length))
  {
    match StorageOf(spec.typ)
    case None =>
      return Failure(UnexpectedMemoryType(spec.typ));
    case Some(dtype) =>
      var data := new int[shots, spec.length];
      return Success(Allocated(dtype, data));
  }

  /**
   * The column-slice assignment of line 113: in shot row `s`, the columns
   * [offset, offset + width) get buffer row `first + s * stride`; every
   * other cell keeps its value.
   */
  method CopyLane(data: array2<int>, ghost g: Region, offset: nat, t: Table, first: nat, stride: nat)
    modifies data
    requires Agrees(data, g) && Rectangular(t) && offset + t.width <= g.length
    requires forall s :: 0 <= s < g.shots ==> Src(first, s, stride) < |t.rows|
    ensures Agrees(data, WriteLane(g, offset, t, first, stride))
    ensures forall s, c :: 0 <= s < data.Length0 && 0 <= c < data.Length1 && !(offset <= c < offset + t.width) ==>
              data[s, c] == old(data[s, c])
  {
    for s := 0 to data.Length0
      invariant forall s', c :: 0 <= s' < s && offset <= c < offset + t.width ==>
                  data[s', c] == t.rows[Src(first, s', stride)][c - offset]
      invariant forall s', c ::
                  0 <= s' < data.Length0 && 0 <= c < data.Length1 && (s <= s' || !(offset <= c < offset + t.width))
                  ==> data[s', c] == old(data[s', c])
    {
      var row := t.rows[Src(first, s, stride)];
      for c := 0 to t.width
        invariant forall s', c' :: 0 <= s' < s && offset <= c' < offset + t.width ==>
                    data[s', c'] == t.rows[Src(first, s', stride)][c' - offset]
        invariant forall c' :: offset <= c' < offset + c ==> data[s, c'] == row[c' - offset]
        invariant forall s', c' ::
                    && 0 <= s' < data.Length0 && 0 <= c' < data.Length1
                    && (s < s' || (s' == s && !(offset <= c' < offset + c)) || !(offset <= c' < offset + t.width))
                    ==> data[s', c'] == old(data[s', c'])
      {
        data[s, offset + c] := row[c];
      }
    }
  }

  /**
   * The lanes of one lane set, sorted by offset (lines 106-113), copied into
   * `data` in turn; the first lane that runs past the region, or whose rows
   * numpy cannot broadcast, stops the fill.
   */
  method PlaceLaneSet(name: string, data: array2<int>, ghost g0: Region, t: Table, lanes: seq<MemoryReference>)
    returns (err: Option<Error>, ghost g: Region)
    modifies data
    requires Agrees(data, g0) && Rectangular(t)
    ensures PlaceLanes(name, g0, t, lanes, 0) == if err.Some? then Failure(err.value) else Success(g)
    ensures err.None? ==> Agrees(data, g)
  {
    g := g0;
    for i := 0 to |lanes|
      invariant Agrees(data, g) && g.shots == g0.shots && g.length == g0.length && g.dtype == g0.dtype
      invariant PlaceLanes(name, g0, t, lanes, 0) == PlaceLanes(name, g, t, lanes, i)
    {
      var offset := lanes[i].offset;
      var end := offset + t.width;
      if end > data.Length1 {
        return Some(RegionOverflow(name, offset, end, data.Length1)), g;
      }
      var k := StrideCount(|t.rows|, i, |lanes|);
      if k != data.Length0 && k != 1 {
        return Some(BroadcastMismatch(name, offset, end)), g;
      }
      var stride := if k == data.Length0 then |lanes| else 0;
      LaneRowsExist(t, lanes, g.shots, g.length, i);
      CopyLane(data, g, offset, t, i, stride);
      g := WriteLane(g, offset, t, i, stride);
    }
    return None, g;
  }

  /** The lane sets of one region (lines 96-113), in order, filling `data` in place. */
  method FillRegion(name: string, data: array2<int>, ghost g0: Region,
                    sets: seq<LaneSet>, buffers: map<string, Buffer>)
    returns (err: Option<Error>, ghost g: Region)
    modifies data
    requires WellFormedBuffers(buffers) && Agrees(data, g0)
    ensures FillLaneSets(name, g0, sets, buffers, 0) == if err.Some? then Failure(err.value) else Success(g)
    ensures err.None? ==> Agrees(data, g)
  {
    g := g0;
    for j := 0 to |sets|
      invariant Agrees(data, g) && g.shots == g0.shots && g.length == g0.length && g.dtype == g0.dtype
      invariant FillLaneSets(name, g0, sets, buffers, 0) == FillLaneSets(name, g, sets, buffers, j)
    {
      var key := sets[j].key;
      if key !in buffers {
        return Some(MissingBuffer(key)), g;
      }
      var t := Widen(buffers[key]);
      var lanes := SortByOffset(sets[j].lanes);
      var e;
      e, g := PlaceLaneSet(name, data, g, t, lanes);
      if e.Some? {
        return e, g;
      }
    }
    return None, g;
  }

  /**
   * One iteration of the region loop (lines 93-113): allocate the region,
   * then fill it lane set by lane set. The outcome is the one FillRegions
   * computes for this descriptor.
   */
  method BuildRegion(name: string, spec: ParameterSpec, shots: nat, sets: seq<LaneSet>, buffers: map<string, Buffer>)
    returns (r: Result<Allocated, Error>, ghost g: Region)
    requires WellFormedBuffers(buffers)
    ensures (match StorageOf(spec.typ)
             case None => Failure(UnexpectedMemoryType(spec.typ))
             case Some(dtype) => FillLaneSets(name, Blank(dtype, shots, spec.length), sets, buffers, 0))
            == if r.Failure? then Failure(r.error) else Success(g)
    ensures r.Success? ==> fresh(r.value.data) && r.value.dtype == g.dtype && Agrees(r.value.data, g)
  {
    var a := Alloc(spec, shots);
    if a.Failure? {
      return Failure(a.error), Blank(Int64, shots, spec.length);
    }
    var err;
    err, g := FillRegion(name, a.value.data, Blank(a.value.dtype, shots, spec.length), sets, buffers);
    if err.Some? {
      return Failure(err.value), g;
    }
    return a, g;
  }

  /**
   * _extract_memory_regions (lines 56-115): group the readout sources, derive
   * the shot count, then allocate and fill the declared regions in order.
   * It fails exactly when Extract does, with the same error, and otherwise
   * returns one array per region, no two shared, holding what Extract computes.
   */
  method ExtractMemoryRegions(ds: Descriptors, ro: ReadoutSources, buffers: map<string, Buffer>)
    returns (r: Result<map<string, Allocated>, Error>)
    requires WellFormedBuffers(buffers)
    ensures r.Failure? <==> Extract(ds, ro, buffers).Failure?
    ensures r.Failure? ==> r.error == Extract(ds, ro, buffers).error
    ensures r.Success? ==> Realizes(r.value, Extract(ds, ro, buffers).value)
    ensures r.Success? ==> forall n :: n in r.value ==> fresh(r.value[n].data)
  {
    var groups := GroupSources(Names(ds), ro);
    var shots;
    match ShotCount(ds, groups, buffers)
    case Failure(e) =>
      return Failure(e);
    case Success(n) =>
      shots := n;
    ghost var whole := FillRegions(ds, groups, buffers, shots, map[], 0);
    assert whole == Extract(ds, ro, buffers);
    var regions: map<string, Allocated> := map[];
    ghost var grids: map<string, Region> := map[];
    for d := 0 to |ds|
      invariant FillRegions(ds, groups, buffers, shots, grids, d) == whole
      invariant Realizes(regions, grids)
      invariant forall n :: n in regions ==> fresh(regions[n].data)
    {
      var (name, spec) := ds[d];
      assert name in Names(ds);
      var a, g := BuildRegion(name, spec, shots, groups[name], buffers);
      if a.Failure? {
        return Failure(a.error);
      }
      regions := regions[name := a.value];
      grids := grids[name := g];
    }
    return Success(regions);
  }
}
