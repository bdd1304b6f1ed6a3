/**
 * Properties of _extract_memory_regions as a whole, stated in terms of its
 * inputs: the descriptor dictionary, the readout sources and the buffers.
 */
module ExtractProperties {
  import opened Wrappers
  import opened Buffers
  import opened Sources
  import opened Regions
  import opened RegionLemmas

  /**
   * The shot count read straight off the readout sources: the earliest
   * source naming the first declared region picks the buffer, and its row
   * count is divided by the number of sources of that region reading it.
   */
  function ShotsFromSources(ds: Descriptors, ro: ReadoutSources, buffers: map<string, Buffer>): Result<nat, Error> {
    if |ds| == 0 then Failure(NoShotSource)
    else
      match FirstSourceOf(ro, ds[0].0)
      case None => Failure(NoShotSource)
      case Some(a) =>
        var key := ro[a].1;
        if key !in buffers then Failure(MissingBuffer(key))
        else
          SourceHasLane(ro, a);
          Success(Rows(buffers[key]) / |LanesOf(ro, ds[0].0, key)|)
  }

  /** The shot count of lines 89-91 agrees with the direct reading of the sources. */
  lemma ShotCountFromSources(ds: Descriptors, ro: ReadoutSources, buffers: map<string, Buffer>)
    ensures ShotCount(ds, Group(Names(ds), ro), buffers) == ShotsFromSources(ds, ro, buffers)
  {
    if |ds| > 0 {
      var n := ds[0].0;
      assert n in Names(ds);
      GroupExact(Names(ds), ro, n);
      match FirstSourceOf(ro, n)
      case None =>
        NoKeysYet(ro, n);
      case Some(a) =>
        FirstKey(ro, n, a);
    }
  }

  /** With no declared region, or none of the first region's sources, the extraction raises. */
  lemma ExtractNoShotSource(ds: Descriptors, ro: ReadoutSources, buffers: map<string, Buffer>)
    requires WellFormedBuffers(buffers)
    requires |ds| == 0 || FirstSourceOf(ro, ds[0].0).None?
    ensures Extract(ds, ro, buffers) == Failure(NoShotSource)
  {
    ShotCountFromSources(ds, ro, buffers);
  }

  /**
   * Element types (lines 62-71): once the shot count is known, a first
   * declared region of a type other than BIT, INTEGER, REAL or FLOAT raises
   * the unexpected-memory-type error naming that type.
   */
  lemma ExtractUnknownType(ds: Descriptors, ro: ReadoutSources, buffers: map<string, Buffer>)
    requires WellFormedBuffers(buffers)
    requires |ds| > 0 && ShotsFromSources(ds, ro, buffers).Success?
    requires StorageOf(ds[0].1.typ).None?
    ensures ds[0].1.typ !in {"BIT", "INTEGER", "REAL", "FLOAT"}
    ensures Extract(ds, ro, buffers) == Failure(UnexpectedMemoryType(ds[0].1.typ))
  {
    ShotCountFromSources(ds, ro, buffers);
    assert ds[0].0 in Names(ds);
  }

  /**
   * Readout sources naming no declared region are ignored: the extraction
   * sees only the declared ones.
   */
  lemma ExtractIgnoresStale(ds: Descriptors, ro: ReadoutSources, buffers: map<string, Buffer>)
    requires WellFormedBuffers(buffers)
    ensures Extract(ds, ro, buffers) == Extract(ds, Declared(Names(ds), ro), buffers)
  {
    GroupIgnoresStale(Names(ds), ro);
  }

  /**
   * A successful extraction returns one region per declared name (every
   * declared region, read or not), each of its declared element type and
   * length and with one row per shot.
   */
  lemma ExtractShape(ds: Descriptors, ro: ReadoutSources, buffers: map<string, Buffer>)
    requires DistinctNames(ds) && WellFormedBuffers(buffers)
    requires Extract(ds, ro, buffers).Success?
    ensures ShotsFromSources(ds, ro, buffers).Success?
    ensures var regions := Extract(ds, ro, buffers).value;
            var shots := ShotsFromSources(ds, ro, buffers).value;
            && regions.Keys == Names(ds)
            && forall d :: 0 <= d < |ds| ==>
                 && StorageOf(ds[d].1.typ).Some?
                 && regions[ds[d].0].dtype == StorageOf(ds[d].1.typ).value
                 && regions[ds[d].0].shots == shots
                 && regions[ds[d].0].length == ds[d].1.length
                 && ValidRegion(regions[ds[d].0])
  {
    var groups := Group(Names(ds), ro);
    ShotCountFromSources(ds, ro, buffers);
    var shots := ShotCount(ds, groups, buffers).value;
    FillRegionsKeys(ds, groups, buffers, shots, map[], 0);
    assert (set e | 0 <= e < |ds| :: ds[e].0) == Names(ds);
    forall d | 0 <= d < |ds|
      ensures var regions := Extract(ds, ro, buffers).value;
              && StorageOf(ds[d].1.typ).Some?
              && regions[ds[d].0].dtype == StorageOf(ds[d].1.typ).value
              && regions[ds[d].0].shots == shots
              && regions[ds[d].0].length == ds[d].1.length
              && ValidRegion(regions[ds[d].0])
    {
      FillRegionsRegion(ds, groups, buffers, shots, map[], 0, d);
    }
  }

  /** The region an extraction returns for `ds[d]`: the fill of a blank region of its type. */
  lemma RegionOfExtract(ds: Descriptors, ro: ReadoutSources, buffers: map<string, Buffer>, d: nat)
    returns (shots: nat, g: Region)
    requires DistinctNames(ds) && WellFormedBuffers(buffers)
    requires Extract(ds, ro, buffers).Success?
    requires d < |ds|
    ensures ShotCount(ds, Group(Names(ds), ro), buffers) == Success(shots)
    ensures ds[d].0 in Names(ds) && StorageOf(ds[d].1.typ).Some?
    ensures ds[d].0 in Extract(ds, ro, buffers).value && Extract(ds, ro, buffers).value[ds[d].0] == g
    ensures FillLaneSets(ds[d].0, Blank(StorageOf(ds[d].1.typ).value, shots, ds[d].1.length),
                         Group(Names(ds), ro)[ds[d].0], buffers, 0) == Success(g)
    ensures ValidRegion(g) && g.shots == shots && g.length == ds[d].1.length
  {
    var groups := Group(Names(ds), ro);
    shots := ShotCount(ds, groups, buffers).value;
    FillRegionsRegion(ds, groups, buffers, shots, map[], 0, d);
    g := Extract(ds, ro, buffers).value[ds[d].0];
  }

  /** The lane set of region `ds[d]` that holds the source `ro[a]`, and its position. */
  lemma LaneOfSource(ds: Descriptors, ro: ReadoutSources, d: nat, a: nat)
    returns (j: nat, i: nat)
    requires d < |ds| && a < |ro| && ro[a].0.name == ds[d].0
    ensures var sets := Group(Names(ds), ro)[ds[d].0];
            && j < |sets| && sets[j].key == ro[a].1
            && i < |SortByOffset(sets[j].lanes)| && SortByOffset(sets[j].lanes)[i] == ro[a].0
  {
    assert ds[d].0 in Names(ds);
    EntryInGroup(Names(ds), ro, a);
    var sets := Group(Names(ds), ro)[ds[d].0];
    j :| 0 <= j < |sets| && sets[j].key == ro[a].1 && ro[a].0 in sets[j].lanes;
    var sorted := SortByOffset(sets[j].lanes);
    SortPermutes(sets[j].lanes);
    assert ro[a].0 in multiset(sets[j].lanes);
    assert ro[a].0 in multiset(sorted);
    i :| 0 <= i < |sorted| && sorted[i] == ro[a].0;
  }

  /**
   * Any write past the declared length is rejected (lines 107-112): when the
   * extraction succeeds, every source of a declared region reads a buffer
   * that exists, and its lane ends within the region.
   */
  lemma ExtractFits(ds: Descriptors, ro: ReadoutSources, buffers: map<string, Buffer>, d: nat, a: nat)
    requires DistinctNames(ds) && WellFormedBuffers(buffers)
    requires Extract(ds, ro, buffers).Success?
    requires d < |ds| && a < |ro| && ro[a].0.name == ds[d].0
    ensures ro[a].1 in buffers && ro[a].0.offset + Widen(buffers[ro[a].1]).width <= ds[d].1.length
  {
    var groups := Group(Names(ds), ro);
    var shots, g := RegionOfExtract(ds, ro, buffers, d);
    var n := ds[d].0;
    var blank := Blank(StorageOf(ds[d].1.typ).value, shots, ds[d].1.length);
    FillLaneSetsSucceeds(n, blank, groups[n], buffers, 0);
    var j, i := LaneOfSource(ds, ro, d, a);
    assert SetFits(groups[n][j], buffers, shots, ds[d].1.length);
    var sorted := SortByOffset(groups[n][j].lanes);
    assert LaneFits(Widen(buffers[ro[a].1]), sorted, shots, ds[d].1.length, i);
  }

  /**
   * Cells no lane writes keep what np.ndarray handed out: when no source of
   * region `ds[d]` covers column `c`, that column is never written.
   */
  lemma ExtractUnwritten(ds: Descriptors, ro: ReadoutSources, buffers: map<string, Buffer>, d: nat, s: nat, c: nat)
    requires DistinctNames(ds) && WellFormedBuffers(buffers)
    requires Extract(ds, ro, buffers).Success?
    requires d < |ds|
    requires forall a :: 0 <= a < |ro| && ro[a].0.name == ds[d].0 ==>
               !Covers(ro[a].0.offset, KeyWidth(buffers, ro[a].1), c)
    ensures var regions := Extract(ds, ro, buffers).value;
            && ds[d].0 in regions && ValidRegion(regions[ds[d].0])
            && (s < regions[ds[d].0].shots && c < regions[ds[d].0].length ==>
                  regions[ds[d].0].cells[s][c] == None)
  {
    var groups := Group(Names(ds), ro);
    var shots, g := RegionOfExtract(ds, ro, buffers, d);
    var n := ds[d].0;
    var blank := Blank(StorageOf(ds[d].1.typ).value, shots, ds[d].1.length);
    if s < shots && c < ds[d].1.length {
      var sets := groups[n];
      forall j', x | 0 <= j' < |sets| && x in sets[j'].lanes
        ensures !Covers(x.offset, KeyWidth(buffers, sets[j'].key), c)
      {
        GroupLaneFromEntry(Names(ds), ro, n, j', x);
      }
      FillLaneSetsFrame(n, blank, sets, buffers, 0, s, c);
    }
  }

  /** No two sources of region `n` write overlapping column ranges. */
  predicate NoOverlap(ro: ReadoutSources, n: string, buffers: map<string, Buffer>) {
    forall a, b :: 0 <= a < b < |ro| && ro[a].0.name == n && ro[b].0.name == n ==>
      || ro[a].0.offset + KeyWidth(buffers, ro[a].1) <= ro[b].0.offset
      || ro[b].0.offset + KeyWidth(buffers, ro[b].1) <= ro[a].0.offset
  }

  lemma Apart(ro: ReadoutSources, n: string, buffers: map<string, Buffer>, a: nat, b: nat, c: nat)
    requires NoOverlap(ro, n, buffers)
    requires a < |ro| && b < |ro| && a != b && ro[a].0.name == n && ro[b].0.name == n
    requires Covers(ro[a].0.offset, KeyWidth(buffers, ro[a].1), c)
    ensures !Covers(ro[b].0.offset, KeyWidth(buffers, ro[b].1), c)
  {
  }

  /** A lane set of `n` rows per shot read with stride `n` gives one row per shot. */
  lemma StrideExact(shots: nat, i: nat, lanes: nat)
    requires i < lanes
    ensures StrideCount(shots * lanes, i, lanes) == shots
  {
    if shots > 0 {
      StrideCountIndex(shots * lanes, i, lanes, shots - 1);
      StrideCountIndex(shots * lanes, i, lanes, shots);
    }
  }

  /**
   * Placement (lines 93-113): let the sources of region `n` reading buffer
   * `key`, sorted by offset, be lane 0 .. L-1, and let that buffer hold
   * shots * L rows. When no two sources of the region overlap, shot `s` of
   * the region holds, at columns [offset, offset + width) of lane `i`, the
   * widened buffer row `i + s * L`.
   */
  lemma ExtractPlacement(ds: Descriptors, ro: ReadoutSources, buffers: map<string, Buffer>,
                         regions: map<string, Region>, d: nat, key: string, i: nat, s: nat, c: nat)
    requires DistinctNames(ds) && DistinctRefs(ro) && WellFormedBuffers(buffers)
    requires Extract(ds, ro, buffers) == Success(regions)
    requires d < |ds| && key in buffers && NoOverlap(ro, ds[d].0, buffers)
    requires i < |SortByOffset(LanesOf(ro, ds[d].0, key))|
    ensures ds[d].0 in regions && ValidRegion(regions[ds[d].0])
    ensures var g := regions[ds[d].0];
            var lanes := SortByOffset(LanesOf(ro, ds[d].0, key));
            var t := Widen(buffers[key]);
            Rows(buffers[key]) == g.shots * |lanes| && s < g.shots && c < t.width ==>
              && lanes[i].offset + c < g.length
              && Src(i, s, |lanes|) < |t.rows|
              && g.cells[s][lanes[i].offset + c] == Some(t.rows[Src(i, s, |lanes|)][c])
  {
    var shots, g := RegionOfExtract(ds, ro, buffers, d);
    var lanes := SortByOffset(LanesOf(ro, ds[d].0, key));
    if Rows(buffers[key]) == shots * |lanes| && s < shots && c < Widen(buffers[key]).width {
      var blank := Blank(StorageOf(ds[d].1.typ).value, shots, ds[d].1.length);
      PlacementInFill(Names(ds), ro, buffers, ds[d].0, key, blank, g, i, s, c);
    }
  }

  /** ExtractPlacement for the fill of one region, starting from a blank region. */
  lemma PlacementInFill(names: set<string>, ro: ReadoutSources, buffers: map<string, Buffer>,
                        n: string, key: string, blank: Region, g: Region, i: nat, s: nat, c: nat)
    requires DistinctRefs(ro) && WellFormedBuffers(buffers) && ValidRegion(blank)
    requires n in names && key in buffers && NoOverlap(ro, n, buffers)
    requires FillLaneSets(n, blank, Group(names, ro)[n], buffers, 0) == Success(g)
    requires i < |SortByOffset(LanesOf(ro, n, key))|
    requires var lanes := SortByOffset(LanesOf(ro, n, key));
             Rows(buffers[key]) == blank.shots * |lanes| && s < blank.shots && c < Widen(buffers[key]).width
    ensures var lanes := SortByOffset(LanesOf(ro, n, key));
            var t := Widen(buffers[key]);
            && lanes[i].offset + c < g.length && s < g.shots && ValidRegion(g)
            && Src(i, s, |lanes|) < |t.rows|
            && g.cells[s][lanes[i].offset + c] == Some(t.rows[Src(i, s, |lanes|)][c])
  {
    var lanes := SortByOffset(LanesOf(ro, n, key));
    var t := Widen(buffers[key]);
    var j := KeyedSet(names, ro, n, key, i);
    var col := lanes[i].offset + c;
    var a := SourceOfLane(ro, n, key, i);
    SameSetMisses(ro, n, key, buffers, i, a, col);
    LaterSetsMiss(names, ro, n, buffers, j, a, col);
    FullStride(t, lanes, blank.shots, i);
    HitCell(n, blank, Group(names, ro)[n], buffers, j, i, s, c, g, t, lanes);
  }

  /** The lane set of region `n` keyed by `key` holds exactly the sources of `n` reading `key`. */
  lemma KeyedSet(names: set<string>, ro: ReadoutSources, n: string, key: string, i: nat) returns (j: nat)
    requires n in names && i < |SortByOffset(LanesOf(ro, n, key))|
    ensures j < |Group(names, ro)[n]| && Group(names, ro)[n][j].key == key
    ensures Group(names, ro)[n][j].lanes == LanesOf(ro, n, key)
  {
    GroupExact(names, ro, n);
    if key !in KeyOrder(ro, n) {
      NoLanesWithoutKey(ro, n, key);
      assert false;
    }
    j :| 0 <= j < |KeyOrder(ro, n)| && KeyOrder(ro, n)[j] == key;
  }

  /** A buffer of shots * L rows is read row for row: the stride is L. */
  lemma FullStride(t: Table, lanes: seq<MemoryReference>, shots: nat, i: nat)
    requires i < |lanes| && |t.rows| == shots * |lanes|
    ensures LaneStride(t, lanes, shots, i) == |lanes|
  {
    StrideExact(shots, i, |lanes|);
  }

  /** The readout source behind lane `i` of the sorted lane set (`n`, `key`). */
  lemma SourceOfLane(ro: ReadoutSources, n: string, key: string, i: nat) returns (a: nat)
    requires i < |SortByOffset(LanesOf(ro, n, key))|
    ensures a < |ro| && ro[a] == (SortByOffset(LanesOf(ro, n, key))[i], key) && ro[a].0.name == n
  {
    var lanes := SortByOffset(LanesOf(ro, n, key));
    SortedLaneMember(LanesOf(ro, n, key), i);
    LanesOfMember(ro, n, key, lanes[i]);
    a :| 0 <= a < |ro| && ro[a] == (lanes[i], key);
  }

  /** Lanes after `i` in the same sorted lane set leave a column lane `i` writes alone. */
  lemma SameSetMisses(ro: ReadoutSources, n: string, key: string, buffers: map<string, Buffer>,
                      i: nat, a: nat, col: nat)
    requires DistinctRefs(ro) && NoOverlap(ro, n, buffers)
    requires i < |SortByOffset(LanesOf(ro, n, key))|
    requires a < |ro| && ro[a] == (SortByOffset(LanesOf(ro, n, key))[i], key) && ro[a].0.name == n
    requires Covers(ro[a].0.offset, KeyWidth(buffers, key), col)
    ensures var lanes := SortByOffset(LanesOf(ro, n, key));
            forall i' :: i < i' < |lanes| ==> !Covers(lanes[i'].offset, KeyWidth(buffers, key), col)
  {
    var lanes := SortByOffset(LanesOf(ro, n, key));
    LanesOfDistinct(ro, n, key);
    SortedDistinct(LanesOf(ro, n, key));
    forall i' | i < i' < |lanes| ensures !Covers(lanes[i'].offset, KeyWidth(buffers, key), col) {
      var b := SourceOfLane(ro, n, key, i');
      Apart(ro, n, buffers, a, b, col);
    }
  }

  /** Lane sets after the `j`-th leave a column its lane `ro[a]` writes alone. */
  lemma LaterSetsMiss(names: set<string>, ro: ReadoutSources, n: string, buffers: map<string, Buffer>,
                      j: nat, a: nat, col: nat)
    requires n in names && NoOverlap(ro, n, buffers)
    requires j < |Group(names, ro)[n]|
    requires a < |ro| && ro[a].0.name == n && ro[a].1 == Group(names, ro)[n][j].key
    requires Covers(ro[a].0.offset, KeyWidth(buffers, ro[a].1), col)
    ensures var sets := Group(names, ro)[n];
            forall j', x :: j < j' < |sets| && x in sets[j'].lanes ==>
              !Covers(x.offset, KeyWidth(buffers, sets[j'].key), col)
  {
    var sets := Group(names, ro)[n];
    assert WellGrouped(sets);
    forall j', x | j < j' < |sets| && x in sets[j'].lanes
      ensures !Covers(x.offset, KeyWidth(buffers, sets[j'].key), col)
    {
      GroupLaneFromEntry(names, ro, n, j', x);
      var b :| 0 <= b < |ro| && ro[b] == (x, sets[j'].key);
      Apart(ro, n, buffers, a, b, col);
    }
  }

  /** FillLaneSetsHit with the buffer view, the sorted lanes and the stride named. */
  lemma HitCell(region: string, blank: Region, sets: seq<LaneSet>, buffers: map<string, Buffer>,
                j: nat, i: nat, s: nat, c: nat, g: Region, t: Table, lanes: seq<MemoryReference>)
    requires ValidRegion(blank) && WellFormedBuffers(buffers) && j < |sets|
    requires FillLaneSets(region, blank, sets, buffers, 0) == Success(g)
    requires sets[j].key in buffers && Widen(buffers[sets[j].key]) == t && SortByOffset(sets[j].lanes) == lanes
    requires i < |lanes| && s < blank.shots && c < t.width
    requires forall i' :: i < i' < |lanes| ==> !Covers(lanes[i'].offset, t.width, lanes[i].offset + c)
    requires forall j', x :: j < j' < |sets| && x in sets[j'].lanes ==>
               !Covers(x.offset, KeyWidth(buffers, sets[j'].key), lanes[i].offset + c)
    requires LaneStride(t, lanes, blank.shots, i) == |lanes|
    ensures ValidRegion(g) && s < g.shots && lanes[i].offset + c < g.length
    ensures Src(i, s, |lanes|) < |t.rows|
    ensures g.cells[s][lanes[i].offset + c] == Some(t.rows[Src(i, s, |lanes|)][c])
  {
    var col := lanes[i].offset + c;
    FillLaneSetsHit(region, blank, sets, buffers, 0, j, i, s, col);
    assert col - lanes[i].offset == c;
  }
}
