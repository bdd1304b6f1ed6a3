/**
 * What one region's fill does, stated cell by cell: when it succeeds, which
 * cells a lane writes, with which buffer row, and which cells it leaves
 * alone. These are the steps the properties of the whole extraction rest on.
 */
module RegionLemmas {
  import opened Wrappers
  import opened Buffers
  import opened Sources
  import opened Regions

  /** Column `c` lies in the range [offset, offset + width) a lane writes. */
  predicate Covers(offset: nat, width: nat, c: nat) {
    offset <= c < offset + width
  }

  /** The width a lane reading buffer `key` writes; 0 when there is no such buffer. */
  function KeyWidth(buffers: map<string, Buffer>, key: string): nat {
    if key in buffers && WellFormed(buffers[key]) then Widen(buffers[key]).width else 0
  }

  /** Every lane of a lane set fits its region and numpy accepts its rows. */
  predicate SetFits(laneSet: LaneSet, buffers: map<string, Buffer>, shots: nat, length: nat) {
    && laneSet.key in buffers && WellFormed(buffers[laneSet.key])
    && var sorted := SortByOffset(laneSet.lanes);
       forall i :: 0 <= i < |sorted| ==> LaneFits(Widen(buffers[laneSet.key]), sorted, shots, length, i)
  }

  lemma {:induction false} PlaceLanesSucceeds(region: string, g: Region, t: Table, lanes: seq<MemoryReference>, i: nat)
    requires ValidRegion(g) && Rectangular(t) && i <= |lanes|
    ensures PlaceLanes(region, g, t, lanes, i).Success? <==>
            forall i' :: i <= i' < |lanes| ==> LaneFits(t, lanes, g.shots, g.length, i')
    decreases |lanes| - i
  {
    if i < |lanes| && LaneFits(t, lanes, g.shots, g.length, i) {
      LaneRowsExist(t, lanes, g.shots, g.length, i);
      var g' := WriteLane(g, lanes[i].offset, t, i, LaneStride(t, lanes, g.shots, i));
      PlaceLanesSucceeds(region, g', t, lanes, i + 1);
    }
  }

  /**
   * The first lane that runs past the region raises the overflow error
   * (lines 107-112) with its own offset and end: the region is never
   * truncated.
   */
  lemma {:induction false} PlaceLanesOverflow(region: string, g: Region, t: Table, lanes: seq<MemoryReference>,
                                              i: nat, i0: nat)
    requires ValidRegion(g) && Rectangular(t) && i <= i0 < |lanes|
    requires forall i' :: i <= i' < i0 ==> LaneFits(t, lanes, g.shots, g.length, i')
    requires lanes[i0].offset + t.width > g.length
    ensures PlaceLanes(region, g, t, lanes, i) ==
            Failure(RegionOverflow(region, lanes[i0].offset, lanes[i0].offset + t.width, g.length))
    decreases i0 - i
  {
    if i < i0 {
      LaneRowsExist(t, lanes, g.shots, g.length, i);
      var g' := WriteLane(g, lanes[i].offset, t, i, LaneStride(t, lanes, g.shots, i));
      PlaceLanesOverflow(region, g', t, lanes, i + 1, i0);
    }
  }

  /** Placing lanes leaves every column none of them covers as it was. */
  lemma {:induction false} PlaceLanesFrame(region: string, g: Region, t: Table, lanes: seq<MemoryReference>, i: nat,
                                           s: nat, c: nat)
    requires ValidRegion(g) && Rectangular(t) && i <= |lanes|
    requires PlaceLanes(region, g, t, lanes, i).Success?
    requires s < g.shots && c < g.length
    requires forall i' :: i <= i' < |lanes| ==> !Covers(lanes[i'].offset, t.width, c)
    ensures PlaceLanes(region, g, t, lanes, i).value.cells[s][c] == g.cells[s][c]
    decreases |lanes| - i
  {
    if i < |lanes| {
      LaneRowsExist(t, lanes, g.shots, g.length, i);
      var g' := WriteLane(g, lanes[i].offset, t, i, LaneStride(t, lanes, g.shots, i));
      PlaceLanesFrame(region, g', t, lanes, i + 1, s, c);
    }
  }

  /**
   * A column written by lane `i0` and by no later lane holds, in shot row
   * `s`, the buffer row lane `i0` reads for that shot.
   */
  lemma {:induction false} PlaceLanesHit(region: string, g: Region, t: Table, lanes: seq<MemoryReference>, i: nat,
                                         i0: nat, s: nat, c: nat)
    requires ValidRegion(g) && Rectangular(t) && i <= i0 < |lanes|
    requires PlaceLanes(region, g, t, lanes, i).Success?
    requires s < g.shots && Covers(lanes[i0].offset, t.width, c)
    requires forall i' :: i0 < i' < |lanes| ==> !Covers(lanes[i'].offset, t.width, c)
    ensures c < g.length && LaneFits(t, lanes, g.shots, g.length, i0)
    ensures Src(i0, s, LaneStride(t, lanes, g.shots, i0)) < |t.rows| &&
            PlaceLanes(region, g, t, lanes, i).value.cells[s][c] ==
              Some(t.rows[Src(i0, s, LaneStride(t, lanes, g.shots, i0))][c - lanes[i0].offset])
    decreases i0 - i
  {
    LaneRowsExist(t, lanes, g.shots, g.length, i);
    var g' := WriteLane(g, lanes[i].offset, t, i, LaneStride(t, lanes, g.shots, i));
    if i < i0 {
      PlaceLanesHit(region, g', t, lanes, i + 1, i0, s, c);
    } else {
      PlaceLanesFrame(region, g', t, lanes, i + 1, s, c);
    }
  }

  lemma {:induction false} FillLaneSetsSucceeds(region: string, g: Region, sets: seq<LaneSet>,
                                                buffers: map<string, Buffer>, j: nat)
    requires ValidRegion(g) && WellFormedBuffers(buffers) && j <= |sets|
    ensures FillLaneSets(region, g, sets, buffers, j).Success? <==>
            forall j' :: j <= j' < |sets| ==> SetFits(sets[j'], buffers, g.shots, g.length)
    decreases |sets| - j
  {
    if j < |sets| && sets[j].key in buffers {
      var t := Widen(buffers[sets[j].key]);
      var sorted := SortByOffset(sets[j].lanes);
      PlaceLanesSucceeds(region, g, t, sorted, 0);
      var r := PlaceLanes(region, g, t, sorted, 0);
      if r.Success? {
        FillLaneSetsSucceeds(region, r.value, sets, buffers, j + 1);
      }
    }
  }

  /** A lane of a set, in sorted order, is one of the set's lanes. */
  lemma SortedLaneMember(lanes: seq<MemoryReference>, i: nat)
    requires i < |SortByOffset(lanes)|
    ensures SortByOffset(lanes)[i] in lanes
  {
    var sorted := SortByOffset(lanes);
    SortPermutes(lanes);
    assert sorted[i] in multiset(sorted);
  }

  /** Filling lane sets leaves every column none of their lanes covers as it was. */
  lemma {:induction false} FillLaneSetsFrame(region: string, g: Region, sets: seq<LaneSet>,
                                             buffers: map<string, Buffer>, j: nat, s: nat, c: nat)
    requires ValidRegion(g) && WellFormedBuffers(buffers) && j <= |sets|
    requires FillLaneSets(region, g, sets, buffers, j).Success?
    requires s < g.shots && c < g.length
    requires forall j', x :: j <= j' < |sets| && x in sets[j'].lanes ==>
               !Covers(x.offset, KeyWidth(buffers, sets[j'].key), c)
    ensures FillLaneSets(region, g, sets, buffers, j).value.cells[s][c] == g.cells[s][c]
    decreases |sets| - j
  {
    if j < |sets| {
      var t := Widen(buffers[sets[j].key]);
      var sorted := SortByOffset(sets[j].lanes);
      forall i' | 0 <= i' < |sorted| ensures !Covers(sorted[i'].offset, t.width, c) {
        SortedLaneMember(sets[j].lanes, i');
      }
      PlaceLanesFrame(region, g, t, sorted, 0, s, c);
      FillLaneSetsFrame(region, PlaceLanes(region, g, t, sorted, 0).value, sets, buffers, j + 1, s, c);
    }
  }

  /**
   * A column written by lane `i0` of set `j0` (in sorted order) and by no
   * later lane, of that set or of a later one, holds that lane's row.
   */
  lemma {:induction false} FillLaneSetsHit(region: string, g: Region, sets: seq<LaneSet>,
                                           buffers: map<string, Buffer>, j: nat,
                                           j0: nat, i0: nat, s: nat, c: nat)
    requires ValidRegion(g) && WellFormedBuffers(buffers) && j <= j0 < |sets|
    requires FillLaneSets(region, g, sets, buffers, j).Success?
    requires sets[j0].key in buffers
    requires var t := Widen(buffers[sets[j0].key]);
             var sorted := SortByOffset(sets[j0].lanes);
             && i0 < |sorted| && s < g.shots && Covers(sorted[i0].offset, t.width, c)
             && (forall i' :: i0 < i' < |sorted| ==> !Covers(sorted[i'].offset, t.width, c))
    requires forall j', x :: j0 < j' < |sets| && x in sets[j'].lanes ==>
               !Covers(x.offset, KeyWidth(buffers, sets[j'].key), c)
    ensures var t := Widen(buffers[sets[j0].key]);
            var sorted := SortByOffset(sets[j0].lanes);
            var stride := LaneStride(t, sorted, g.shots, i0);
            && c < g.length && LaneFits(t, sorted, g.shots, g.length, i0)
            && Src(i0, s, stride) < |t.rows|
            && FillLaneSets(region, g, sets, buffers, j).value.cells[s][c] ==
                 Some(t.rows[Src(i0, s, stride)][c - sorted[i0].offset])
    decreases j0 - j
  {
    FillLaneSetsStep(region, g, sets, buffers, j);
    var t := Widen(buffers[sets[j].key]);
    var sorted := SortByOffset(sets[j].lanes);
    var g' := PlaceLanes(region, g, t, sorted, 0).value;
    if j < j0 {
      FillLaneSetsHit(region, g', sets, buffers, j + 1, j0, i0, s, c);
    } else {
      PlaceLanesHit(region, g, t, sorted, 0, i0, s, c);
      FillLaneSetsFrame(region, g', sets, buffers, j + 1, s, c);
    }
  }

  /** A successful fill from set `j` is set `j`'s placement followed by the fill from `j + 1`. */
  lemma FillLaneSetsStep(region: string, g: Region, sets: seq<LaneSet>, buffers: map<string, Buffer>, j: nat)
    requires ValidRegion(g) && WellFormedBuffers(buffers) && j < |sets|
    requires FillLaneSets(region, g, sets, buffers, j).Success?
    ensures sets[j].key in buffers
    ensures var placed := PlaceLanes(region, g, Widen(buffers[sets[j].key]), SortByOffset(sets[j].lanes), 0);
            && placed.Success?
            && FillLaneSets(region, g, sets, buffers, j) == FillLaneSets(region, placed.value, sets, buffers, j + 1)
  {
  }

  /** Regions filled after `acc` never replace a region of another name. */
  lemma {:induction false} FillRegionsKeeps(ds: Descriptors, groups: Groups, buffers: map<string, Buffer>, shots: nat,
                                            acc: map<string, Region>, d: nat, n: string)
    requires WellFormedBuffers(buffers) && Names(ds) <= groups.Keys && d <= |ds|
    requires FillRegions(ds, groups, buffers, shots, acc, d).Success?
    requires n in acc && forall e :: d <= e < |ds| ==> ds[e].0 != n
    ensures var res := FillRegions(ds, groups, buffers, shots, acc, d).value;
            n in res && res[n] == acc[n]
    decreases |ds| - d
  {
    if d < |ds| {
      assert ds[d].0 in Names(ds);
      var (name, spec) := ds[d];
      var g := FillLaneSets(name, Blank(StorageOf(spec.typ).value, shots, spec.length), groups[name], buffers, 0).value;
      FillRegionsKeeps(ds, groups, buffers, shots, acc[name := g], d + 1, n);
    }
  }

  lemma {:induction false} FillRegionsKeys(ds: Descriptors, groups: Groups, buffers: map<string, Buffer>, shots: nat,
                                           acc: map<string, Region>, d: nat)
    requires WellFormedBuffers(buffers) && Names(ds) <= groups.Keys && d <= |ds|
    requires FillRegions(ds, groups, buffers, shots, acc, d).Success?
    ensures FillRegions(ds, groups, buffers, shots, acc, d).value.Keys ==
            acc.Keys + set e | d <= e < |ds| :: ds[e].0
    decreases |ds| - d
  {
    if d < |ds| {
      assert ds[d].0 in Names(ds);
      var (name, spec) := ds[d];
      var g := FillLaneSets(name, Blank(StorageOf(spec.typ).value, shots, spec.length), groups[name], buffers, 0).value;
      FillRegionsKeys(ds, groups, buffers, shots, acc[name := g], d + 1);
      assert (set e | d <= e < |ds| :: ds[e].0) == {name} + set e | d + 1 <= e < |ds| :: ds[e].0;
    }
  }

  /**
   * When the fill succeeds, every descriptor from `d` on has a known element
   * type and its region is the fill of a blank region of that type.
   */
  lemma {:induction false} FillRegionsRegion(ds: Descriptors, groups: Groups, buffers: map<string, Buffer>, shots: nat,
                                             acc: map<string, Region>, d: nat, e: nat)
    requires WellFormedBuffers(buffers) && Names(ds) <= groups.Keys && d <= e < |ds|
    requires DistinctNames(ds)
    requires FillRegions(ds, groups, buffers, shots, acc, d).Success?
    ensures ds[e].0 in Names(ds) && StorageOf(ds[e].1.typ).Some?
    ensures var res := FillRegions(ds, groups, buffers, shots, acc, d).value;
            var blank := Blank(StorageOf(ds[e].1.typ).value, shots, ds[e].1.length);
            ds[e].0 in res && FillLaneSets(ds[e].0, blank, groups[ds[e].0], buffers, 0) == Success(res[ds[e].0])
    decreases |ds| - d
  {
    assert ds[d].0 in Names(ds) && ds[e].0 in Names(ds);
    var (name, spec) := ds[d];
    var g := FillLaneSets(name, Blank(StorageOf(spec.typ).value, shots, spec.length), groups[name], buffers, 0).value;
    if d < e {
      FillRegionsRegion(ds, groups, buffers, shots, acc[name := g], d + 1, e);
    } else {
      FillRegionsKeeps(ds, groups, buffers, shots, acc[name := g], d + 1, name);
    }
  }
}
