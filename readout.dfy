/**
 * The extracted regions read back through the decoders: a placed row of the
 * widened table is the integer sample, or the real and imaginary parts of
 * the complex sample, that the buffer held.
 */
module Readout {
  import opened Wrappers
  import opened Buffers
  import opened Sources
  import opened Regions
  import opened ExtractProperties

  /** A placed row of a one-column table, read back as the integer sample it widens. */
  lemma IntegerCell(g: Region, t: Table, lanes: seq<MemoryReference>, i: nat, s: nat, xs: seq<int>, rows: nat)
    requires ValidRegion(g) && i < |lanes| && t.width == 1 && |t.rows| == |xs| && rows == |xs|
    requires forall r :: 0 <= r < |xs| ==> t.rows[r] == [xs[r]]
    requires rows == g.shots * |lanes| && s < g.shots && 0 < t.width ==>
               && lanes[i].offset + 0 < g.length && Src(i, s, |lanes|) < |t.rows|
               && g.cells[s][lanes[i].offset + 0] == Some(t.rows[Src(i, s, |lanes|)][0])
    ensures |xs| == g.shots * |lanes| && s < g.shots ==>
              && Src(i, s, |lanes|) < |xs| && lanes[i].offset < g.length
              && g.cells[s][lanes[i].offset] == Some(xs[Src(i, s, |lanes|)])
  {
  }

  /** Column 0 of a placed row of a two-column table: the real part of the complex sample it widens. */
  lemma RealCell(g: Region, t: Table, lanes: seq<MemoryReference>, i: nat, s: nat, zs: seq<Complex>, rows: nat)
    requires ValidRegion(g) && i < |lanes| && t.width == 2 && |t.rows| == |zs| && rows == |zs|
    requires forall r :: 0 <= r < |zs| ==> t.rows[r] == [zs[r].re, zs[r].im]
    requires rows == g.shots * |lanes| && s < g.shots && 0 < t.width ==>
               && lanes[i].offset + 0 < g.length && Src(i, s, |lanes|) < |t.rows|
               && g.cells[s][lanes[i].offset + 0] == Some(t.rows[Src(i, s, |lanes|)][0])
    ensures |zs| == g.shots * |lanes| && s < g.shots ==>
              && Src(i, s, |lanes|) < |zs| && lanes[i].offset < g.length
              && g.cells[s][lanes[i].offset] == Some(zs[Src(i, s, |lanes|)].re)
  {
  }

  /** Column 1 of a placed row of a two-column table: the imaginary part of the complex sample it widens. */
  lemma ImagCell(g: Region, t: Table, lanes: seq<MemoryReference>, i: nat, s: nat, zs: seq<Complex>, rows: nat)
    requires ValidRegion(g) && i < |lanes| && t.width == 2 && |t.rows| == |zs| && rows == |zs|
    requires forall r :: 0 <= r < |zs| ==> t.rows[r] == [zs[r].re, zs[r].im]
    requires rows == g.shots * |lanes| && s < g.shots && 1 < t.width ==>
               && lanes[i].offset + 1 < g.length && Src(i, s, |lanes|) < |t.rows|
               && g.cells[s][lanes[i].offset + 1] == Some(t.rows[Src(i, s, |lanes|)][1])
    ensures |zs| == g.shots * |lanes| && s < g.shots ==>
              && Src(i, s, |lanes|) < |zs| && lanes[i].offset + 1 < g.length
              && g.cells[s][lanes[i].offset + 1] == Some(zs[Src(i, s, |lanes|)].im)
  {
  }

  /** An integer buffer's samples placed in a region, one column per lane. */
  lemma IntegerPlacement(ds: Descriptors, ro: ReadoutSources, decoded: map<string, Buffer>,
                         regions: map<string, Region>, d: nat, key: string, i: nat, s: nat, xs: seq<int>)
    requires DistinctNames(ds) && DistinctRefs(ro) && WellFormedBuffers(decoded)
    requires Extract(ds, ro, decoded) == Success(regions)
    requires d < |ds| && key in decoded && NoOverlap(ro, ds[d].0, decoded)
    requires i < |SortByOffset(LanesOf(ro, ds[d].0, key))|
    requires decoded[key].IntBuffer?
    requires Widen(decoded[key]).width == 1 && |Widen(decoded[key]).rows| == |xs|
    requires forall r :: 0 <= r < |xs| ==> Widen(decoded[key]).rows[r] == [xs[r]]
    ensures ds[d].0 in regions && ValidRegion(regions[ds[d].0])
    ensures var g := regions[ds[d].0];
            var lanes := SortByOffset(LanesOf(ro, ds[d].0, key));
            |xs| == g.shots * |lanes| && s < g.shots ==>
              && Src(i, s, |lanes|) < |xs| && lanes[i].offset < g.length
              && g.cells[s][lanes[i].offset] == Some(xs[Src(i, s, |lanes|)])
  {
    ExtractPlacement(ds, ro, decoded, regions, d, key, i, s, 0);
    IntegerCell(regions[ds[d].0], Widen(decoded[key]), SortByOffset(LanesOf(ro, ds[d].0, key)), i, s, xs,
                Rows(decoded[key]));
  }

  /** The real parts of a complex buffer's samples placed in a region, at each lane's offset. */
  lemma RealPlacement(ds: Descriptors, ro: ReadoutSources, decoded: map<string, Buffer>,
                      regions: map<string, Region>, d: nat, key: string, i: nat, s: nat, zs: seq<Complex>)
    requires DistinctNames(ds) && DistinctRefs(ro) && WellFormedBuffers(decoded)
    requires Extract(ds, ro, decoded) == Success(regions)
    requires d < |ds| && key in decoded && NoOverlap(ro, ds[d].0, decoded)
    requires i < |SortByOffset(LanesOf(ro, ds[d].0, key))|
    requires decoded[key].ComplexBuffer?
    requires Widen(decoded[key]).width == 2 && |Widen(decoded[key]).rows| == |zs|
    requires forall r :: 0 <= r < |zs| ==> Widen(decoded[key]).rows[r] == [zs[r].re, zs[r].im]
    ensures ds[d].0 in regions && ValidRegion(regions[ds[d].0])
    ensures var g := regions[ds[d].0];
            var lanes := SortByOffset(LanesOf(ro, ds[d].0, key));
            |zs| == g.shots * |lanes| && s < g.shots ==>
              && Src(i, s, |lanes|) < |zs| && lanes[i].offset < g.length
              && g.cells[s][lanes[i].offset] == Some(zs[Src(i, s, |lanes|)].re)
  {
    ExtractPlacement(ds, ro, decoded, regions, d, key, i, s, 0);
    RealCell(regions[ds[d].0], Widen(decoded[key]), SortByOffset(LanesOf(ro, ds[d].0, key)), i, s, zs,
             Rows(decoded[key]));
  }

  /** The imaginary parts of a complex buffer's samples placed in a region, at the column after each lane's offset. */
  lemma ImagPlacement(ds: Descriptors, ro: ReadoutSources, decoded: map<string, Buffer>,
                      regions: map<string, Region>, d: nat, key: string, i: nat, s: nat, zs: seq<Complex>)
    requires DistinctNames(ds) && DistinctRefs(ro) && WellFormedBuffers(decoded)
    requires Extract(ds, ro, decoded) == Success(regions)
    requires d < |ds| && key in decoded && NoOverlap(ro, ds[d].0, decoded)
    requires i < |SortByOffset(LanesOf(ro, ds[d].0, key))|
    requires decoded[key].ComplexBuffer?
    requires Widen(decoded[key]).width == 2 && |Widen(decoded[key]).rows| == |zs|
    requires forall r :: 0 <= r < |zs| ==> Widen(decoded[key]).rows[r] == [zs[r].re, zs[r].im]
    ensures ds[d].0 in regions && ValidRegion(regions[ds[d].0])
    ensures var g := regions[ds[d].0];
            var lanes := SortByOffset(LanesOf(ro, ds[d].0, key));
            |zs| == g.shots * |lanes| && s < g.shots ==>
              && Src(i, s, |lanes|) < |zs| && lanes[i].offset + 1 < g.length
              && g.cells[s][lanes[i].offset + 1] == Some(zs[Src(i, s, |lanes|)].im)
  {
    ExtractPlacement(ds, ro, decoded, regions, d, key, i, s, 1);
    ImagCell(regions[ds[d].0], Widen(decoded[key]), SortByOffset(LanesOf(ro, ds[d].0, key)), i, s, zs,
             Rows(decoded[key]));
  }

  /** A complex buffer's samples placed in a region, two columns per lane. */
  lemma ComplexPlacement(ds: Descriptors, ro: ReadoutSources, decoded: map<string, Buffer>,
                         regions: map<string, Region>, d: nat, key: string, i: nat, s: nat, zs: seq<Complex>)
    requires DistinctNames(ds) && DistinctRefs(ro) && WellFormedBuffers(decoded)
    requires Extract(ds, ro, decoded) == Success(regions)
    requires d < |ds| && key in decoded && NoOverlap(ro, ds[d].0, decoded)
    requires i < |SortByOffset(LanesOf(ro, ds[d].0, key))|
    requires decoded[key].ComplexBuffer?
    requires Widen(decoded[key]).width == 2 && |Widen(decoded[key]).rows| == |zs|
    requires forall r :: 0 <= r < |zs| ==> Widen(decoded[key]).rows[r] == [zs[r].re, zs[r].im]
    ensures ds[d].0 in regions && ValidRegion(regions[ds[d].0])
    ensures var g := regions[ds[d].0];
            var lanes := SortByOffset(LanesOf(ro, ds[d].0, key));
            |zs| == g.shots * |lanes| && s < g.shots ==>
              && Src(i, s, |lanes|) < |zs| && lanes[i].offset + 1 < g.length
              && g.cells[s][lanes[i].offset] == Some(zs[Src(i, s, |lanes|)].re)
              && g.cells[s][lanes[i].offset + 1] == Some(zs[Src(i, s, |lanes|)].im)
  {
    RealPlacement(ds, ro, decoded, regions, d, key, i, s, zs);
    var g := regions[ds[d].0];
    var lanes := SortByOffset(LanesOf(ro, ds[d].0, key));
    if |zs| == g.shots * |lanes| && s < g.shots {
      ImagPlacement(ds, ro, decoded, regions, d, key, i, s, zs);
    }
  }
}
