/**
 * The result-map assembly of QPU.get_result: decode every returned buffer,
 * extract the declared regions when any buffer came back, and otherwise
 * report an empty "ro" region when the program reads nothing out.
 */
module Qpu {
  import opened Wrappers
  import opened Buffers
  import opened Sources
  import opened Regions
  import opened RegionLemmas
  import opened ExtractProperties
  import opened Extractor
  import opened Readout

  /** The decoded buffers (line 222): every returned buffer decoded under its own key. */
  function DecodeAll(raw: map<string, RawBuffer>,
                     toComplex32: seq<bv8> -> seq<Complex>,
                     toI32: seq<bv8> -> seq<int>): (decoded: map<string, Buffer>)
    ensures decoded.Keys == raw.Keys && WellFormedBuffers(decoded)
    ensures forall k :: k in raw ==> decoded[k] == DecodeBuffer(raw[k], toComplex32, toI32)
  {
    map k | k in raw :: DecodeBuffer(raw[k], toComplex32, toI32)
  }

  /** The empty 0 by 0 int64 region reported when nothing is read out (line 232). */
  function NoReadout(): Region {
    Region(Int64, 0, 0, [])
  }

  /** The result memory of get_result (lines 221-232), as a value. */
  function ResultMemory(ds: Descriptors, ro: ReadoutSources, raw: map<string, RawBuffer>,
                        toComplex32: seq<bv8> -> seq<Complex>,
                        toI32: seq<bv8> -> seq<int>): Result<map<string, Region>, Error>
  {
    var decoded := DecodeAll(raw, toComplex32, toI32);
    if |decoded| != 0 then Extract(ds, ro, decoded)
    else if |ro| == 0 then Success(map["ro" := NoReadout()])
    else Success(map[])
  }

  /**
   * Without any returned buffer nothing is extracted and nothing raises: a
   * program with no readout sources gets a single empty "ro" region, any
   * other program an empty result.
   */
  lemma NoBuffersResult(ds: Descriptors, ro: ReadoutSources, raw: map<string, RawBuffer>,
                        toComplex32: seq<bv8> -> seq<Complex>, toI32: seq<bv8> -> seq<int>)
    requires |raw| == 0
    ensures var r := ResultMemory(ds, ro, raw, toComplex32, toI32);
            && r.Success?
            && r.value.Keys == (if |ro| == 0 then {"ro"} else {})
            && forall n :: n in r.value ==>
                 r.value[n].dtype == Int64 && r.value[n].shots == 0 && r.value[n].length == 0 &&
                 ValidRegion(r.value[n])
  {
    assert DecodeAll(raw, toComplex32, toI32).Keys == {};
  }

  /**
   * With buffers, the result holds exactly the declared regions, each of its
   * declared type and length with one row per shot, or the extraction's
   * error is raised.
   */
  lemma BuffersResultShape(ds: Descriptors, ro: ReadoutSources, raw: map<string, RawBuffer>,
                           toComplex32: seq<bv8> -> seq<Complex>, toI32: seq<bv8> -> seq<int>)
    requires DistinctNames(ds) && |raw| > 0
    requires ResultMemory(ds, ro, raw, toComplex32, toI32).Success?
    ensures var decoded := DecodeAll(raw, toComplex32, toI32);
            var regions := ResultMemory(ds, ro, raw, toComplex32, toI32).value;
            && ShotsFromSources(ds, ro, decoded).Success?
            && regions.Keys == Names(ds)
            && forall d :: 0 <= d < |ds| ==>
                 && StorageOf(ds[d].1.typ).Some?
                 && regions[ds[d].0].dtype == StorageOf(ds[d].1.typ).value
                 && regions[ds[d].0].shots == ShotsFromSources(ds, ro, decoded).value
                 && regions[ds[d].0].length == ds[d].1.length
  {
    var decoded := DecodeAll(raw, toComplex32, toI32);
    assert |decoded| != 0 by {
      var k :| k in raw;
      assert k in decoded;
    }
    ExtractShape(ds, ro, decoded);
  }

  /** With at least one buffer, the result memory is what the extraction computes. */
  lemma ResultIsExtract(ds: Descriptors, ro: ReadoutSources, raw: map<string, RawBuffer>,
                        toComplex32: seq<bv8> -> seq<Complex>, toI32: seq<bv8> -> seq<int>, key: string)
    requires key in raw
    ensures ResultMemory(ds, ro, raw, toComplex32, toI32) == Extract(ds, ro, DecodeAll(raw, toComplex32, toI32))
  {
    assert key in DecodeAll(raw, toComplex32, toI32);
  }

  /**
   * End to end, for an integer buffer: let the readout sources of region
   * `ds[d]` that read buffer `key` be lane 0 .. L-1 in offset order, and let
   * that buffer carry L samples per shot. Then shot `s` of the region holds,
   * at lane `i`'s offset, sample `Src(i, s, L)` = `i + s * L` of the buffer.
   */
  lemma ReadoutIntegers(ds: Descriptors, ro: ReadoutSources, raw: map<string, RawBuffer>,
                        toComplex32: seq<bv8> -> seq<Complex>, toI32: seq<bv8> -> seq<int>,
                        regions: map<string, Region>, d: nat, key: string, i: nat, s: nat)
    requires DistinctNames(ds) && DistinctRefs(ro) && key in raw && raw[key].dtype == "integer"
    requires ResultMemory(ds, ro, raw, toComplex32, toI32) == Success(regions)
    requires d < |ds| && NoOverlap(ro, ds[d].0, DecodeAll(raw, toComplex32, toI32))
    requires i < |SortByOffset(LanesOf(ro, ds[d].0, key))|
    ensures ds[d].0 in regions && ValidRegion(regions[ds[d].0])
    ensures var g := regions[ds[d].0];
            var lanes := SortByOffset(LanesOf(ro, ds[d].0, key));
            var xs := toI32(raw[key].data);
            |xs| == g.shots * |lanes| && s < g.shots ==>
              && Src(i, s, |lanes|) < |xs| && lanes[i].offset < g.length
              && g.cells[s][lanes[i].offset] == Some(xs[Src(i, s, |lanes|)])
  {
    var decoded := DecodeAll(raw, toComplex32, toI32);
    ResultIsExtract(ds, ro, raw, toComplex32, toI32, key);
    DecodedRows(raw[key], toComplex32, toI32);
    IntegerPlacement(ds, ro, decoded, regions, d, key, i, s, toI32(raw[key].data));
  }

  /**
   * End to end, for a complex buffer: as for integers, but each sample
   * fills two columns, its real part at lane `i`'s offset and its
   * imaginary part right after.
   */
  lemma ReadoutComplex(ds: Descriptors, ro: ReadoutSources, raw: map<string, RawBuffer>,
                       toComplex32: seq<bv8> -> seq<Complex>, toI32: seq<bv8> -> seq<int>,
                       regions: map<string, Region>, d: nat, key: string, i: nat, s: nat)
    requires DistinctNames(ds) && DistinctRefs(ro) && key in raw && raw[key].dtype == "complex"
    requires ResultMemory(ds, ro, raw, toComplex32, toI32) == Success(regions)
    requires d < |ds| && NoOverlap(ro, ds[d].0, DecodeAll(raw, toComplex32, toI32))
    requires i < |SortByOffset(LanesOf(ro, ds[d].0, key))|
    ensures ds[d].0 in regions && ValidRegion(regions[ds[d].0])
    ensures var g := regions[ds[d].0];
            var lanes := SortByOffset(LanesOf(ro, ds[d].0, key));
            var zs := toComplex32(raw[key].data);
            |zs| == g.shots * |lanes| && s < g.shots ==>
              && Src(i, s, |lanes|) < |zs| && lanes[i].offset + 1 < g.length
              && g.cells[s][lanes[i].offset] == Some(zs[Src(i, s, |lanes|)].re)
              && g.cells[s][lanes[i].offset + 1] == Some(zs[Src(i, s, |lanes|)].im)
  {
    var decoded := DecodeAll(raw, toComplex32, toI32);
    ResultIsExtract(ds, ro, raw, toComplex32, toI32, key);
    DecodedRows(raw[key], toComplex32, toI32);
    ComplexPlacement(ds, ro, decoded, regions, d, key, i, s, toComplex32(raw[key].data));
  }

  /**
   * get_result's assembly of the result memory (lines 221-232): the
   * extracted regions copied one by one into a fresh dictionary, or the
   * fallback. It raises exactly when ResultMemory does and otherwise
   * returns arrays that hold what ResultMemory describes.
   */
  method GetResultMemory(ds: Descriptors, ro: ReadoutSources, raw: map<string, RawBuffer>,
                         toComplex32: seq<bv8> -> seq<Complex>, toI32: seq<bv8> -> seq<int>)
    returns (r: Result<map<string, Allocated>, Error>)
    ensures r.Failure? <==> ResultMemory(ds, ro, raw, toComplex32, toI32).Failure?
    ensures r.Failure? ==> r.error == ResultMemory(ds, ro, raw, toComplex32, toI32).error
    ensures r.Success? ==> Realizes(r.value, ResultMemory(ds, ro, raw, toComplex32, toI32).value)
    ensures r.Success? ==> forall n :: n in r.value ==> fresh(r.value[n].data)
  {
    var decoded := DecodeAll(raw, toComplex32, toI32);
    var resultMemory: map<string, Allocated> := map[];
    if |decoded| != 0 {
      var extracted := ExtractMemoryRegions(ds, ro, decoded);
      if extracted.Failure? {
        return Failure(extracted.error);
      }
      resultMemory := CopyRegions(extracted.value);
    } else if |ro| == 0 {
      var zeros := new int[0, 0];
      resultMemory := resultMemory["ro" := Allocated(Int64, zeros)];
    }
    return Success(resultMemory);
  }

  /** The copy of every extracted region into the result dictionary (lines 229-230). */
  method CopyRegions(regions: map<string, Allocated>) returns (copy: map<string, Allocated>)
    ensures copy == regions
  {
    copy := map[];
    var pending := regions.Keys;
    while pending != {}
      invariant pending <= regions.Keys
      invariant copy.Keys == regions.Keys - pending
      invariant forall n :: n in copy ==> copy[n] == regions[n]
      decreases |pending|
    {
      var name :| name in pending;
      copy := copy[name := regions[name]];
      pending := pending - {name};
    }
  }
}
