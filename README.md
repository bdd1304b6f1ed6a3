# Result assembly of the pyQuil QPU client

After a program has run on a quantum processor, the execution service returns
a set of flat result buffers, each under a key and tagged "complex" or
"integer". `QPU.get_result` turns them into the named memory regions the
program declared, with one row per shot and one column per slot of the
region. The work happens in three steps:

1. **`decode_buffer`** turns each raw buffer into a flat numpy array. A
   "complex" tag gives complex samples and an "integer" tag gives int32
   samples. Any other tag gives an empty integer array.
2. **`_extract_memory_regions`** demultiplexes the buffers into regions.
   - Readout sources that name an undeclared region are dropped.
   - The remaining memory references are grouped into *lane sets*. A lane
     set holds the references of one region whose data share one buffer.
   - The shot count comes from the first lane set of the first region. It
     is that buffer's row count divided by the set's number of lanes.
   - Every declared region is allocated as a (shots, length) array of int64
     or float64 storage.
   - Each buffer is viewed as a 2-D real array. A 1-D buffer becomes one
     column. A complex buffer becomes its real parts beside its imaginary
     parts.
   - The lanes of a set are taken in ascending offset order. Lane `i` of
     `L` receives buffer rows `i, i + L, i + 2L, ...` in the columns
     `[offset, offset + width)` of every shot row.
   - A lane that would run past the declared length is an error.
3. **`get_result`** chooses the result map.
   - When any buffer came back, the result is the extracted regions.
   - When no buffer came back and the program has no readout sources, the
     result is a single empty 0×0 int64 region "ro".
   - Otherwise the result is an empty map.

The model mirrors this in layers:

- `Buffers`: decoding and the 2-D widened view of a buffer.
- `Sources`: the grouping into lane sets, with an independent entry-by-entry
  description of it, and the sort by offset.
- `Regions`: the extraction as functions, including every error it raises.
  `Extract` is the whole of `_extract_memory_regions`; `ShotCount` derives
  the shot count; `FillRegions` runs the region loop, `FillLaneSets` the lane
  sets of one region and `PlaceLanes` the lanes of one set; `StorageOf` is
  alloc's table of element types.
- `RegionLemmas` and `ExtractProperties`: what the extraction computes,
  cell by cell and error by error.
- `Extractor`: the extraction as the source runs it. Methods allocate 2-D
  arrays and fill them in place with column slices, and they are proved to
  realise the functions of `Regions`.
- `Readout`: the placement read back through the decoders.
- `Qpu`: the result-map assembly of `get_result`, as the function
  `ResultMemory` and as the method `GetResultMemory` with the loop that
  copies the regions.

Sample values are abstract integers, because the code only copies them and
splits complex samples into their two parts. The two byte decoders of the
execution service (`to_complex32`, `to_i32`) are function parameters.

Every declared region gets an allocated array in the result (lines 77 and
93-94), even a region no readout source feeds; that region's cells are
never written.

## Model

| member | source | states |
|---|---|---|
| Buffers.DecodeBuffer | pyquil/api/_qpu.py:42-53 | A "complex" tag gives exactly the complex samples of the payload. An "integer" tag gives exactly its int32 samples. Any other tag gives an empty integer array and no error. The result is complex exactly when the tag is "complex". |
| Buffers.Reshape2D | pyquil/api/_qpu.py:100-102 | A 1-D array becomes an N×1 matrix holding the same elements. A 2-D array is left as it is. |
| Buffers.Widen | pyquil/api/_qpu.py:100-105 | The real view keeps the buffer's rows one for one. An integer buffer keeps its columns. A complex buffer doubles its width: the real parts come first and the imaginary parts follow in the same order. |
| Buffers.DecodedRows | pyquil/api/_qpu.py:49-53 | After decoding, a complex sample a+bj becomes the two-column row [a, b] and an integer sample x becomes the row [x]. An unknown tag gives a one-column table with no rows. |
| Sources.AppendLane | pyquil/api/_qpu.py:83 | Appending to `sources[name][key]` extends that key's lane set by one reference at its end. A new key opens a one-lane set at the end. All other sets are unchanged, and no set is empty or keyed twice. |
| Sources.AddSource | pyquil/api/_qpu.py:79-83 | One step of the grouping loop keeps the declared names as keys and keeps every region's lane sets well formed. A source of an undeclared region changes nothing; otherwise only its own region's lane sets change, by the append of AppendLane. |
| Sources.Group | pyquil/api/_qpu.py:77-83 | The grouping has exactly the declared region names as keys. Each region's lane sets are non-empty and have distinct keys. |
| Sources.GroupSources | pyquil/api/_qpu.py:77-83 | The loop over the readout sources builds exactly the grouping `Group` defines. |
| Sources.GroupExact | pyquil/api/_qpu.py:77-83 | A declared region's lane sets are ordered by the first appearance of their buffer key. Each set holds every reference of that region read from that buffer, in source order, and nothing else. |
| Sources.KeyOrderMembers | pyquil/api/_qpu.py:77-83 | A buffer key feeds a region exactly when some readout source of that region names that key. |
| Sources.FirstKey | pyquil/api/_qpu.py:90 | A region's first lane set is keyed by the buffer of the earliest readout source naming that region. |
| Sources.GroupIgnoresStale | pyquil/api/_qpu.py:78-82 | Grouping all readout sources gives the same lane sets as grouping only the sources that name a declared region. |
| Sources.LanesOfMember | pyquil/api/_qpu.py:77-83 | A reference is in the lanes of (region, key) exactly when it names that region and a readout source maps it to that key. |
| Sources.LanesOfDistinct | pyquil/api/_qpu.py:77-83 | Since a dictionary holds each memory reference once, no lane set repeats a reference. |
| Sources.FirstSourceOf | pyquil/api/_qpu.py:89-90 | The result is the earliest readout source naming the region, or None exactly when no source names it. |
| Sources.EntryInGroup | pyquil/api/_qpu.py:77-83 | Every source naming a declared region lies in the lane set of its own buffer key. |
| Sources.GroupLaneFromEntry | pyquil/api/_qpu.py:77-83 | Every lane in a lane set comes from a readout source of that region mapped to that set's key. |
| Sources.InsertByOffset | pyquil/api/_qpu.py:99 | Inserting into a sequence sorted by offset keeps it sorted and adds exactly the one reference. |
| Sources.InsertPermutes | pyquil/api/_qpu.py:99 | The insertion adds the new reference to the multiset and changes nothing else. |
| Sources.SortByOffset | pyquil/api/_qpu.py:99 | The lanes come out in ascending offset order, with the same count. |
| Sources.SortPermutes | pyquil/api/_qpu.py:99 | Sorting by offset is a permutation of the lanes. |
| Sources.SortedDistinct | pyquil/api/_qpu.py:99 | Sorting distinct lanes keeps them distinct. |
| Regions.Blank | pyquil/api/_qpu.py:69 | A freshly allocated region has the requested storage type and a (shots, length) shape, with every cell unwritten. |
| Regions.StrideCountIndex | pyquil/api/_qpu.py:113 | Row `i + s*step` exists in a buffer of `n` rows exactly when `s` is below the row count of the slice `buf[i::step]`. |
| Regions.LaneRowsExist | pyquil/api/_qpu.py:113 | For a lane numpy accepts, every shot row reads a buffer row that exists. |
| Regions.WriteLane | pyquil/api/_qpu.py:113 | The column-slice assignment puts, in every shot row, the lane's buffer row into columns [offset, offset+width). Every other cell is unchanged, and so is the shape. |
| Regions.PlaceLanes | pyquil/api/_qpu.py:106-113 | Placing a lane set keeps the region's storage type and shape. |
| Regions.FillLaneSets | pyquil/api/_qpu.py:96-113 | Filling a region from its lane sets keeps its storage type and shape. |
| RegionLemmas.PlaceLanesSucceeds | pyquil/api/_qpu.py:106-113 | A lane set is placed without error exactly when every lane fits inside the region and numpy can broadcast its rows. |
| RegionLemmas.PlaceLanesOverflow | pyquil/api/_qpu.py:107-112 | The first lane that runs past the region raises the overflow error. The error carries that lane's offset, its end and the declared length, so the region is never truncated. |
| RegionLemmas.PlaceLanesFrame | pyquil/api/_qpu.py:113 | Placing lanes leaves unchanged every column that none of them covers. |
| RegionLemmas.PlaceLanesHit | pyquil/api/_qpu.py:106-113 | A column written by lane `i0` and by no later lane holds, in shot row `s`, the buffer row lane `i0` reads for that shot. |
| RegionLemmas.FillLaneSetsSucceeds | pyquil/api/_qpu.py:96-113 | A region fills without error exactly when every lane set has a buffer and every lane of it fits. |
| RegionLemmas.SortedLaneMember | pyquil/api/_qpu.py:99 | Every lane of the sorted order is a lane of the set. |
| RegionLemmas.FillLaneSetsFrame | pyquil/api/_qpu.py:96-113 | Filling a region leaves unchanged every column that no lane of any set covers. |
| RegionLemmas.FillLaneSetsHit | pyquil/api/_qpu.py:96-113 | A column written last by lane `i0` of set `j0` holds that lane's buffer row once all sets are placed. |
| RegionLemmas.FillLaneSetsStep | pyquil/api/_qpu.py:100-113 | A successful fill has a buffer for its first set. It is that set's placement followed by the fill of the remaining sets. |
| RegionLemmas.FillRegionsKeeps | pyquil/api/_qpu.py:93-94 | A region already built is never replaced by a later region of another name. |
| RegionLemmas.FillRegionsKeys | pyquil/api/_qpu.py:93-94 | The region loop adds exactly one entry per remaining descriptor name. |
| RegionLemmas.FillRegionsRegion | pyquil/api/_qpu.py:93-113 | In a successful loop, each descriptor has a known element type. Its region is the fill of a blank region of that type and length. |
| ExtractProperties.ShotCountFromSources | pyquil/api/_qpu.py:89-91 | The shot count equals the row count of the buffer of the first region's earliest readout source, divided by the number of lanes that region reads from that buffer. It fails when there is no region or no such source. |
| ExtractProperties.ExtractNoShotSource | pyquil/api/_qpu.py:89-90 | With no declared region, or no readout source for the first region, the extraction fails where `next` does. |
| ExtractProperties.ExtractUnknownType | pyquil/api/_qpu.py:62-71 | Once the shot count is known, a first region whose type is not BIT, INTEGER, REAL or FLOAT raises the unexpected-memory-type error naming that type. |
| ExtractProperties.ExtractIgnoresStale | pyquil/api/_qpu.py:77-83 | Readout sources naming undeclared regions do not change the outcome of the extraction. |
| ExtractProperties.ExtractShape | pyquil/api/_qpu.py:62-94 | A successful extraction returns exactly one region per declared name. Each region has its declared storage type and length, and one row per shot of the derived shot count. |
| ExtractProperties.RegionOfExtract | pyquil/api/_qpu.py:93-113 | The region of a descriptor in a successful extraction is the fill of a blank region with its lane sets. |
| ExtractProperties.LaneOfSource | pyquil/api/_qpu.py:77-99 | Every readout source of a region is a lane, in sorted order, of the lane set of its own buffer key. |
| ExtractProperties.ExtractFits | pyquil/api/_qpu.py:105-112 | In a successful extraction, every readout source of a region has its buffer, and `offset + width` stays within the declared length. |
| ExtractProperties.ExtractUnwritten | pyquil/api/_qpu.py:69 | A column that no readout source of the region covers stays unwritten. |
| ExtractProperties.StrideExact | pyquil/api/_qpu.py:113 | A buffer of `shots*L` rows read at stride `L` from lane `i < L` yields exactly `shots` rows. |
| ExtractProperties.ExtractPlacement | pyquil/api/_qpu.py:97-113 | Let a buffer hold `shots*L` rows for the `L` lanes a region reads from it. Then shot row `s`, at column `offset_i + c`, holds column `c` of buffer row `i + s*L`, where `i` is the lane's sorted index. |
| ExtractProperties.PlacementInFill | pyquil/api/_qpu.py:96-113 | The same placement, stated for the fill of one region. |
| ExtractProperties.KeyedSet | pyquil/api/_qpu.py:77-96 | A region that reads a buffer has a lane set for that key, holding exactly those lanes. |
| ExtractProperties.FullStride | pyquil/api/_qpu.py:113 | A buffer of `shots*L` rows is copied row for row, at stride `L`, never broadcast. |
| ExtractProperties.SourceOfLane | pyquil/api/_qpu.py:77-99 | Every sorted lane comes from a readout source mapping it to the set's key. |
| ExtractProperties.SameSetMisses | pyquil/api/_qpu.py:99-113 | Later lanes of the same sorted set never overwrite a column this lane writes. |
| ExtractProperties.LaterSetsMiss | pyquil/api/_qpu.py:96-113 | Lanes of later sets never overwrite a column this lane writes. |
| ExtractProperties.HitCell | pyquil/api/_qpu.py:96-113 | A cell written last by a lane read at full stride holds that lane's buffer row for the shot. |
| Readout.IntegerPlacement | pyquil/api/_qpu.py:100-113 | For an integer buffer of `shots*L` samples, shot `s` of the region holds sample `i + s*L` at lane `i`'s offset. |
| Readout.RealPlacement | pyquil/api/_qpu.py:100-113 | For a complex buffer, shot `s` holds the real part of sample `i + s*L` at lane `i`'s offset. |
| Readout.ImagPlacement | pyquil/api/_qpu.py:100-113 | For a complex buffer, shot `s` holds the imaginary part of sample `i + s*L` one column after lane `i`'s offset. |
| Readout.ComplexPlacement | pyquil/api/_qpu.py:100-113 | For a complex buffer, both parts of sample `i + s*L` sit side by side at lane `i`'s offset in shot `s`. |
| Extractor.Alloc | pyquil/api/_qpu.py:61-71 | An unknown element type fails exactly with the unexpected-memory-type error. Otherwise the result is a fresh (shots, length) array of the mapped storage type. |
| Extractor.CopyLane | pyquil/api/_qpu.py:113 | The nested loop writes the lane's rows into columns [offset, offset+width) of every shot row. Every other cell of the array is unchanged. |
| Extractor.PlaceLaneSet | pyquil/api/_qpu.py:106-113 | Placing a lane set in place raises the same error as `PlaceLanes`, or leaves the array holding the region `PlaceLanes` computes. |
| Extractor.FillRegion | pyquil/api/_qpu.py:96-113 | Filling a region in place raises the same error as `FillLaneSets`, or leaves the array holding the region it computes. |
| Extractor.BuildRegion | pyquil/api/_qpu.py:93-113 | Allocating and filling one region gives the same outcome as the model of that loop iteration, in a fresh array. |
| Extractor.ExtractMemoryRegions | pyquil/api/_qpu.py:56-115 | The method fails exactly when `Extract` does, with the same error. Otherwise it returns one fresh array per declared region, no two shared, holding every cell `Extract` writes. |
| Qpu.DecodeAll | pyquil/api/_qpu.py:222 | Every returned buffer is decoded under its own key, and no other key appears. |
| Qpu.NoBuffersResult | pyquil/api/_qpu.py:231-232 | Without buffers nothing raises. A program with no readout sources gets the single empty int64 region "ro", and any other program gets an empty map. |
| Qpu.BuffersResultShape | pyquil/api/_qpu.py:224-230 | With buffers, a successful result holds exactly the declared regions. Each has its declared type and length, and one row per shot of the derived shot count. |
| Qpu.ResultIsExtract | pyquil/api/_qpu.py:225-230 | With at least one buffer, the result memory is exactly what the extraction returns. |
| Qpu.ReadoutIntegers | pyquil/api/_qpu.py:221-232 | End to end for an "integer" buffer carrying `L` samples per shot: shot `s` of the region holds the decoded sample `i + s*L` at the offset of its `i`-th lane. |
| Qpu.ReadoutComplex | pyquil/api/_qpu.py:221-232 | End to end for a "complex" buffer: shot `s` holds the real and imaginary parts of decoded sample `i + s*L` at lane `i`'s offset and the column after. |
| Qpu.GetResultMemory | pyquil/api/_qpu.py:221-232 | The assembly raises exactly when the result-memory function does, with the same error. Otherwise it returns fresh, unshared arrays that realise the regions that function describes. |
| Qpu.CopyRegions | pyquil/api/_qpu.py:229-230 | Copying the extracted regions one by one yields the same dictionary. |

## Left out

- Network and client glue is not modelled: `QPU.__init__`, `execute`, `submit`, `retrieve_results` and the execution options (pyquil/api/_qpu.py:126-207, 214-219). They only call into the execution service.
- `QPUExecuteResponse` (lines 118-122) is a plain record with no behaviour.
- The byte decoders `to_complex32` and `to_i32` (lines 50 and 52) belong to the execution service. They are function parameters of the model.
- Floating point and storage widths are not modelled. Sample values are abstract integers. The casts to complex64, int32, int64 and float64 are not modelled, and neither is the conversion that happens when a value is stored in an int64 or float64 region.
- Numpy arrays of more than two dimensions are not modelled. The decoder only produces 1-D arrays.
- The error messages' text is not modelled. Each error is a constructor carrying the values the message names.
- A region's unwritten cells are uninitialised memory from `np.ndarray` (line 69). The model marks them as unwritten and says nothing about their contents.
- The iteration order of the result dictionary is not modelled. The result is a map.
- The `ro_sources` of `get_result` are modelled as a dictionary only. `execute` never lets them be `None`.
- The numpy broadcast at line 113 is modelled as numpy performs it:
  - a slice with as many rows as there are shots is copied row for row;
  - a slice of one row is broadcast to every shot;
  - any other row count raises the `BroadcastMismatch` error.
- The shot count is not cross-checked between lane sets (lines 89-91), and the model does not check it either. The lemmas that state where a sample lands assume the buffer holds exactly `shots*L` rows.
- Ties between equal offsets in the sort at line 99 are not modelled: the model's sort is stable. Lanes of one set name one region and are distinct references, so their offsets never tie.
- ExtractProperties.ExtractPlacement: it requires the region's sources not to overlap, and the buffer to hold `shots*L` rows. Where lanes overlap, the source lets later lanes overwrite earlier ones; the model leaves that order unstated.
- Readout.IntegerPlacement: it carries the same non-overlap and row-count conditions as ExtractPlacement.
- Readout.RealPlacement: it carries the same non-overlap and row-count conditions as ExtractPlacement.
- Readout.ImagPlacement: it carries the same non-overlap and row-count conditions as ExtractPlacement.
- Readout.ComplexPlacement: it carries the same non-overlap and row-count conditions as ExtractPlacement.
- Qpu.ReadoutIntegers: it carries the same non-overlap and row-count conditions as ExtractPlacement.
- Qpu.ReadoutComplex: it carries the same non-overlap and row-count conditions as ExtractPlacement.
