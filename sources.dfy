/**
 * Readout sources and lane sets: the first stage of _extract_memory_regions,
 * which drops sources naming undeclared regions and groups the rest, per
 * region, by the key of the buffer that holds their data. Each group is a
 * lane set: the memory references that share one buffer. Also the ordering
 * of a lane set by offset.
 */
module Sources {
  import opened Wrappers

  /** One slot of a memory region: `name[offset]`. */
  datatype MemoryReference = MemoryReference(name: string, offset: nat)

  /**
   * The readout-source dictionary, in its iteration order: each entry is a
   * memory reference and the key of the buffer holding its data.
   */
  type ReadoutSources = seq<(MemoryReference, string)>

  /** The references that share the buffer `key`, in the order they were added. */
  datatype LaneSet = LaneSet(key: string, lanes: seq<MemoryReference>)

  /**
   * The `sources` dictionary: for each declared region, its lane sets in
   * the insertion order of their buffer keys.
   */
  type Groups = map<string, seq<LaneSet>>

  /** A dictionary never holds the same memory reference twice. */
  predicate DistinctRefs(ro: ReadoutSources) {
    forall i, j :: 0 <= i < j < |ro| ==> ro[i].0 != ro[j].0
  }

  predicate HasKey(sets: seq<LaneSet>, key: string) {
    exists j :: 0 <= j < |sets| && sets[j].key == key
  }

  /** Lane sets as a defaultdict(list) holds them: no empty list, no key twice. */
  predicate WellGrouped(sets: seq<LaneSet>) {
    && (forall j :: 0 <= j < |sets| ==> |sets[j].lanes| > 0)
    && (forall i, j :: 0 <= i < j < |sets| ==> sets[i].key != sets[j].key)
  }

  /** `sources[name][key].append(mref)` on the lane sets of one region. */
  function AppendLane(sets: seq<LaneSet>, key: string, mref: MemoryReference): (r: seq<LaneSet>)
    requires WellGrouped(sets)
    ensures HasKey(sets, key) ==> |r| == |sets|
    ensures HasKey(sets, key) ==> forall j :: 0 <= j < |sets| ==>
      r[j] == if sets[j].key == key then LaneSet(key, sets[j].lanes + [mref]) else sets[j]
    ensures !HasKey(sets, key) ==> r == sets + [LaneSet(key, [mref])]
    ensures WellGrouped(r)
  {
    if |sets| == 0 then [LaneSet(key, [mref])]
    else if sets[0].key == key then [LaneSet(key, sets[0].lanes + [mref])] + sets[1..]
    else
      var rest := AppendLane(sets[1..], key, mref);
      AppendLaneCons(sets, key, mref, rest);
      [sets[0]] + rest
  }

  /** The step of AppendLane past a lane set of another key. */
  lemma AppendLaneCons(sets: seq<LaneSet>, key: string, mref: MemoryReference, rest: seq<LaneSet>)
    requires WellGrouped(sets) && |sets| > 0 && sets[0].key != key
    requires HasKey(sets[1..], key) ==> |rest| == |sets[1..]|
    requires HasKey(sets[1..], key) ==> forall j :: 0 <= j < |sets[1..]| ==>
      rest[j] == if sets[1..][j].key == key then LaneSet(key, sets[1..][j].lanes + [mref]) else sets[1..][j]
    requires !HasKey(sets[1..], key) ==> rest == sets[1..] + [LaneSet(key, [mref])]
    requires WellGrouped(rest)
    ensures HasKey(sets, key) ==> |[sets[0]] + rest| == |sets|
    ensures HasKey(sets, key) ==> forall j :: 0 <= j < |sets| ==>
      ([sets[0]] + rest)[j] == if sets[j].key == key then LaneSet(key, sets[j].lanes + [mref]) else sets[j]
    ensures !HasKey(sets, key) ==> [sets[0]] + rest == sets + [LaneSet(key, [mref])]
    ensures WellGrouped([sets[0]] + rest)
  {
    var tail := sets[1..];
    var r := [sets[0]] + rest;
    assert HasKey(sets, key) == HasKey(tail, key) by {
      if HasKey(sets, key) {
        var j :| 0 <= j < |sets| && sets[j].key == key;
        assert tail[j - 1].key == key;
      }
      if HasKey(tail, key) {
        var j :| 0 <= j < |tail| && tail[j].key == key;
        assert sets[j + 1].key == key;
      }
    }
    forall j | 0 <= j < |rest| ensures rest[j].key != sets[0].key {
      if j < |tail| {
        assert rest[j].key == tail[j].key == sets[j + 1].key;
      }
    }
    ConsGrouped(sets[0], rest);
    if HasKey(tail, key) {
      forall j | 0 <= j < |sets|
        ensures r[j] == if sets[j].key == key then LaneSet(key, sets[j].lanes + [mref]) else sets[j]
      {
        if 0 < j {
          assert r[j] == rest[j - 1] && sets[j] == tail[j - 1];
        }
      }
    } else {
      assert sets == [sets[0]] + tail;
    }
  }

  /** A lane set put in front of well-grouped sets with other keys keeps them well grouped. */
  lemma ConsGrouped(head: LaneSet, rest: seq<LaneSet>)
    requires |head.lanes| > 0 && WellGrouped(rest)
    requires forall j :: 0 <= j < |rest| ==> rest[j].key != head.key
    ensures WellGrouped([head] + rest)
  {
    var r := [head] + rest;
    forall i, j | 0 <= i < j < |r| ensures r[i].key != r[j].key {
      assert r[j] == rest[j - 1];
      if 0 < i {
        assert r[i] == rest[i - 1];
      }
    }
  }

  /** One iteration of the grouping loop: an undeclared region's source is skipped. */
  function AddSource(groups: Groups, mref: MemoryReference, key: string): (r: Groups)
    requires forall n :: n in groups ==> WellGrouped(groups[n])
    ensures r.Keys == groups.Keys && forall n :: n in r ==> WellGrouped(r[n])
    ensures mref.name !in groups ==> r == groups
    ensures forall n :: n in groups && n != mref.name ==> r[n] == groups[n]
    ensures mref.name in groups ==> r[mref.name] == AppendLane(groups[mref.name], key, mref)
  {
    if mref.name !in groups then groups
    else groups[mref.name := AppendLane(groups[mref.name], key, mref)]
  }

  /**
   * The grouping of lines 77-83: start with an empty lane-set list for every
   * declared region and add the readout sources one by one, in order.
   */
  function Group(names: set<string>, ro: ReadoutSources): (groups: Groups)
    ensures groups.Keys == names
    ensures forall n :: n in groups ==> WellGrouped(groups[n])
    decreases |ro|
  {
    if |ro| == 0 then map n | n in names :: []
    else
      var last := ro[|ro| - 1];
      AddSource(Group(names, ro[..|ro| - 1]), last.0, last.1)
  }

  /** Lines 77-83 as the loop the source runs. */
  method GroupSources(names: set<string>, ro: ReadoutSources) returns (sources: Groups)
    ensures sources == Group(names, ro)
  {
    sources := map n | n in names :: [];
    for k := 0 to |ro|
      invariant sources == Group(names, ro[..k])
    {
      var (mref, key) := ro[k];
      assert ro[..k + 1][..k] == ro[..k];
      if mref.name !in sources {
        continue;
      }
      sources := sources[mref.name := AppendLane(sources[mref.name], key, mref)];
    }
    assert ro[..|ro|] == ro;
  }

  // ---------------------------------------------------------------------
  // An independent description of the grouping, entry by entry.
  // ---------------------------------------------------------------------

  /** The references of region `n` whose data is in buffer `key`, in source order. */
  function LanesOf(ro: ReadoutSources, n: string, key: string): seq<MemoryReference>
    decreases |ro|
  {
    if |ro| == 0 then []
    else
      var last := ro[|ro| - 1];
      LanesOf(ro[..|ro| - 1], n, key) + (if last.0.name == n && last.1 == key then [last.0] else [])
  }

  /** The buffer keys feeding region `n`, each once, in order of first appearance. */
  function KeyOrder(ro: ReadoutSources, n: string): seq<string>
    decreases |ro|
  {
    if |ro| == 0 then []
    else
      var last := ro[|ro| - 1];
      var keys := KeyOrder(ro[..|ro| - 1], n);
      keys + (if last.0.name == n && last.1 !in keys then [last.1] else [])
  }

  /** The readout sources that name a declared region, in order. */
  function Declared(names: set<string>, ro: ReadoutSources): (d: ReadoutSources)
    ensures |d| <= |ro|
    decreases |ro|
  {
    if |ro| == 0 then []
    else
      var last := ro[|ro| - 1];
      Declared(names, ro[..|ro| - 1]) + (if last.0.name in names then [last] else [])
  }

  /** The lane sets of region `n` are exactly those `KeyOrder` and `LanesOf` describe. */
  ghost predicate Describes(sets: seq<LaneSet>, ro: ReadoutSources, n: string) {
    var keys := KeyOrder(ro, n);
    && |sets| == |keys|
    && forall j :: 0 <= j < |sets| ==>
         sets[j].key == keys[j] && sets[j].lanes == LanesOf(ro, n, keys[j])
  }

  /** A key that never fed region `n` has no lanes there. */
  lemma {:induction false} NoLanesWithoutKey(ro: ReadoutSources, n: string, key: string)
    requires key !in KeyOrder(ro, n)
    ensures LanesOf(ro, n, key) == []
    decreases |ro|
  {
    if |ro| > 0 {
      NoLanesWithoutKey(ro[..|ro| - 1], n, key);
    }
  }

  /**
   * Grouping is exact: the lane sets of a declared region follow the order in
   * which their buffer keys first appear, and each holds every reference of
   * that region read from that buffer, in source order, and nothing else.
   */
  lemma {:induction false} GroupExact(names: set<string>, ro: ReadoutSources, n: string)
    requires n in names
    ensures Describes(Group(names, ro)[n], ro, n)
    decreases |ro|
  {
    if |ro| > 0 {
      var init := ro[..|ro| - 1];
      GroupExact(names, init, n);
      var (m, k) := ro[|ro| - 1];
      var before := Group(names, init)[n];
      if m.name != n {
        assert Group(names, ro)[n] == before;
        DescribesOtherRegion(before, ro, n);
      } else if k in KeyOrder(init, n) {
        var i :| 0 <= i < |KeyOrder(init, n)| && KeyOrder(init, n)[i] == k;
        assert before[i].key == k;
        DescribesKnownKey(before, ro, n);
      } else {
        NoLanesWithoutKey(init, n, k);
        DescribesNewKey(before, ro, n);
      }
    }
  }

  /** Step of GroupExact: a source of another region changes nothing for `n`. */
  lemma DescribesOtherRegion(sets: seq<LaneSet>, ro: ReadoutSources, n: string)
    requires |ro| > 0 && ro[|ro| - 1].0.name != n
    requires Describes(sets, ro[..|ro| - 1], n)
    ensures Describes(sets, ro, n)
  {
    var init := ro[..|ro| - 1];
    var keys := KeyOrder(init, n);
    assert KeyOrder(ro, n) == keys;
    forall j | 0 <= j < |sets| ensures sets[j].lanes == LanesOf(ro, n, keys[j]) {
      assert LanesOf(ro, n, keys[j]) == LanesOf(init, n, keys[j]);
    }
  }

  /** Step of GroupExact: a source of `n` read from a buffer already seen joins that lane set. */
  lemma DescribesKnownKey(sets: seq<LaneSet>, ro: ReadoutSources, n: string)
    requires |ro| > 0 && ro[|ro| - 1].0.name == n
    requires WellGrouped(sets) && HasKey(sets, ro[|ro| - 1].1)
    requires Describes(sets, ro[..|ro| - 1], n)
    ensures Describes(AppendLane(sets, ro[|ro| - 1].1, ro[|ro| - 1].0), ro, n)
  {
    var init := ro[..|ro| - 1];
    var (m, k) := ro[|ro| - 1];
    var keys := KeyOrder(init, n);
    var after := AppendLane(sets, k, m);
    assert k in keys;
    assert KeyOrder(ro, n) == keys;
    forall j | 0 <= j < |after| ensures after[j].key == keys[j] && after[j].lanes == LanesOf(ro, n, keys[j]) {
      if keys[j] == k {
        assert LanesOf(ro, n, k) == LanesOf(init, n, k) + [m];
      } else {
        assert LanesOf(ro, n, keys[j]) == LanesOf(init, n, keys[j]);
      }
    }
  }

  /** Step of GroupExact: a source of `n` read from a new buffer opens a new lane set. */
  lemma DescribesNewKey(sets: seq<LaneSet>, ro: ReadoutSources, n: string)
    requires |ro| > 0 && ro[|ro| - 1].0.name == n
    requires WellGrouped(sets) && ro[|ro| - 1].1 !in KeyOrder(ro[..|ro| - 1], n)
    requires LanesOf(ro[..|ro| - 1], n, ro[|ro| - 1].1) == []
    requires Describes(sets, ro[..|ro| - 1], n)
    ensures Describes(AppendLane(sets, ro[|ro| - 1].1, ro[|ro| - 1].0), ro, n)
  {
    var init := ro[..|ro| - 1];
    var (m, k) := ro[|ro| - 1];
    var keys := KeyOrder(init, n);
    assert !HasKey(sets, k);
    var after := AppendLane(sets, k, m);
    assert after == sets + [LaneSet(k, [m])];
    assert KeyOrder(ro, n) == keys + [k];
    forall j | 0 <= j < |after|
      ensures after[j].key == (keys + [k])[j] && after[j].lanes == LanesOf(ro, n, (keys + [k])[j])
    {
      if j < |sets| {
        assert keys[j] != k;
        assert LanesOf(ro, n, keys[j]) == LanesOf(init, n, keys[j]);
      } else {
        assert LanesOf(ro, n, k) == [] + [m];
      }
    }
  }

  /** The keys feeding region `n` are the keys of the sources naming `n`. */
  lemma {:induction false} KeyOrderMembers(ro: ReadoutSources, n: string, key: string)
    ensures key in KeyOrder(ro, n) <==> exists k :: 0 <= k < |ro| && ro[k].0.name == n && ro[k].1 == key
    decreases |ro|
  {
    if |ro| > 0 {
      var init := ro[..|ro| - 1];
      KeyOrderMembers(init, n, key);
      if key in KeyOrder(init, n) {
        var k :| 0 <= k < |init| && init[k].0.name == n && init[k].1 == key;
        assert ro[k] == init[k];
      }
      if exists k :: 0 <= k < |ro| && ro[k].0.name == n && ro[k].1 == key {
        var k :| 0 <= k < |ro| && ro[k].0.name == n && ro[k].1 == key;
        if k < |ro| - 1 {
          assert init[k] == ro[k];
        }
      }
    }
  }

  /**
   * The first lane set of a region (`next(iter(sources[name]))`) is keyed by
   * the buffer of the earliest readout source naming that region.
   */
  lemma {:induction false} FirstKey(ro: ReadoutSources, n: string, k: nat)
    requires k < |ro| && ro[k].0.name == n
    requires forall i :: 0 <= i < k ==> ro[i].0.name != n
    ensures |KeyOrder(ro, n)| > 0 && KeyOrder(ro, n)[0] == ro[k].1
    decreases |ro|
  {
    var init := ro[..|ro| - 1];
    if k == |ro| - 1 {
      NoKeysYet(init, n);
    } else {
      FirstKey(init, n, k);
    }
  }

  lemma {:induction false} NoKeysYet(ro: ReadoutSources, n: string)
    requires forall i :: 0 <= i < |ro| ==> ro[i].0.name != n
    ensures KeyOrder(ro, n) == []
    decreases |ro|
  {
    if |ro| > 0 {
      NoKeysYet(ro[..|ro| - 1], n);
    }
  }

  /**
   * Stale sources are ignored: grouping all readout sources gives the same
   * lane sets as grouping only those that name a declared region.
   */
  lemma {:induction false} GroupIgnoresStale(names: set<string>, ro: ReadoutSources)
    ensures Group(names, ro) == Group(names, Declared(names, ro))
    decreases |ro|
  {
    if |ro| > 0 {
      var init := ro[..|ro| - 1];
      var last := ro[|ro| - 1];
      GroupIgnoresStale(names, init);
      var d := Declared(names, init);
      if last.0.name in names {
        assert Declared(names, ro) == d + [last];
        assert (d + [last])[..|d|] == d;
        calc {
          Group(names, Declared(names, ro));
          Group(names, d + [last]);
          AddSource(Group(names, d), last.0, last.1);
          AddSource(Group(names, init), last.0, last.1);
          Group(names, ro);
        }
      } else {
        assert Declared(names, ro) == d;
        assert Group(names, ro) == Group(names, init);
      }
    }
  }

  /** A reference is among the lanes of (`n`, `key`) exactly when a source maps it to `key`. */
  lemma {:induction false} LanesOfMember(ro: ReadoutSources, n: string, key: string, x: MemoryReference)
    ensures x in LanesOf(ro, n, key) <==> x.name == n && exists a :: 0 <= a < |ro| && ro[a] == (x, key)
    decreases |ro|
  {
    if |ro| > 0 {
      var init := ro[..|ro| - 1];
      LanesOfMember(init, n, key, x);
      if exists a :: 0 <= a < |init| && init[a] == (x, key) {
        var a :| 0 <= a < |init| && init[a] == (x, key);
        assert ro[a] == init[a];
      }
      if exists a :: 0 <= a < |ro| && ro[a] == (x, key) {
        var a :| 0 <= a < |ro| && ro[a] == (x, key);
        if a < |ro| - 1 {
          assert init[a] == ro[a];
        }
      }
    }
  }

  /** The lane set a source belongs to is never empty. */
  lemma SourceHasLane(ro: ReadoutSources, a: nat)
    requires a < |ro|
    ensures |LanesOf(ro, ro[a].0.name, ro[a].1)| > 0
  {
    LanesOfMember(ro, ro[a].0.name, ro[a].1, ro[a].0);
    assert ro[a] == (ro[a].0, ro[a].1);
  }

  predicate NoDuplicates<T(==)>(s: seq<T>) {
    forall p, q :: 0 <= p < q < |s| ==> s[p] != s[q]
  }

  /** Distinct readout sources give lane sets without a repeated reference. */
  lemma {:induction false} LanesOfDistinct(ro: ReadoutSources, n: string, key: string)
    requires DistinctRefs(ro)
    ensures NoDuplicates(LanesOf(ro, n, key))
    decreases |ro|
  {
    if |ro| > 0 {
      var init := ro[..|ro| - 1];
      var last := ro[|ro| - 1];
      assert DistinctRefs(init);
      LanesOfDistinct(init, n, key);
      LanesOfMember(init, n, key, last.0);
      forall a | 0 <= a < |init| ensures init[a].0 != last.0 {
        assert init[a] == ro[a];
      }
    }
  }

  /** The index of the earliest readout source naming region `n`, if any. */
  function FirstSourceOf(ro: ReadoutSources, n: string): (r: Option<nat>)
    ensures r.Some? ==> r.value < |ro| && ro[r.value].0.name == n &&
                        forall b :: 0 <= b < r.value ==> ro[b].0.name != n
    ensures r.None? ==> forall a :: 0 <= a < |ro| ==> ro[a].0.name != n
    decreases |ro|
  {
    if |ro| == 0 then None
    else
      var init := ro[..|ro| - 1];
      match FirstSourceOf(init, n)
      case Some(a) => Some(a)
      case None => if ro[|ro| - 1].0.name == n then Some(|ro| - 1) else None
  }

  /** Every source naming a declared region lands in the lane set of its buffer key. */
  lemma EntryInGroup(names: set<string>, ro: ReadoutSources, a: nat)
    requires a < |ro| && ro[a].0.name in names
    ensures var sets := Group(names, ro)[ro[a].0.name];
      exists j :: 0 <= j < |sets| && sets[j].key == ro[a].1 && ro[a].0 in sets[j].lanes
  {
    var (x, key) := ro[a];
    var n := x.name;
    var sets := Group(names, ro)[n];
    GroupExact(names, ro, n);
    KeyOrderMembers(ro, n, key);
    assert ro[a].0.name == n && ro[a].1 == key;
    var keys := KeyOrder(ro, n);
    assert key in keys;
    var j :| 0 <= j < |keys| && keys[j] == key;
    LanesOfMember(ro, n, key, x);
    assert ro[a] == (x, key);
    assert 0 <= j < |sets| && sets[j].key == ro[a].1 && ro[a].0 in sets[j].lanes;
    assert sets == Group(names, ro)[ro[a].0.name];
    assert exists j :: 0 <= j < |sets| && sets[j].key == ro[a].1 && ro[a].0 in sets[j].lanes;
  }

  /** Every lane of a lane set comes from a source of that region mapped to that set's key. */
  lemma GroupLaneFromEntry(names: set<string>, ro: ReadoutSources, n: string, j: nat, x: MemoryReference)
    requires n in names
    requires j < |Group(names, ro)[n]| && x in Group(names, ro)[n][j].lanes
    ensures x.name == n && exists a :: 0 <= a < |ro| && ro[a] == (x, Group(names, ro)[n][j].key)
  {
    GroupExact(names, ro, n);
    LanesOfMember(ro, n, Group(names, ro)[n][j].key, x);
  }

  // ---------------------------------------------------------------------
  // Ordering a lane set by offset (`sorted(zip(offsets, mref_list))`).
  // ---------------------------------------------------------------------

  predicate SortedByOffset(lanes: seq<MemoryReference>) {
    forall i, j :: 0 <= i < j < |lanes| ==> lanes[i].offset <= lanes[j].offset
  }

  function InsertByOffset(m: MemoryReference, sorted: seq<MemoryReference>): (r: seq<MemoryReference>)
    requires SortedByOffset(sorted)
    ensures SortedByOffset(r) && |r| == |sorted| + 1
    ensures forall k :: 0 <= k < |r| ==> r[k] == m || r[k] in sorted
  {
    if |sorted| == 0 then [m]
    else if m.offset <= sorted[0].offset then [m] + sorted
    else
      var rest := InsertByOffset(m, sorted[1..]);
      assert forall k :: 0 <= k < |rest| ==> sorted[0].offset <= rest[k].offset by {
        forall k | 0 <= k < |rest| ensures sorted[0].offset <= rest[k].offset {
          if rest[k] != m {
            var q :| 0 <= q < |sorted[1..]| && sorted[1..][q] == rest[k];
            assert sorted[q + 1] == rest[k];
          }
        }
      }
      [sorted[0]] + rest
  }

  lemma {:induction false} InsertPermutes(m: MemoryReference, sorted: seq<MemoryReference>)
    requires SortedByOffset(sorted)
    ensures multiset(InsertByOffset(m, sorted)) == multiset(sorted) + multiset{m}
    decreases |sorted|
  {
    if |sorted| > 0 && m.offset > sorted[0].offset {
      InsertPermutes(m, sorted[1..]);
      assert sorted == [sorted[0]] + sorted[1..];
    }
  }

  /**
   * The lanes of a set in ascending offset order (a permutation, by
   * SortPermutes). Lanes of one set name one region and are distinct, so
   * their offsets are distinct and this order is the only sorted one.
   */
  function SortByOffset(lanes: seq<MemoryReference>): (r: seq<MemoryReference>)
    ensures SortedByOffset(r) && |r| == |lanes|
  {
    if |lanes| == 0 then []
    else InsertByOffset(lanes[0], SortByOffset(lanes[1..]))
  }

  /** Sorting by offset only reorders the lanes. */
  lemma {:induction false} SortPermutes(lanes: seq<MemoryReference>)
    ensures multiset(SortByOffset(lanes)) == multiset(lanes)
    decreases |lanes|
  {
    if |lanes| > 0 {
      SortPermutes(lanes[1..]);
      InsertPermutes(lanes[0], SortByOffset(lanes[1..]));
      assert lanes == [lanes[0]] + lanes[1..];
    }
  }

  /** Sorting keeps the lanes distinct. */
  lemma SortedDistinct(lanes: seq<MemoryReference>)
    requires NoDuplicates(lanes)
    ensures NoDuplicates(SortByOffset(lanes))
  {
    var sorted := SortByOffset(lanes);
    SortPermutes(lanes);
    forall p, q | 0 <= p < q < |sorted| ensures sorted[p] != sorted[q] {
      AtMostOnce(lanes, sorted[p]);
      if sorted[p] == sorted[q] {
        TwiceCounted(sorted, p, q);
        assert false;
      }
    }
  }

  lemma {:induction false} AtMostOnce<T>(s: seq<T>, x: T)
    requires NoDuplicates(s)
    ensures multiset(s)[x] <= 1
    decreases |s|
  {
    if |s| > 0 {
      assert s == [s[0]] + s[1..];
      AtMostOnce(s[1..], x);
      if s[0] == x {
        assert x !in s[1..];
      }
    }
  }

  lemma TwiceCounted<T>(s: seq<T>, p: nat, q: nat)
    requires p < q < |s| && s[p] == s[q]
    ensures multiset(s)[s[p]] >= 2
  {
    assert s == s[..q] + [s[q]] + s[q + 1..];
    assert s[p] in s[..q];
  }
}
