/**
 Splitting a global selector over files. A part is one file and a file-local selector;
 the parts of a selector, shifted by their files' row offsets and concatenated in file
 order, are exactly the global rows, in the global order.
 */
module Decompose {
  import opened Sequences
  import opened MagicDivide
  import opened MaskKernel
  import opened Selectors

  datatype Part = Part(file: nat, sub: Selector)

  predicate ValidPart(p: Part, lengths: seq<nat>) {
    p.file < |lengths| && ValidSelector(p.sub, lengths[p.file]) && !BackwardRange(p.sub, lengths[p.file])
  }

  predicate ValidParts(parts: seq<Part>, lengths: seq<nat>) {
    forall k :: 0 <= k < |parts| ==> ValidPart(parts[k], lengths)
  }

  /** The global rows of one part. */
  function PartRows(p: Part, offsets: seq<int>, lengths: seq<nat>): seq<int>
    requires ValidPart(p, lengths) && |offsets| == |lengths| + 1
  {
    Shift(Rows(p.sub, lengths[p.file]), offsets[p.file])
  }

  function AllRows(parts: seq<Part>, offsets: seq<int>, lengths: seq<nat>): seq<int>
    requires ValidParts(parts, lengths) && |offsets| == |lengths| + 1
  {
    if parts == [] then []
    else
      AllRows(parts[..|parts| - 1], offsets, lengths) + PartRows(parts[|parts| - 1], offsets, lengths)
  }

  lemma AllRowsAppend(parts: seq<Part>, p: Part, offsets: seq<int>, lengths: seq<nat>)
    requires ValidParts(parts, lengths) && ValidPart(p, lengths) && |offsets| == |lengths| + 1
    ensures ValidParts(parts + [p], lengths)
    ensures AllRows(parts + [p], offsets, lengths) == AllRows(parts, offsets, lengths) + PartRows(p, offsets, lengths)
  {
    assert (parts + [p])[..|parts + [p]| - 1] == parts;
  }

  /** One part's output length: a range size, a popcount, or a row count. */
  function PartLength(p: Part, lengths: seq<nat>): nat
    requires ValidPart(p, lengths)
  {
    |Rows(p.sub, lengths[p.file])|
  }

  // ---- the files a selector reaches ----

  /** Non-empty parts, at most one per file, in file order, all below file `f`. */
  predicate PartsAscend(parts: seq<Part>, lengths: seq<nat>, f: nat) {
    && (forall k :: 0 <= k < |parts| ==>
          parts[k].file < f && ValidPart(parts[k], lengths) && PartLength(parts[k], lengths) > 0)
    && forall j, k :: 0 <= j < k < |parts| ==> parts[j].file < parts[k].file
  }

  lemma PartsAscendNext(parts: seq<Part>, p: Part, lengths: seq<nat>, f: nat)
    requires PartsAscend(parts, lengths, f) && p.file == f && ValidPart(p, lengths) && PartLength(p, lengths) > 0
    ensures PartsAscend(parts + [p], lengths, f + 1)
  {
  }

  function PartFiles(parts: seq<Part>): seq<int> {
    seq(|parts|, k requires 0 <= k < |parts| => parts[k].file)
  }

  /** A non-empty part selects rows of its own file, and of no other. */
  lemma PartReaches(p: Part, offsets: seq<int>, lengths: seq<nat>, f: nat)
    requires PrefixSums(offsets, lengths) && ValidPart(p, lengths) && PartLength(p, lengths) > 0 && f < |lengths|
    ensures Reaches(PartRows(p, offsets, lengths), offsets[f], offsets[f + 1]) <==> p.file == f
  {
    var local := Rows(p.sub, lengths[p.file]);
    var rows := PartRows(p, offsets, lengths);
    RowsInRange(p.sub, lengths[p.file]);
    PrefixSumsSorted(offsets, lengths);
    assert offsets[p.file + 1] == offsets[p.file] + lengths[p.file];
    assert rows[0] == local[0] + offsets[p.file];
    forall i | 0 <= i < |rows| && offsets[f] <= rows[i] < offsets[f + 1] ensures p.file == f {
      assert 0 <= local[i] < lengths[p.file];
      SameWindow(offsets, lengths, p.file, f, rows[i]);
    }
  }

  lemma ReachesAppend(a: seq<int>, b: seq<int>, lo: int, hi: int)
    ensures Reaches(a + b, lo, hi) <==> Reaches(a, lo, hi) || Reaches(b, lo, hi)
  {
    forall i | 0 <= i < |a| ensures (a + b)[i] == a[i] {
    }
    forall i | 0 <= i < |b| ensures (a + b)[|a| + i] == b[i] {
    }
  }

  /** The files of the parts are exactly the files the selected rows lie in. */
  lemma {:induction false} PartsReach(parts: seq<Part>, offsets: seq<int>, lengths: seq<nat>, f: nat)
    requires PrefixSums(offsets, lengths) && ValidParts(parts, lengths) && f < |lengths|
    requires forall k :: 0 <= k < |parts| ==> PartLength(parts[k], lengths) > 0
    ensures f in PartFiles(parts) <==> Reaches(AllRows(parts, offsets, lengths), offsets[f], offsets[f + 1])
    decreases |parts|
  {
    if parts != [] {
      var n := |parts| - 1;
      PartsReach(parts[..n], offsets, lengths, f);
      PartReaches(parts[n], offsets, lengths, f);
      ReachesAppend(AllRows(parts[..n], offsets, lengths), PartRows(parts[n], offsets, lengths),
                    offsets[f], offsets[f + 1]);
      assert PartFiles(parts) == PartFiles(parts[..n]) + [parts[n].file];
    }
  }

  // ---- slices ----

  /** A local slice that `indices` of its own file leaves as it is. */
  predicate LocalSlice(p: Part, lengths: seq<nat>, step: int) {
    && ValidPart(p, lengths) && p.sub.Slice?
    && p.sub.start.Some? && p.sub.stop.Some? && p.sub.step == Some(step)
    && 0 <= p.sub.start.value < p.sub.stop.value <= lengths[p.file]
    && SliceIndices(p.sub, lengths[p.file]) == Indices(p.sub.start.value, p.sub.stop.value, step)
  }

  /** At most one local slice per file, in file order, all below file `f`. */
  predicate LocalParts(parts: seq<Part>, lengths: seq<nat>, step: int, f: nat) {
    && (forall k :: 0 <= k < |parts| ==> LocalSlice(parts[k], lengths, step) && parts[k].file < f)
    && forall j, k :: 0 <= j < k < |parts| ==> parts[j].file < parts[k].file
  }

  /**
   `_slice_parts`: the global step phase survives the split. `start`, `stop` and `step`
   are the global slice's `indices`.
   */
  method SliceParts(offsets: seq<int>, lengths: seq<nat>, start: int, stop: int, step: int)
    returns (parts: seq<Part>)
    requires PrefixSums(offsets, lengths)
    requires step >= 1 && 0 <= start <= offsets[|lengths|] && 0 <= stop <= offsets[|lengths|]
    ensures ValidParts(parts, lengths)
    ensures AllRows(parts, offsets, lengths) == Range(start, stop, step)
    ensures LocalParts(parts, lengths, step, |lengths|) && PartsAscend(parts, lengths, |lengths|)
  {
    parts := [];
    CoversNone(offsets, lengths, start, stop, step);
    for f := 0 to |lengths|
      invariant Covers(parts, offsets, lengths, start, stop, step, f)
      invariant LocalParts(parts, lengths, step, f)
    {
      var part := FilePart(offsets, lengths, start, stop, step, f);
      CoversNext(parts, part, offsets, lengths, start, stop, step, f);
      if part.Some? {
        LocalPartsNext(parts, part.value, lengths, step, f);
        parts := parts + [part.value];
      }
    }
    assert Min(offsets[|lengths|], stop) == stop;
    LocalPartsAscend(parts, lengths, step, |lengths|);
  }

  lemma LocalPartsAscend(parts: seq<Part>, lengths: seq<nat>, step: int, f: nat)
    requires step >= 1 && LocalParts(parts, lengths, step, f)
    ensures PartsAscend(parts, lengths, f)
  {
    forall k | 0 <= k < |parts| ensures PartLength(parts[k], lengths) > 0 {
      assert LocalSlice(parts[k], lengths, step);
      var i := SliceIndices(parts[k].sub, lengths[parts[k].file]);
      CeilDivFacts(i.stop - i.start, step);
    }
  }

  /** The parts found so far select the slice's rows below file `f`. */
  ghost predicate Covers(parts: seq<Part>, offsets: seq<int>, lengths: seq<nat>, start: int, stop: int, step: int,
                         f: nat)
    requires step >= 1 && |offsets| == |lengths| + 1 && f < |offsets|
  {
    ValidParts(parts, lengths) && AllRows(parts, offsets, lengths) == Range(start, Min(offsets[f], stop), step)
  }

  lemma LocalPartsNext(parts: seq<Part>, part: Part, lengths: seq<nat>, step: int, f: nat)
    requires LocalParts(parts, lengths, step, f) && part.file == f && LocalSlice(part, lengths, step)
    ensures LocalParts(parts + [part], lengths, step, f + 1)
  {
  }

  lemma CoversNone(offsets: seq<int>, lengths: seq<nat>, start: int, stop: int, step: int)
    requires PrefixSums(offsets, lengths) && step >= 1 && 0 <= start
    ensures Covers([], offsets, lengths, start, stop, step, 0)
  {
    assert Range(start, Min(offsets[0], stop), step) == [];
  }

  lemma CoversNext(parts: seq<Part>, part: Option<Part>, offsets: seq<int>, lengths: seq<nat>,
                   start: int, stop: int, step: int, f: nat)
    requires step >= 1 && |offsets| == |lengths| + 1 && f < |lengths|
    requires Covers(parts, offsets, lengths, start, stop, step, f)
    requires part.Some? ==> ValidPart(part.value, lengths)
    requires Range(start, Min(offsets[f + 1], stop), step)
          == Range(start, Min(offsets[f], stop), step)
             + (if part.Some? then PartRows(part.value, offsets, lengths) else [])
    ensures part.None? ==> Covers(parts, offsets, lengths, start, stop, step, f + 1)
    ensures part.Some? ==> Covers(parts + [part.value], offsets, lengths, start, stop, step, f + 1)
  {
    if part.Some? {
      AllRowsAppend(parts, part.value, offsets, lengths);
    }
  }

  /** The loop body of `_slice_parts`: the part of file `f`, if the slice reaches it. */
  method FilePart(offsets: seq<int>, lengths: seq<nat>, start: int, stop: int, step: int, f: nat)
    returns (part: Option<Part>)
    requires PrefixSums(offsets, lengths) && f < |lengths| && step >= 1 && 0 <= start && 0 <= stop
    ensures part.Some? ==> part.value.file == f && LocalSlice(part.value, lengths, step)
    ensures Range(start, Min(offsets[f + 1], stop), step)
         == Range(start, Min(offsets[f], stop), step)
            + (if part.Some? then PartRows(part.value, offsets, lengths) else [])
  {
    PrefixSumsSorted(offsets, lengths);
    var lo := offsets[f];
    var hi := offsets[f + 1];
    assert hi == lo + lengths[f];
    if lo >= hi {
      return None;
    }
    var lastExcl := Min(hi, stop);
    var first := if start >= lo then start else start + ((lo - start + step - 1) / step) * step;
    assert first == FirstAtLeast(start, lo, step);
    NextFile(start, stop, step, lo, hi);
    if first >= lastExcl {
      return None;
    }
    part := Some(Part(f, Slice(Some(first - lo), Some(lastExcl - lo), Some(step))));
    SlicePartRows(part.value, offsets, lengths, start, stop, step);
  }

  lemma SlicePartRows(part: Part, offsets: seq<int>, lengths: seq<nat>, start: int, stop: int, step: int)
    requires PrefixSums(offsets, lengths) && part.file < |lengths| && step >= 1 && 0 <= start
    requires var lo := offsets[part.file];
             var first := FirstAtLeast(start, lo, step);
             var last := Min(offsets[part.file + 1], stop);
             first < last && part.sub == Slice(Some(first - lo), Some(last - lo), Some(step))
    ensures LocalSlice(part, lengths, step)
    ensures PartRows(part, offsets, lengths)
         == Range(FirstAtLeast(start, offsets[part.file], step), Min(offsets[part.file + 1], stop), step)
  {
    var lo := offsets[part.file];
    assert offsets[part.file + 1] == lo + lengths[part.file];
    if start < lo {
      CeilDivFacts(lo - start, step);
    }
    RangeShift(part.sub.start.value, part.sub.stop.value, step, lo);
  }

  /** What the rows of one file add to the part of the slice below it. */
  lemma NextFile(start: int, stop: int, step: int, lo: int, hi: int)
    requires step >= 1 && 0 <= lo <= hi && 0 <= start
    ensures var first := FirstAtLeast(start, lo, step);
            Range(start, Min(hi, stop), step) == Range(start, Min(lo, stop), step) + Range(first, Min(hi, stop), step)
  {
    if lo <= stop {
      RangeSplit(start, lo, Min(hi, stop), step);
    } else if start < lo {
      CeilDivFacts(lo - start, step);
    }
  }

  // ---- masks ----

  /** Equal windows select the same rows, counted from the windows' starts. */
  lemma {:induction false} SelectedMatch(a: seq<bool>, la: nat, b: seq<bool>, lb: nat, n: nat)
    requires la + n <= |a| && lb + n <= |b|
    requires a[la..la + n] == b[lb..lb + n]
    ensures Selected(a, la, la + n) == Shift(Selected(b, lb, lb + n), la - lb)
  {
    if n > 0 {
      assert a[la..la + (n - 1)] == a[la..la + n][..n - 1];
      assert b[lb..lb + (n - 1)] == b[lb..lb + n][..n - 1];
      SelectedMatch(a, la, b, lb, n - 1);
      assert a[la..la + n][n - 1] == b[lb..lb + n][n - 1];
    }
  }

  /** A sub-mask that selects at least one row of its file. */
  predicate LiveMask(p: Part) { p.sub.Mask? && true in p.sub.mask }

  predicate LiveMasks(parts: seq<Part>) {
    forall k :: 0 <= k < |parts| ==> LiveMask(parts[k])
  }

  /** The loop body of `_mask_parts`: file `f`'s sub-mask, if it selects anything. */
  method FileMask(offsets: seq<int>, lengths: seq<nat>, mask: seq<bool>, f: nat) returns (part: Option<Part>)
    requires PrefixSums(offsets, lengths) && |mask| == offsets[|lengths|] && f < |lengths|
    ensures part.Some? ==> LiveMask(part.value) && ValidPart(part.value, lengths) && part.value.file == f
    ensures 0 <= offsets[f] <= offsets[f + 1] <= |mask|
    ensures Selected(mask, 0, offsets[f + 1])
         == Selected(mask, 0, offsets[f]) + (if part.Some? then PartRows(part.value, offsets, lengths) else [])
  {
    PrefixSumsSorted(offsets, lengths);
    var lo := offsets[f];
    var hi := offsets[f + 1];
    assert hi == lo + lengths[f];
    var sub := mask[lo..hi];
    SelectedSplit(mask, 0, lo, hi);
    SelectedMatch(mask, lo, sub, 0, hi - lo);
    if true in sub {
      part := Some(Part(f, Mask(sub)));
    } else {
      SelectedUniform(sub, 0, |sub|, false);
      part := None;
    }
  }

  lemma LiveMaskSelects(part: Part, lengths: seq<nat>)
    requires ValidPart(part, lengths) && LiveMask(part)
    ensures PartLength(part, lengths) > 0
  {
    SelectedExact(part.sub.mask, 0, |part.sub.mask|);
  }

  lemma LiveMasksNext(parts: seq<Part>, part: Part)
    requires LiveMasks(parts) && LiveMask(part)
    ensures LiveMasks(parts + [part])
  {
  }

  /** `_mask_parts`: sub-masks at the file boundaries, files without a selected row skipped. */
  method MaskParts(offsets: seq<int>, lengths: seq<nat>, mask: seq<bool>) returns (parts: seq<Part>)
    requires PrefixSums(offsets, lengths) && |mask| == offsets[|lengths|]
    ensures ValidParts(parts, lengths)
    ensures AllRows(parts, offsets, lengths) == Selected(mask, 0, |mask|)
    ensures LiveMasks(parts) && PartsAscend(parts, lengths, |lengths|)
  {
    parts := [];
    PrefixSumsSorted(offsets, lengths);
    for f := 0 to |lengths|
      invariant ValidParts(parts, lengths)
      invariant 0 <= offsets[f] <= |mask| && AllRows(parts, offsets, lengths) == Selected(mask, 0, offsets[f])
      invariant LiveMasks(parts) && PartsAscend(parts, lengths, f)
    {
      var part := FileMask(offsets, lengths, mask, f);
      if part.Some? {
        AllRowsAppend(parts, part.value, offsets, lengths);
        LiveMaskSelects(part.value, lengths);
        PartsAscendNext(parts, part.value, lengths, f);
        LiveMasksNext(parts, part.value);
        parts := parts + [part.value];
      }
    }
  }

  // ---- whole reads ----

  /** The output rows `[lo, hi)` a part fills. */
  datatype Region = Region(lo: nat, hi: nat, part: Part)

  function RegionParts(regions: seq<Region>): seq<Part> {
    seq(|regions|, k requires 0 <= k < |regions| => regions[k].part)
  }

  function RegionBounds(regions: seq<Region>): seq<int> {
    [0] + seq(|regions|, k requires 0 <= k < |regions| => regions[k].hi)
  }

  /** A region is as long as its part's selection and begins where the one before it ends. */
  ghost predicate RegionAt(regions: seq<Region>, k: int, lengths: seq<nat>) {
    && 0 <= k < |regions| && ValidPart(regions[k].part, lengths)
    && regions[k].lo == RegionBounds(regions)[k]
    && regions[k].hi == regions[k].lo + |Rows(regions[k].part.sub, lengths[regions[k].part.file])|
  }

  /** The regions tile the output from 0 on. */
  ghost predicate RegionsTile(regions: seq<Region>, lengths: seq<nat>) {
    forall k :: 0 <= k < |regions| ==> RegionAt(regions, k, lengths)
  }

  lemma RegionsTileNext(regions: seq<Region>, r: Region, lengths: seq<nat>)
    requires RegionsTile(regions, lengths) && ValidPart(r.part, lengths)
    requires r.lo == RegionBounds(regions)[|regions|]
    requires r.hi == r.lo + |Rows(r.part.sub, lengths[r.part.file])|
    ensures RegionsTile(regions + [r], lengths)
    ensures RegionParts(regions + [r]) == RegionParts(regions) + [r.part]
    ensures RegionBounds(regions + [r])[|regions| + 1] == r.hi
  {
    var next := regions + [r];
    forall k | 0 <= k < |next| ensures RegionAt(next, k, lengths) {
      if k < |regions| {
        assert RegionAt(regions, k, lengths);
        assert RegionBounds(next)[k] == RegionBounds(regions)[k];
      }
    }
  }

  /** `_contiguous_regions`, with `_contiguous_lengths`: running write offsets. */
  method ContiguousRegions(parts: seq<Part>, lengths: seq<nat>) returns (regions: seq<Region>)
    requires ValidParts(parts, lengths)
    ensures RegionsTile(regions, lengths) && RegionParts(regions) == parts
  {
    regions := [];
    var write := 0;
    for k := 0 to |parts|
      invariant RegionsTile(regions, lengths) && RegionParts(regions) == parts[..k]
      invariant write == RegionBounds(regions)[|regions|]
    {
      var length := PartLength(parts[k], lengths);
      var r := Region(write, write + length, parts[k]);
      RegionsTileNext(regions, r, lengths);
      regions := regions + [r];
      write := write + length;
    }
  }

  /** `_offset_regions`: each non-empty file owns its own global rows. */
  method OffsetRegions(offsets: seq<int>, lengths: seq<nat>) returns (regions: seq<Region>)
    requires PrefixSums(offsets, lengths)
    ensures RegionsTile(regions, lengths) && ValidParts(RegionParts(regions), lengths)
    ensures 0 <= offsets[|lengths|] == RegionBounds(regions)[|regions|]
    ensures AllRows(RegionParts(regions), offsets, lengths) == RowRange(0, offsets[|lengths|])
    ensures PartsAscend(RegionParts(regions), lengths, |lengths|)
  {
    regions := [];
    PrefixSumsSorted(offsets, lengths);
    for f := 0 to |lengths|
      invariant RegionsTile(regions, lengths) && ValidParts(RegionParts(regions), lengths)
      invariant offsets[f] == RegionBounds(regions)[|regions|]
      invariant AllRows(RegionParts(regions), offsets, lengths) == RowRange(0, offsets[f])
      invariant PartsAscend(RegionParts(regions), lengths, f)
    {
      var lo := offsets[f];
      var hi := offsets[f + 1];
      assert hi == lo + lengths[f];
      if lo < hi {
        var r := Region(lo, hi, Part(f, Whole));
        WholePartRows(f, offsets, lengths);
        RegionsTileNext(regions, r, lengths);
        AllRowsAppend(RegionParts(regions), r.part, offsets, lengths);
        PartsAscendNext(RegionParts(regions), r.part, lengths, f);
        regions := regions + [r];
      }
    }
  }

  lemma WholePartRows(f: nat, offsets: seq<int>, lengths: seq<nat>)
    requires PrefixSums(offsets, lengths) && f < |lengths|
    ensures 0 <= offsets[f] <= offsets[f + 1]
    ensures RowRange(0, offsets[f]) + PartRows(Part(f, Whole), offsets, lengths) == RowRange(0, offsets[f + 1])
  {
    PrefixSumsSorted(offsets, lengths);
    assert offsets[f + 1] == offsets[f] + lengths[f];
    assert PartRows(Part(f, Whole), offsets, lengths) == RowRange(offsets[f], offsets[f + 1]);
  }

  // ---- what the parts read ----

  /** Reading the parts from their own files is reading the global rows from the concatenation. */
  lemma PartReads<T>(columns: seq<seq<T>>, offsets: seq<int>, p: Part)
    requires PrefixSums(offsets, Lengths(columns)) && ValidPart(p, Lengths(columns))
    ensures ValidSelector(p.sub, |columns[p.file]|)
    ensures InRange(PartRows(p, offsets, Lengths(columns)), |Flat(columns)|)
    ensures Pick(Flat(columns), PartRows(p, offsets, Lengths(columns))) == Read(columns[p.file], p.sub)
  {
    var column := columns[p.file];
    var local := Rows(p.sub, |column|);
    RowsInRange(p.sub, |column|);
    forall k | 0 <= k < |local|
      ensures 0 <= local[k] + offsets[p.file] < |Flat(columns)|
      ensures Flat(columns)[local[k] + offsets[p.file]] == column[local[k]]
    {
      FlatAt(columns, offsets, p.file, local[k]);
    }
  }

  /** The parts' reads, in order. */
  function PartsRead<T>(columns: seq<seq<T>>, parts: seq<Part>): seq<seq<T>>
    requires ValidParts(parts, Lengths(columns))
  {
    seq(|parts|, k requires 0 <= k < |parts| =>
      assert ValidPart(parts[k], Lengths(columns)); Read(columns[parts[k].file], parts[k].sub))
  }

  lemma PartsReadLast<T>(columns: seq<seq<T>>, parts: seq<Part>)
    requires ValidParts(parts, Lengths(columns)) && parts != []
    ensures ValidParts(parts[..|parts| - 1], Lengths(columns)) && ValidPart(parts[|parts| - 1], Lengths(columns))
    ensures PartsRead(columns, parts)[..|parts| - 1] == PartsRead(columns, parts[..|parts| - 1])
    ensures PartsRead(columns, parts)[|parts| - 1] == Read(columns[parts[|parts| - 1].file], parts[|parts| - 1].sub)
  {
  }

  lemma {:induction false} PartsReadFlat<T>(columns: seq<seq<T>>, offsets: seq<int>, parts: seq<Part>)
    requires PrefixSums(offsets, Lengths(columns)) && ValidParts(parts, Lengths(columns))
    ensures InRange(AllRows(parts, offsets, Lengths(columns)), |Flat(columns)|)
    ensures Flat(PartsRead(columns, parts)) == Pick(Flat(columns), AllRows(parts, offsets, Lengths(columns)))
    decreases |parts|
  {
    if parts != [] {
      var n := |parts| - 1;
      PartsReadFlat(columns, offsets, parts[..n]);
      PartReads(columns, offsets, parts[n]);
      PartsReadLast(columns, parts);
      PickAppend(Flat(columns), AllRows(parts[..n], offsets, Lengths(columns)),
                 PartRows(parts[n], offsets, Lengths(columns)));
    }
  }
}
