/**
 Segment tables and the gather kernels that read through them. A table folds every
 segment's row shift into its base, so global row `i` of segment `s` is the cell at
 `base[s] + i * itemsize`. `Represents` says which column a table stands for; every
 kernel is proved to return that column's cells, whatever order its workers run in.
 */
module Segments {
  import opened Sequences
  import opened Schedule
  import opened MagicDivide

  /** Segment ids recorded for reuse across columns are 32-bit. */
  newtype Bin = b: int | 0 <= b <= 0x7FFF_FFFF

  datatype Table = Table(starts: seq<int>, base: seq<int>)

  predicate InSegment(starts: seq<int>, s: int, row: int) {
    0 <= s < |starts| - 1 && starts[s] <= row < starts[s + 1]
  }

  /** `n_segments + 1` non-decreasing boundaries that begin at row 0. */
  predicate ValidStarts(starts: seq<int>) {
    |starts| >= 1 && starts[0] == 0 && NonDecreasing(starts)
  }

  ghost predicate Represents(mem: Memory, t: Table, itemsize: nat, column: seq<Cell>) {
    && |t.starts| == |t.base| + 1
    && ValidStarts(t.starts)
    && |column| == t.starts[|t.base|]
    && forall s, row :: Addressed(t, s, row) ==>
         Load(mem, t.base[s] + row * itemsize, itemsize) == column[row]
  }

  /** `InSegment` under a name of its own: the loads are looked up only where a proof says so. */
  predicate Addressed(t: Table, s: int, row: int) { InSegment(t.starts, s, row) }

  lemma SegmentUnique(starts: seq<int>, s: int, u: int, row: int)
    requires NonDecreasing(starts) && InSegment(starts, s, row) && InSegment(starts, u, row)
    ensures s == u
  {
    OneWindow(starts, s, u, row);
  }

  lemma RowInColumn(mem: Memory, t: Table, itemsize: nat, column: seq<Cell>, s: int, row: int)
    requires Represents(mem, t, itemsize, column) && InSegment(t.starts, s, row)
    ensures 0 <= row < |column| && s < |t.base|
    ensures Load(mem, t.base[s] + row * itemsize, itemsize) == column[row]
  {
    assert Addressed(t, s, row);
  }

  /** The branchless search: the largest `s` with `starts[s] <= row`. */
  method BinRecord(starts: seq<int>, row: int) returns (s: nat)
    requires |starts| > 0 && NonDecreasing(starts) && starts[0] <= row
    ensures s < |starts| && starts[s] <= row
    ensures forall k :: s < k < |starts| ==> row < starts[k]
  {
    s := 0;
    var n := |starts|;
    while n > 1
      invariant 1 <= n && s + n <= |starts|
      invariant starts[s] <= row
      invariant forall k :: s + n <= k < |starts| ==> row < starts[k]
    {
      var half := n / 2;
      if starts[s + half] <= row {
        s := s + half;
      } else {
        assert row < starts[s + half];
      }
      n := n - half;
    }
  }

  method FindSegment(t: Table, row: int) returns (s: nat)
    requires |t.starts| == |t.base| + 1 && ValidStarts(t.starts)
    requires 0 <= row < t.starts[|t.base|]
    ensures InSegment(t.starts, s, row)
  {
    s := BinRecord(t.starts, row);
    assert row < t.starts[|t.base|];
  }

  // ---- uniform grids ----

  /** Every segment holds `rows` rows, except possibly a last one that holds fewer. */
  predicate UniformGrid(starts: seq<int>, rows: int) {
    && |starts| >= 3 && rows > 0
    && (forall s :: 0 <= s < |starts| - 2 ==> starts[s + 1] - starts[s] == rows)
    && starts[|starts| - 1] - starts[|starts| - 2] <= rows
  }

  /** `_uniform_segment_rows`. */
  function UniformSegmentRows(starts: seq<int>): (r: Option<int>)
    requires |starts| >= 1
  {
    if |starts| - 1 < 2 then None
    else
      var rows := starts[1] - starts[0];
      if rows <= 0 then None
      else if exists s :: 0 <= s < |starts| - 2 && starts[s + 1] - starts[s] != rows then None
      else if starts[|starts| - 1] - starts[|starts| - 2] > rows then None
      else Some(rows)
  }

  /** The grid test finds exactly the uniform grids, and their row count. */
  lemma UniformSegmentRowsSound(starts: seq<int>)
    requires |starts| >= 1
    ensures UniformSegmentRows(starts).Some? ==> UniformGrid(starts, UniformSegmentRows(starts).value)
    ensures forall rows :: UniformGrid(starts, rows) ==> UniformSegmentRows(starts) == Some(rows)
  {
    forall rows | UniformGrid(starts, rows) ensures UniformSegmentRows(starts) == Some(rows) {
      assert starts[0 + 1] - starts[0] == rows;
    }
  }

  lemma {:induction false} GridStart(starts: seq<int>, rows: int, s: nat)
    requires ValidStarts(starts) && UniformGrid(starts, rows) && s < |starts| - 1
    ensures starts[s] == s * rows
  {
    if s > 0 {
      GridStart(starts, rows, s - 1);
      assert starts[s - 1 + 1] - starts[s - 1] == rows;
    }
  }

  /** On a uniform grid division finds the searched segment, a short or empty last segment included. */
  lemma GridSegment(starts: seq<int>, rows: int, row: int)
    requires ValidStarts(starts) && UniformGrid(starts, rows)
    requires 0 <= row < starts[|starts| - 1]
    ensures InSegment(starts, Min(row / rows, |starts| - 2), row)
    ensures row / rows <= |starts| - 2
  {
    var n := |starts| - 1;
    var s := row / rows;
    DivFacts(row, rows);
    GridStart(starts, rows, n - 1);
    MulAdd(n - 1, 1, rows);
    if s > n - 1 {
      MulMonotone(n, s, rows);
    }
    GridStart(starts, rows, s);
    if s < n - 1 {
      assert starts[s + 1] - starts[s] == rows;
    }
  }

  /** The kernel's closed-form segment: reciprocal division, clamped to the last segment. */
  function SegmentOf(row: int, divisor: Divisor, segments: nat): int
    requires 0 <= row < WORD
  {
    var s := Divide(row, divisor);
    if s < segments - 1 then s else segments - 1
  }

  /** `divisor` divides every 64-bit row exactly by `rows`. */
  ghost predicate DividesBy(divisor: Divisor, rows: int) {
    rows > 0 && forall n :: 0 <= n < WORD ==> Divide(n, divisor) == n / rows
  }

  method PrepareDivisor(rows: int) returns (divisor: Divisor)
    requires 1 <= rows < WORD
    ensures DividesBy(divisor, rows)
  {
    divisor := MakeDivisor(rows);
    forall n | 0 <= n < WORD ensures Divide(n, divisor) == n / rows {
      DivideExact(n, rows);
    }
  }

  method UniformSegment(ghost starts: seq<int>, rows: int, divisor: Divisor, segments: nat, row: int)
    returns (s: nat)
    requires ValidStarts(starts) && UniformGrid(starts, rows) && segments == |starts| - 1
    requires DividesBy(divisor, rows) && 0 <= row < starts[segments] <= INT64_MAX
    ensures InSegment(starts, s, row)
  {
    GridSegment(starts, rows, row);
    s := SegmentOf(row, divisor, segments);
  }

  lemma GridRowsFit(starts: seq<int>, rows: int)
    requires ValidStarts(starts) && UniformGrid(starts, rows) && starts[|starts| - 1] <= INT64_MAX
    ensures 1 <= rows < WORD
  {
    assert starts[0 + 1] - starts[0] == rows;
  }

  // ---- per-element kernels: an element is one store, in any order ----

  ghost predicate Filled(out: seq<Cell>, column: seq<Cell>, indices: seq<int>, done: seq<int>)
    requires InRange(indices, |column|) && |out| == |indices| && InRange(done, |indices|)
  {
    forall k :: 0 <= k < |done| ==> out[done[k]] == column[indices[done[k]]]
  }

  lemma FilledAll(out: seq<Cell>, column: seq<Cell>, indices: seq<int>, order: seq<int>)
    requires InRange(indices, |column|) && |out| == |indices| && IsPermutation(order, |indices|)
    requires Filled(out, column, indices, order)
    ensures out == Pick(column, indices)
  {
    forall i | 0 <= i < |out| ensures out[i] == column[indices[i]] {
      var k := PermutationCovers(order, |indices|, i);
      assert out[order[k]] == column[indices[order[k]]];
    }
  }

  /** `gather_segment`: search, then load. */
  method GatherSegment(mem: Memory, ghost column: seq<Cell>, indices: seq<int>, out: array<Cell>, t: Table,
                       itemsize: nat, order: seq<int>)
    requires Represents(mem, t, itemsize, column) && InRange(indices, |column|)
    requires out.Length == |indices| && IsPermutation(order, |indices|)
    modifies out
    ensures out[..] == Pick(column, indices)
  {
    for k := 0 to |order|
      invariant Filled(out[..], column, indices, order[..k])
    {
      var i := order[k];
      var s := FindSegment(t, indices[i]);
      RowInColumn(mem, t, itemsize, column, s, indices[i]);
      out[i] := Load(mem, t.base[s] + indices[i] * itemsize, itemsize);
    }
    assert order[..|order|] == order;
    FilledAll(out[..], column, indices, order);
  }

  /** What a bins pass records: the segment of every requested row. */
  ghost predicate BinsOf(bins: seq<Bin>, starts: seq<int>, indices: seq<int>) {
    |bins| == |indices| && forall i :: 0 <= i < |bins| ==> InSegment(starts, bins[i] as int, indices[i])
  }

  ghost predicate BinsFilled(bins: seq<Bin>, starts: seq<int>, indices: seq<int>, done: seq<int>)
    requires |bins| == |indices| && InRange(done, |indices|)
  {
    forall k :: 0 <= k < |done| ==> InSegment(starts, bins[done[k]] as int, indices[done[k]])
  }

  lemma BinsFilledAll(bins: seq<Bin>, starts: seq<int>, indices: seq<int>, order: seq<int>)
    requires |bins| == |indices| && IsPermutation(order, |indices|)
    requires BinsFilled(bins, starts, indices, order)
    ensures BinsOf(bins, starts, indices)
  {
    forall i | 0 <= i < |bins| ensures InSegment(starts, bins[i] as int, indices[i]) {
      var k := PermutationCovers(order, |indices|, i);
      assert InSegment(starts, bins[order[k]] as int, indices[order[k]]);
    }
  }

  /** `gather_segment_bins`: gather the first column and record each row's segment. */
  method GatherSegmentBins(mem: Memory, ghost column: seq<Cell>, indices: seq<int>, out: array<Cell>,
                           bins: array<Bin>, t: Table, itemsize: nat, order: seq<int>)
    requires Represents(mem, t, itemsize, column) && InRange(indices, |column|)
    requires out.Length == bins.Length == |indices| && IsPermutation(order, |indices|)
    requires |t.base| <= INT32_MAX
    modifies out, bins
    ensures out[..] == Pick(column, indices)
    ensures BinsOf(bins[..], t.starts, indices)
  {
    for k := 0 to |order|
      invariant Filled(out[..], column, indices, order[..k])
      invariant BinsFilled(bins[..], t.starts, indices, order[..k])
    {
      var i := order[k];
      var s := FindSegment(t, indices[i]);
      RowInColumn(mem, t, itemsize, column, s, indices[i]);
      bins[i] := s as Bin;
      out[i] := Load(mem, t.base[s] + indices[i] * itemsize, itemsize);
    }
    assert order[..|order|] == order;
    FilledAll(out[..], column, indices, order);
    BinsFilledAll(bins[..], t.starts, indices, order);
  }

  /**
   `gather_segment_withbins`: replay bins recorded against another column's table. The
   boundaries are never read; it is enough that they are the same for both columns.
   */
  method GatherSegmentWithBins(mem: Memory, ghost column: seq<Cell>, indices: seq<int>, out: array<Cell>,
                               bins: seq<Bin>, base: seq<int>, ghost starts: seq<int>, itemsize: nat,
                               order: seq<int>)
    requires Represents(mem, Table(starts, base), itemsize, column) && InRange(indices, |column|)
    requires BinsOf(bins, starts, indices)
    requires out.Length == |indices| && IsPermutation(order, |indices|)
    modifies out
    ensures out[..] == Pick(column, indices)
  {
    for k := 0 to |order|
      invariant Filled(out[..], column, indices, order[..k])
    {
      var i := order[k];
      RowInColumn(mem, Table(starts, base), itemsize, column, bins[i] as int, indices[i]);
      out[i] := Load(mem, base[bins[i] as int] + indices[i] * itemsize, itemsize);
    }
    assert order[..|order|] == order;
    FilledAll(out[..], column, indices, order);
  }

  /** `gather_segment_uniform`: the segment by division; the boundaries are not passed in. */
  method GatherSegmentUniform(mem: Memory, ghost column: seq<Cell>, indices: seq<int>, out: array<Cell>,
                              rows: int, base: seq<int>, ghost starts: seq<int>, itemsize: nat,
                              order: seq<int>)
    requires Represents(mem, Table(starts, base), itemsize, column) && InRange(indices, |column|)
    requires UniformGrid(starts, rows) && |column| <= INT64_MAX
    requires out.Length == |indices| && IsPermutation(order, |indices|)
    modifies out
    ensures out[..] == Pick(column, indices)
  {
    GridRowsFit(starts, rows);
    var divisor := PrepareDivisor(rows);
    for k := 0 to |order|
      invariant Filled(out[..], column, indices, order[..k])
    {
      var i := order[k];
      var s := UniformSegment(starts, rows, divisor, |base|, indices[i]);
      RowInColumn(mem, Table(starts, base), itemsize, column, s, indices[i]);
      out[i] := Load(mem, base[s] + indices[i] * itemsize, itemsize);
    }
    assert order[..|order|] == order;
    FilledAll(out[..], column, indices, order);
  }

  /** `gather_segment_uniform_bins`. */
  method GatherSegmentUniformBins(mem: Memory, ghost column: seq<Cell>, indices: seq<int>, out: array<Cell>,
                                  bins: array<Bin>, rows: int, base: seq<int>, ghost starts: seq<int>,
                                  itemsize: nat, order: seq<int>)
    requires Represents(mem, Table(starts, base), itemsize, column) && InRange(indices, |column|)
    requires UniformGrid(starts, rows) && |column| <= INT64_MAX && |base| <= INT32_MAX
    requires out.Length == bins.Length == |indices| && IsPermutation(order, |indices|)
    modifies out, bins
    ensures out[..] == Pick(column, indices)
    ensures BinsOf(bins[..], starts, indices)
  {
    GridRowsFit(starts, rows);
    var divisor := PrepareDivisor(rows);
    for k := 0 to |order|
      invariant Filled(out[..], column, indices, order[..k])
      invariant BinsFilled(bins[..], starts, indices, order[..k])
    {
      var i := order[k];
      var s := UniformSegment(starts, rows, divisor, |base|, indices[i]);
      RowInColumn(mem, Table(starts, base), itemsize, column, s, indices[i]);
      bins[i] := s as Bin;
      out[i] := Load(mem, base[s] + indices[i] * itemsize, itemsize);
    }
    assert order[..|order|] == order;
    FilledAll(out[..], column, indices, order);
    BinsFilledAll(bins[..], starts, indices, order);
  }

  // ---- the sorted kernel: one monotone cursor per chunk ----

  /** Store one row's cell, found in segment `s`, and append the store to the worker's log. */
  method StoreRow(mem: Memory, ghost column: seq<Cell>, t: Table, itemsize: nat, s: nat, row: int,
                  out: array<Cell>, i: nat, ghost buffer: seq<Cell>, ghost before: Log<Cell>)
    returns (ghost log: Log<Cell>)
    requires Represents(mem, t, itemsize, column) && InSegment(t.starts, s, row) && i < out.Length
    requires |buffer| == out.Length && InBuffer(before, |buffer|) && out[..] == Apply(buffer, before)
    modifies out
    ensures out[..] == old(out[..])[i := column[row]]
    ensures log == before + [Write(i, column[row])]
    ensures InBuffer(log, |buffer|) && out[..] == Apply(buffer, log)
  {
    RowInColumn(mem, t, itemsize, column, s, row);
    out[i] := Load(mem, t.base[s] + row * itemsize, itemsize);
    log := before + [Write(i, column[row])];
    ApplyOne(buffer, before, Write(i, column[row]));
  }

  /** Step the cursor over boundaries until it reaches `row`'s segment. */
  method AdvanceCursor(starts: seq<int>, from: nat, row: int) returns (s: nat)
    requires ValidStarts(starts) && from + 1 < |starts|
    requires starts[from + 1] <= row < starts[|starts| - 1]
    ensures InSegment(starts, s, row) && from < s
  {
    s := from + 1;
    while row >= starts[s + 1]
      invariant from < s && s + 1 < |starts| && starts[s] <= row
      decreases |starts| - s
    {
      s := s + 1;
    }
  }

  predicate StepsUp(indices: seq<int>, i: int) {
    0 < i < |indices| && indices[i - 1] <= indices[i]
  }

  /** The chunk `[lo, hi)` of the indices is non-decreasing. */
  predicate Ascending(indices: seq<int>, lo: int, hi: int) {
    forall i :: lo < i < hi ==> StepsUp(indices, i)
  }

  /**
   One worker's walk. The cursor advances over boundaries and re-searches on a backward
   step, so the walk is right for any order; on a non-decreasing chunk it searches once
   and its cursor moves at most once per segment.
   */
  method SortedWalk(mem: Memory, ghost column: seq<Cell>, indices: seq<int>, out: array<Cell>, t: Table,
                    itemsize: nat, lo: nat, hi: nat)
    returns (ghost log: Log<Cell>, ghost searches: nat, ghost moves: nat)
    requires Represents(mem, t, itemsize, column) && InRange(indices, |column|)
    requires out.Length == |indices| && lo <= hi <= |indices|
    modifies out
    ensures InBuffer(log, |old(out[..])|) && out[..] == Apply(old(out[..]), log)
    ensures Within(log, lo, hi)
    ensures forall i :: lo <= i < hi ==> out[i] == column[indices[i]]
    ensures (forall i, j :: lo <= i <= j < hi ==> indices[i] <= indices[j]) ==> searches <= 1 && moves <= |t.base|
  {
    assert (forall i, j :: lo <= i <= j < hi ==> indices[i] <= indices[j]) ==> Ascending(indices, lo, hi);
    log, searches, moves := [], 0, 0;
    if lo >= hi {
      return;
    }
    ghost var buffer := out[..];
    var s := FindSegment(t, indices[lo]);
    searches := 1;
    ghost var first := s;
    for i := lo to hi
      invariant InSegment(t.starts, s, indices[if i == lo then lo else i - 1])
      invariant Ascending(indices, lo, hi) ==> searches == 1 && first + moves == s
      invariant Walked(buffer, out[..], log, column, indices, lo, i, hi)
    {
      assert i > lo && Ascending(indices, lo, hi) ==> StepsUp(indices, i);
      ghost var from := s;
      ghost var back;
      s, back := MoveCursor(t, s, indices[i]);
      searches := searches + (if back then 1 else 0);
      moves := moves + (if back then 0 else s - from);
      WalkedNext(buffer, out[..], log, column, indices, lo, i, hi);
      log := StoreRow(mem, column, t, itemsize, s, indices[i], out, i, buffer, log);
    }
  }

  /** The stores of `[lo, i)` are done and are the log so far. */
  ghost predicate Walked(buffer: seq<Cell>, current: seq<Cell>, log: Log<Cell>, column: seq<Cell>,
                         indices: seq<int>, lo: nat, i: nat, hi: nat)
  {
    && |current| == |buffer| == |indices| && InRange(indices, |column|) && lo <= i <= hi <= |indices|
    && InBuffer(log, |buffer|) && Within(log, lo, hi) && current == Apply(buffer, log)
    && forall k :: lo <= k < i ==> current[k] == column[indices[k]]
  }

  lemma WalkedNext(buffer: seq<Cell>, current: seq<Cell>, log: Log<Cell>, column: seq<Cell>,
                   indices: seq<int>, lo: nat, i: nat, hi: nat)
    requires Walked(buffer, current, log, column, indices, lo, i, hi) && i < hi
    ensures var cell := column[indices[i]];
            Walked(buffer, current[i := cell], log + [Write(i, cell)], column, indices, lo, i + 1, hi)
  {
    ApplyOne(buffer, log, Write(i, column[indices[i]]));
  }

  /** Forward over boundaries, or a fresh search when the row lies before the cursor's segment. */
  method MoveCursor(t: Table, from: nat, row: int) returns (s: nat, ghost back: bool)
    requires |t.starts| == |t.base| + 1 && ValidStarts(t.starts) && from < |t.base|
    requires 0 <= row < t.starts[|t.base|]
    ensures InSegment(t.starts, s, row)
    ensures back <==> row < t.starts[from]
    ensures !back ==> from <= s
  {
    s, back := from, false;
    if row >= t.starts[from + 1] {
      s := AdvanceCursor(t.starts, from, row);
    } else if row < t.starts[from] {
      s := FindSegment(t, row);
      back := true;
    }
  }

  /** The elements of window `u` hold their cells. */
  ghost predicate WindowFilled(out: seq<Cell>, column: seq<Cell>, indices: seq<int>, bounds: seq<int>, u: nat) {
    && InRange(indices, |column|) && |out| == |indices|
    && u + 1 < |bounds| && 0 <= bounds[u] && bounds[u + 1] <= |out|
    && forall i :: bounds[u] <= i < bounds[u + 1] ==> out[i] == column[indices[i]]
  }

  lemma FilledElsewhere(current: seq<Cell>, log: Log<Cell>, column: seq<Cell>, indices: seq<int>,
                        bounds: seq<int>, u: nat, v: nat)
    requires NonDecreasing(bounds) && u + 1 < |bounds| && u != v
    requires InBuffer(log, |current|) && Within(log, bounds[u], bounds[u + 1])
    requires WindowFilled(current, column, indices, bounds, v)
    ensures WindowFilled(Apply(current, log), column, indices, bounds, v)
  {
    forall i | bounds[v] <= i < bounds[v + 1] ensures Apply(current, log)[i] == column[indices[i]] {
      WithinAt(log, bounds[u], bounds[u + 1], i);
      OneWindow(bounds, u, v, i);
      ApplyUntouched(current, log, i);
    }
  }

  lemma WindowsFilled(out: seq<Cell>, column: seq<Cell>, indices: seq<int>, workers: nat)
    requires workers > 0 && InRange(indices, |column|) && |out| == |indices|
    requires forall u: nat :: u < workers ==>
               WindowFilled(out, column, indices, ChunkBounds(|indices|, workers), u)
    ensures out == Pick(column, indices)
  {
    var bounds := ChunkBounds(|indices|, workers);
    ChunksCover(|indices|, workers);
    forall i | 0 <= i < |out| ensures out[i] == column[indices[i]] {
      var u := WindowOf(bounds, i);
      assert WindowFilled(out, column, indices, bounds, u);
    }
  }

  /** `gather_segment_sorted`: static chunks, one walk each, in any order. */
  method GatherSegmentSorted(mem: Memory, ghost column: seq<Cell>, indices: seq<int>, out: array<Cell>,
                             t: Table, itemsize: nat, workers: nat, order: seq<int>)
    returns (ghost logs: seq<Log<Cell>>)
    requires Represents(mem, t, itemsize, column) && InRange(indices, |column|)
    requires out.Length == |indices| && workers > 0 && IsPermutation(order, workers)
    modifies out
    ensures out[..] == Pick(column, indices)
    ensures ScheduleFree(old(out[..]), logs, out[..])
  {
    var n := |indices|;
    ghost var done: map<nat, Log<Cell>> := map[];
    ghost var bounds := ChunkBounds(n, workers);
    ChunksCover(n, workers);
    for k := 0 to workers
      invariant forall u: nat :: u in done <==> u in order[..k]
      invariant Progress(old(out[..]), done, out[..]) && Windowed(done, bounds)
      invariant forall u: nat :: u in done ==> WindowFilled(out[..], column, indices, bounds, u)
    {
      var u: nat := order[k];
      assert u !in done;
      ghost var current := out[..];
      ghost var log := SortedChunk(mem, column, indices, out, t, itemsize, workers, u);
      WindowedStep(old(out[..]), done, current, u, log, bounds);
      forall v: nat | v in done ensures WindowFilled(out[..], column, indices, bounds, v) {
        FilledElsewhere(current, log, column, indices, bounds, u, v);
      }
      done := done[u := log];
    }
    AllRun(order, workers);
    WindowsFilled(out[..], column, indices, workers);
    WindowedDone(old(out[..]), done, workers, out[..], bounds);
    logs := LogsOf(done, workers);
  }

  method SortedChunk(mem: Memory, ghost column: seq<Cell>, indices: seq<int>, out: array<Cell>,
                     t: Table, itemsize: nat, workers: nat, u: nat)
    returns (ghost log: Log<Cell>)
    requires Represents(mem, t, itemsize, column) && InRange(indices, |column|)
    requires out.Length == |indices| && u < workers
    modifies out
    ensures InBuffer(log, out.Length) && out[..] == Apply(old(out[..]), log)
    ensures Within(log, ChunkBounds(|indices|, workers)[u], ChunkBounds(|indices|, workers)[u + 1])
    ensures WindowFilled(out[..], column, indices, ChunkBounds(|indices|, workers), u)
  {
    var n := |indices|;
    ghost var bounds := ChunkBounds(n, workers);
    ChunksCover(n, workers);
    assert bounds[0] <= bounds[u] <= bounds[u + 1] <= bounds[workers];
    ghost var searches, moves;
    log, searches, moves :=
      SortedWalk(mem, column, indices, out, t, itemsize, ChunkStart(n, workers, u), ChunkStart(n, workers, u + 1));
  }
}
