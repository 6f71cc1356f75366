/**
 The boolean-mask gather over a segment table. Pass 1 counts every chunk's selected
 rows; the running sums are the chunks' output offsets. Pass 2 walks each chunk with a
 segment cursor, eight mask bytes at a time: an all-zero word is skipped, a run of
 all-one words is copied, a mixed word is compacted without branches by storing all
 eight candidates and advancing only past the selected ones.
 */
module MaskKernel {
  import opened Sequences
  import opened Schedule
  import opened Segments

  /** The rows of `[lo, hi)` the mask selects, ascending. */
  function Selected(mask: seq<bool>, lo: nat, hi: nat): (rows: seq<int>)
    requires hi <= |mask|
    ensures |rows| <= if lo <= hi then hi - lo else 0
    decreases hi
  {
    if hi <= lo then []
    else Selected(mask, lo, hi - 1) + (if mask[hi - 1] then [hi - 1] else [])
  }

  /** `mask` and `flatnonzero` agree: exactly the set rows, each once, in ascending order. */
  lemma {:induction false} SelectedExact(mask: seq<bool>, lo: nat, hi: nat)
    requires lo <= hi <= |mask|
    ensures forall k :: 0 <= k < |Selected(mask, lo, hi)| ==>
              lo <= Selected(mask, lo, hi)[k] < hi && mask[Selected(mask, lo, hi)[k]]
    ensures forall i, j :: 0 <= i < j < |Selected(mask, lo, hi)| ==>
              Selected(mask, lo, hi)[i] < Selected(mask, lo, hi)[j]
    ensures forall row :: lo <= row < hi && mask[row] ==> row in Selected(mask, lo, hi)
    decreases hi
  {
    if lo < hi {
      SelectedExact(mask, lo, hi - 1);
      var init := Selected(mask, lo, hi - 1);
      assert mask[hi - 1] ==> Selected(mask, lo, hi) == init + [hi - 1] && (init + [hi - 1])[|init|] == hi - 1;
      forall row | lo <= row < hi && mask[row] ensures row in Selected(mask, lo, hi) {
        if row < hi - 1 {
          assert row in init;
        }
      }
    }
  }

  lemma {:induction false} SelectedSplit(mask: seq<bool>, lo: nat, mid: nat, hi: nat)
    requires lo <= mid <= hi <= |mask|
    ensures Selected(mask, lo, hi) == Selected(mask, lo, mid) + Selected(mask, mid, hi)
    decreases hi
  {
    if mid < hi {
      SelectedSplit(mask, lo, mid, hi - 1);
    }
  }

  lemma SelectedFirst(mask: seq<bool>, lo: nat, hi: nat)
    requires lo < hi <= |mask|
    ensures Selected(mask, lo, hi) == (if mask[lo] then [lo as int] else []) + Selected(mask, lo + 1, hi)
  {
    SelectedSplit(mask, lo, lo + 1, hi);
    assert Selected(mask, lo, lo + 1) == Selected(mask, lo, lo) + (if mask[lo] then [lo as int] else []);
  }

  /** A window of equal mask bytes selects nothing or everything. */
  lemma {:induction false} SelectedUniform(mask: seq<bool>, lo: nat, hi: nat, bit: bool)
    requires lo <= hi <= |mask|
    requires forall k :: lo <= k < hi ==> mask[k] == bit
    ensures !bit ==> Selected(mask, lo, hi) == []
    ensures bit ==> Selected(mask, lo, hi) == RowRange(lo, hi)
    decreases hi
  {
    if lo < hi {
      SelectedUniform(mask, lo, hi - 1, bit);
      assert bit ==> Selected(mask, lo, hi) == RowRange(lo, hi - 1) + [hi - 1];
    }
  }

  function RowRange(lo: int, hi: int): (rows: seq<int>)
    requires lo <= hi
    ensures |rows| == hi - lo
  {
    seq(hi - lo, k => lo + k)
  }

  // ---- pass 1 ----

  /** `count_mask_range`. */
  method CountMaskRange(mask: seq<bool>, lo: nat, hi: nat) returns (total: nat)
    requires lo <= hi <= |mask|
    ensures total == |Selected(mask, lo, hi)|
  {
    total := 0;
    for i := lo to hi
      invariant total == |Selected(mask, lo, i)|
    {
      if mask[i] {
        total := total + 1;
      }
    }
  }

  /** Output offset of chunk `t`: how many rows all earlier chunks select. */
  ghost predicate ChunkOffsets(offsets: seq<int>, mask: seq<bool>, bounds: seq<int>) {
    && |offsets| == |bounds|
    && NonDecreasing(bounds) && |bounds| > 0 && bounds[0] == 0 && bounds[|bounds| - 1] <= |mask|
    && forall t :: 0 <= t < |bounds| ==> 0 <= bounds[t] <= |mask| && offsets[t] == |Selected(mask, 0, bounds[t])|
  }

  lemma ChunkOffsetsStep(offsets: seq<int>, mask: seq<bool>, bounds: seq<int>, t: nat)
    requires ChunkOffsets(offsets, mask, bounds) && t + 1 < |bounds|
    ensures 0 <= bounds[t] <= bounds[t + 1] <= |mask|
    ensures Selected(mask, 0, bounds[t + 1]) == Selected(mask, 0, bounds[t]) + Selected(mask, bounds[t], bounds[t + 1])
    ensures offsets[t + 1] == offsets[t] + |Selected(mask, bounds[t], bounds[t + 1])|
  {
    SelectedSplit(mask, 0, bounds[t], bounds[t + 1]);
  }

  lemma ChunkOffsetsMonotone(offsets: seq<int>, mask: seq<bool>, bounds: seq<int>)
    requires ChunkOffsets(offsets, mask, bounds)
    ensures NonDecreasing(offsets)
  {
    forall i, j | 0 <= i <= j < |offsets| ensures offsets[i] <= offsets[j] {
      SelectedSplit(mask, 0, bounds[i], bounds[j]);
    }
  }

  method CountChunks(mask: seq<bool>, workers: nat) returns (offsets: seq<int>)
    requires workers > 0
    ensures ChunkOffsets(offsets, mask, ChunkBounds(|mask|, workers))
  {
    ghost var bounds := ChunkBounds(|mask|, workers);
    ChunksCover(|mask|, workers);
    offsets := [0];
    for t := 0 to workers
      invariant |offsets| == t + 1
      invariant forall u :: 0 <= u <= t ==> offsets[u] == |Selected(mask, 0, bounds[u])|
    {
      assert bounds[0] <= bounds[t] <= bounds[t + 1] <= bounds[workers];
      var count := CountMaskRange(mask, ChunkStart(|mask|, workers, t), ChunkStart(|mask|, workers, t + 1));
      SelectedSplit(mask, 0, bounds[t], bounds[t + 1]);
      offsets := offsets + [offsets[t] + count];
    }
  }

  // ---- pass 2 ----

  /** From `at` on, the buffer holds the cells of `rows`. */
  ghost predicate Holds(buffer: seq<Cell>, at: nat, column: seq<Cell>, rows: seq<int>) {
    && InRange(rows, |column|) && at + |rows| <= |buffer|
    && forall k :: 0 <= k < |rows| ==> buffer[at + k] == column[rows[k]]
  }

  lemma HoldsAppend(buffer: seq<Cell>, at: nat, column: seq<Cell>, a: seq<int>, b: seq<int>)
    requires Holds(buffer, at, column, a) && Holds(buffer, at + |a|, column, b)
    ensures Holds(buffer, at, column, a + b)
  {
    forall k | 0 <= k < |a + b| ensures buffer[at + k] == column[(a + b)[k]] {
      if k >= |a| {
        assert buffer[at + |a| + (k - |a|)] == column[b[k - |a|]];
      }
    }
  }

  /** Stores at or after `next` leave what is held before it. */
  lemma HoldsBelow(current: seq<Cell>, more: Log<Cell>, at: nat, next: nat, limit: nat, column: seq<Cell>,
                   rows: seq<int>)
    requires Holds(current, at, column, rows) && at + |rows| <= next
    requires InBuffer(more, |current|) && Within(more, next, limit)
    ensures Holds(Apply(current, more), at, column, rows)
  {
    forall k | 0 <= k < |rows| ensures Apply(current, more)[at + k] == column[rows[k]] {
      WithinAt(more, next, limit, at + k);
      ApplyUntouched(current, more, at + k);
    }
  }

  /**
   A worker between two steps: rows below `i` are done, their cells fill the output from
   `start`, the next cell goes to `next`, and the rest of the chunk fills up to `quota`.
   */
  ghost predicate WalkState(column: seq<Cell>, mask: seq<bool>, current: seq<Cell>,
                            lo: nat, hi: nat, i: nat, start: nat, next: nat, quota: nat)
  {
    && |mask| == |column| && lo <= i <= hi <= |mask| && quota <= |current|
    && next == start + |Selected(mask, lo, i)|
    && quota == next + |Selected(mask, i, hi)|
    && Holds(current, start, column, Selected(mask, lo, i))
  }

  /** One step may store anywhere at or after `next`, as long as the cells it passes are right. */
  lemma WalkStep(column: seq<Cell>, mask: seq<bool>, current: seq<Cell>,
                 lo: nat, hi: nat, i: nat, start: nat, next: nat, quota: nat, more: Log<Cell>, j: nat)
    requires WalkState(column, mask, current, lo, hi, i, start, next, quota)
    requires i <= j <= hi
    requires Within(more, next, quota) && InBuffer(more, |current|)
    requires Holds(Apply(current, more), next, column, Selected(mask, i, j))
    ensures WalkState(column, mask, Apply(current, more), lo, hi, j, start, next + |Selected(mask, i, j)|, quota)
  {
    SelectedSplit(mask, lo, i, j);
    SelectedSplit(mask, i, j, hi);
    HoldsBelow(current, more, start, next, quota, column, Selected(mask, lo, i));
    HoldsAppend(Apply(current, more), start, column, Selected(mask, lo, i), Selected(mask, i, j));
  }

  predicate AllBits(mask: seq<bool>, i: nat, bit: bool)
    requires i + 8 <= |mask|
  {
    forall k :: i <= k < i + 8 ==> mask[k] == bit
  }

  /** Extend a run of all-one words. */
  method RunEnd(mask: seq<bool>, i: nat, segEnd: nat) returns (j: nat)
    requires i + 8 <= segEnd <= |mask| && AllBits(mask, i, true)
    ensures i + 8 <= j <= segEnd
    ensures forall k :: i <= k < j ==> mask[k]
  {
    j := i + 8;
    while j + 8 <= segEnd && AllBits(mask, j, true)
      invariant i + 8 <= j <= segEnd
      invariant forall k :: i <= k < j ==> mask[k]
    {
      j := j + 8;
    }
  }

  /** `memcpy` of a run of selected rows of one segment. */
  method CopyRun(mem: Memory, ghost column: seq<Cell>, t: Table, itemsize: nat, s: nat, i: nat, j: nat,
                 out: array<Cell>, next: nat)
    returns (ghost log: Log<Cell>)
    requires Represents(mem, t, itemsize, column)
    requires i < j && InSegment(t.starts, s, i) && j <= t.starts[s + 1]
    requires next + (j - i) <= out.Length
    modifies out
    ensures InBuffer(log, out.Length) && Within(log, next, next + (j - i))
    ensures out[..] == Apply(old(out[..]), log)
    ensures Holds(out[..], next, column, RowRange(i, j))
  {
    assert j <= |column| by {
      assert t.starts[s + 1] <= t.starts[|t.base|];
    }
    ghost var run := column[i..j];
    forall row | i <= row < j ensures Load(mem, t.base[s] + row * itemsize, itemsize) == run[row - i] {
      RowInColumn(mem, t, itemsize, column, s, row);
    }
    forall k | 0 <= k < j - i {
      out[next + k] := Load(mem, t.base[s] + (i + k) * itemsize, itemsize);
    }
    log := BlockLog(next, run);
    ApplyBlock(old(out[..]), next, run);
    assert out[..] == old(out[..])[..next] + run + old(out[..])[next + |run|..];
  }

  /** The branchless word: store eight candidates, keep the selected ones. */
  method CompactWord(mem: Memory, ghost column: seq<Cell>, mask: seq<bool>, t: Table, itemsize: nat, s: nat,
                     i: nat, out: array<Cell>, next: nat)
    returns (ghost log: Log<Cell>, after: nat)
    requires Represents(mem, t, itemsize, column) && |mask| == |column| && i + 8 <= |mask|
    requires InSegment(t.starts, s, i) && InSegment(t.starts, s, i + 7)
    requires next + 8 <= out.Length
    modifies out
    ensures InBuffer(log, out.Length) && Within(log, next, next + 8)
    ensures out[..] == Apply(old(out[..]), log)
    ensures after == next + |Selected(mask, i, i + 8)|
    ensures Holds(out[..], next, column, Selected(mask, i, i + 8))
  {
    log, after := [], next;
    for row := i to i + 8
      invariant after == next + |Selected(mask, i, row)|
      invariant InBuffer(log, out.Length) && Within(log, next, next + 8)
      invariant out[..] == Apply(old(out[..]), log)
      invariant Holds(out[..], next, column, Selected(mask, i, row))
    {
      log, after := CompactBit(mem, column, mask, t, itemsize, s, i, row, out, next, after, old(out[..]), log);
    }
  }

  /** Store candidate `row`, whether selected or not, and step past it only if it is. */
  method CompactBit(mem: Memory, ghost column: seq<Cell>, mask: seq<bool>, t: Table, itemsize: nat, s: nat,
                    ghost first: nat, row: nat, out: array<Cell>, ghost next: nat, at: nat,
                    ghost buffer: seq<Cell>, ghost before: Log<Cell>)
    returns (ghost log: Log<Cell>, after: nat)
    requires Represents(mem, t, itemsize, column) && InSegment(t.starts, s, row)
    requires |mask| == |column| && first <= row < |mask|
    requires |buffer| == out.Length && InBuffer(before, |buffer|) && out[..] == Apply(buffer, before)
    requires at == next + |Selected(mask, first, row)| < out.Length
    requires Holds(out[..], next, column, Selected(mask, first, row))
    modifies out
    ensures log == before + [Write(at, column[row])]
    ensures InBuffer(log, out.Length) && out[..] == Apply(buffer, log)
    ensures after == next + |Selected(mask, first, row + 1)|
    ensures Holds(out[..], next, column, Selected(mask, first, row + 1))
  {
    log := StoreRow(mem, column, t, itemsize, s, row, out, at, buffer, before);
    KeepHeld(old(out[..]), out[..], next, column, Selected(mask, first, row), at, row);
    after := at + (if mask[row] then 1 else 0);
  }

  /** Storing candidate `row` behind the held cells keeps them and holds `row` as well. */
  lemma KeepHeld(before: seq<Cell>, now: seq<Cell>, at: nat, column: seq<Cell>, rows: seq<int>, next: nat, row: nat)
    requires Holds(before, at, column, rows) && next == at + |rows| < |before| && row < |column|
    requires now == before[next := column[row]]
    ensures Holds(now, at, column, rows)
    ensures Holds(now, at, column, rows + [row])
  {
    forall k | 0 <= k < |rows| ensures now[at + k] == column[rows[k]] {
      assert now[at + k] == before[at + k];
    }
  }

  /** One chunk: clip to segments, then words, then single rows. */
  method MaskWalk(mem: Memory, ghost column: seq<Cell>, mask: seq<bool>, out: array<Cell>, t: Table,
                  itemsize: nat, lo: nat, hi: nat, start: nat, quota: nat)
    returns (ghost log: Log<Cell>)
    requires Represents(mem, t, itemsize, column) && |mask| == |column| && lo <= hi <= |mask|
    requires start + |Selected(mask, lo, hi)| == quota <= out.Length
    modifies out
    ensures InBuffer(log, out.Length) && Within(log, start, quota)
    ensures out[..] == Apply(old(out[..]), log)
    ensures Holds(out[..], start, column, Selected(mask, lo, hi))
  {
    log := [];
    if lo >= hi {
      return;
    }
    var s := FindSegment(t, lo);
    var i, next := lo, start;
    while i < hi
      invariant lo <= i <= hi && s < |t.base| && (i < hi ==> t.starts[s] <= i)
      invariant WalkState(column, mask, out[..], lo, hi, i, start, next, quota)
      invariant InBuffer(log, out.Length) && Within(log, start, quota)
      invariant out[..] == Apply(old(out[..]), log)
    {
      s := SegmentFrom(t, s, i);
      ghost var more: Log<Cell>;
      ghost var before := out[..];
      var segEnd := Min(hi, t.starts[s + 1]);
      ghost var from := i;
      i, next, more := SegmentWalk(mem, column, mask, out, t, itemsize, s, lo, hi, i, segEnd, start, next, quota);
      ApplyAppend(old(out[..]), log, more);
      WithinAppend(log, more, start, quota);
      log := log + more;
    }
  }

  lemma WithinAppend(a: Log<Cell>, b: Log<Cell>, lo: int, hi: int)
    requires Within(a, lo, hi) && Within(b, lo, hi)
    ensures Within(a + b, lo, hi)
  {
  }

  /** The monotone segment cursor of a chunk. */
  method SegmentFrom(t: Table, from: nat, row: nat) returns (s: nat)
    requires |t.starts| == |t.base| + 1 && ValidStarts(t.starts)
    requires from < |t.base| && t.starts[from] <= row < t.starts[|t.base|]
    ensures InSegment(t.starts, s, row) && from <= s
  {
    s := from;
    while row >= t.starts[s + 1]
      invariant from <= s < |t.base| && t.starts[s] <= row
      decreases |t.base| - s
    {
      s := s + 1;
    }
  }

  /** The rows of one chunk that lie in segment `s`. */
  method SegmentWalk(mem: Memory, ghost column: seq<Cell>, mask: seq<bool>, out: array<Cell>, t: Table,
                     itemsize: nat, s: nat, ghost lo: nat, ghost hi: nat, begin: nat, segEnd: nat,
                     ghost start: nat, begun: nat, quota: nat)
    returns (i: nat, next: nat, ghost log: Log<Cell>)
    requires Represents(mem, t, itemsize, column)
    requires InSegment(t.starts, s, begin) && begin < segEnd <= hi && segEnd <= t.starts[s + 1]
    requires WalkState(column, mask, out[..], lo, hi, begin, start, begun, quota)
    modifies out
    ensures i == segEnd
    ensures WalkState(column, mask, out[..], lo, hi, i, start, next, quota)
    ensures InBuffer(log, out.Length) && Within(log, start, quota)
    ensures out[..] == Apply(old(out[..]), log)
  {
    i, next, log := begin, begun, [];
    while i < segEnd
      invariant begin <= i <= segEnd
      invariant WalkState(column, mask, out[..], lo, hi, i, start, next, quota)
      invariant InBuffer(log, out.Length) && Within(log, start, quota)
      invariant out[..] == Apply(old(out[..]), log)
    {
      ghost var more: Log<Cell>;
      i, next, more := MaskStep(mem, column, mask, out, t, itemsize, s, lo, hi, i, segEnd, start, next, quota);
      ApplyAppend(old(out[..]), log, more);
      WithinAppend(log, more, start, quota);
      log := log + more;
    }
  }

  /** One iteration of the inner loop: skip, copy a run, compact a word, or one row. */
  method MaskStep(mem: Memory, ghost column: seq<Cell>, mask: seq<bool>, out: array<Cell>, t: Table,
                  itemsize: nat, s: nat, ghost lo: nat, ghost hi: nat, i: nat, segEnd: nat,
                  ghost start: nat, next: nat, quota: nat)
    returns (j: nat, after: nat, ghost log: Log<Cell>)
    requires Represents(mem, t, itemsize, column)
    requires InSegment(t.starts, s, i) && i < segEnd <= hi && segEnd <= t.starts[s + 1]
    requires WalkState(column, mask, out[..], lo, hi, i, start, next, quota)
    modifies out
    ensures i < j <= segEnd
    ensures WalkState(column, mask, out[..], lo, hi, j, start, after, quota)
    ensures InBuffer(log, out.Length) && Within(log, start, quota)
    ensures out[..] == Apply(old(out[..]), log)
  {
    if i + 8 <= segEnd {
      if AllBits(mask, i, false) {
        j, after, log := i + 8, next, [];
        SkipStep(column, mask, out[..], lo, hi, i, start, next, quota);
        return;
      }
      if AllBits(mask, i, true) {
        j, after, log := RunStep(mem, column, mask, out, t, itemsize, s, lo, hi, i, segEnd, start, next, quota);
        return;
      }
      if next + 8 <= quota {
        j, after, log := WordStep(mem, column, mask, out, t, itemsize, s, lo, hi, i, start, next, quota);
        return;
      }
    }
    j, after, log := RowStep(mem, column, mask, out, t, itemsize, s, lo, hi, i, start, next, quota);
  }

  lemma SkipStep(column: seq<Cell>, mask: seq<bool>, current: seq<Cell>,
                 lo: nat, hi: nat, i: nat, start: nat, next: nat, quota: nat)
    requires WalkState(column, mask, current, lo, hi, i, start, next, quota)
    requires i + 8 <= hi && AllBits(mask, i, false)
    ensures WalkState(column, mask, current, lo, hi, i + 8, start, next, quota)
  {
    SelectedUniform(mask, i, i + 8, false);
    WalkStep(column, mask, current, lo, hi, i, start, next, quota, [], i + 8);
  }

  method WordStep(mem: Memory, ghost column: seq<Cell>, mask: seq<bool>, out: array<Cell>, t: Table,
                  itemsize: nat, s: nat, ghost lo: nat, ghost hi: nat, i: nat,
                  ghost start: nat, next: nat, quota: nat)
    returns (j: nat, after: nat, ghost log: Log<Cell>)
    requires Represents(mem, t, itemsize, column)
    requires InSegment(t.starts, s, i) && i + 8 <= hi && i + 8 <= t.starts[s + 1]
    requires WalkState(column, mask, out[..], lo, hi, i, start, next, quota) && next + 8 <= quota
    modifies out
    ensures j == i + 8
    ensures WalkState(column, mask, out[..], lo, hi, j, start, after, quota)
    ensures InBuffer(log, out.Length) && Within(log, start, quota)
    ensures out[..] == Apply(old(out[..]), log)
  {
    log, after := CompactWord(mem, column, mask, t, itemsize, s, i, out, next);
    j := i + 8;
    WalkStep(column, mask, old(out[..]), lo, hi, i, start, next, quota, log, j);
  }

  method RunStep(mem: Memory, ghost column: seq<Cell>, mask: seq<bool>, out: array<Cell>, t: Table,
                 itemsize: nat, s: nat, ghost lo: nat, ghost hi: nat, i: nat, segEnd: nat,
                 ghost start: nat, next: nat, quota: nat)
    returns (j: nat, after: nat, ghost log: Log<Cell>)
    requires Represents(mem, t, itemsize, column)
    requires InSegment(t.starts, s, i) && i + 8 <= segEnd <= hi && segEnd <= t.starts[s + 1]
    requires WalkState(column, mask, out[..], lo, hi, i, start, next, quota)
    requires AllBits(mask, i, true)
    modifies out
    ensures i < j <= segEnd
    ensures WalkState(column, mask, out[..], lo, hi, j, start, after, quota)
    ensures InBuffer(log, out.Length) && Within(log, start, quota)
    ensures out[..] == Apply(old(out[..]), log)
  {
    ghost var before := out[..];
    j := RunEnd(mask, i, segEnd);
    SelectedUniform(mask, i, j, true);
    SelectedSplit(mask, i, j, hi);
    log := CopyRun(mem, column, t, itemsize, s, i, j, out, next);
    after := next + (j - i);
    WalkStep(column, mask, before, lo, hi, i, start, next, quota, log, j);
  }

  lemma OneRow(mask: seq<bool>, i: nat, hi: nat)
    requires i < hi <= |mask|
    ensures Selected(mask, i, i + 1) == if mask[i] then [i as int] else []
    ensures mask[i] ==> |Selected(mask, i, hi)| >= 1
  {
    SelectedFirst(mask, i, hi);
    assert Selected(mask, i, i) == [];
    assert Selected(mask, i, i + 1) == Selected(mask, i, i) + (if mask[i] then [i as int] else []);
  }

  lemma RowTaken(column: seq<Cell>, mask: seq<bool>, current: seq<Cell>, log: Log<Cell>,
                 lo: nat, hi: nat, i: nat, start: nat, next: nat, quota: nat)
    requires WalkState(column, mask, current, lo, hi, i, start, next, quota) && i < hi && mask[i]
    requires next < quota && log == [Write(next, column[i])] && InBuffer(log, |current|)
    ensures Within(log, start, quota)
    ensures WalkState(column, mask, Apply(current, log), lo, hi, i + 1, start, next + 1, quota)
  {
    OneRow(mask, i, hi);
    ApplyOne(current, [], log[0]);
    assert [] + log == log;
    assert Holds(Apply(current, log), next, column, [i]);
    WalkStep(column, mask, current, lo, hi, i, start, next, quota, log, i + 1);
  }

  lemma RowSkipped(column: seq<Cell>, mask: seq<bool>, current: seq<Cell>,
                   lo: nat, hi: nat, i: nat, start: nat, next: nat, quota: nat)
    requires WalkState(column, mask, current, lo, hi, i, start, next, quota) && i < hi && !mask[i]
    ensures WalkState(column, mask, current, lo, hi, i + 1, start, next, quota)
  {
    OneRow(mask, i, hi);
    WalkStep(column, mask, current, lo, hi, i, start, next, quota, [], i + 1);
  }

  method RowStep(mem: Memory, ghost column: seq<Cell>, mask: seq<bool>, out: array<Cell>, t: Table,
                 itemsize: nat, s: nat, ghost lo: nat, ghost hi: nat, i: nat,
                 ghost start: nat, next: nat, quota: nat)
    returns (j: nat, after: nat, ghost log: Log<Cell>)
    requires Represents(mem, t, itemsize, column) && InSegment(t.starts, s, i) && i < hi
    requires WalkState(column, mask, out[..], lo, hi, i, start, next, quota)
    modifies out
    ensures j == i + 1
    ensures WalkState(column, mask, out[..], lo, hi, j, start, after, quota)
    ensures InBuffer(log, out.Length) && Within(log, start, quota)
    ensures out[..] == Apply(old(out[..]), log)
  {
    j, after, log := i + 1, next, [];
    OneRow(mask, i, hi);
    if mask[i] {
      log := StoreRow(mem, column, t, itemsize, s, i, out, next, out[..], []);
      assert log == [Write(next, column[i])];
      RowTaken(column, mask, old(out[..]), log, lo, hi, i, start, next, quota);
      after := next + 1;
    } else {
      RowSkipped(column, mask, out[..], lo, hi, i, start, next, quota);
    }
  }

  /** Chunk `u` has put its cells at its own offset. */
  ghost predicate ChunkHeld(buffer: seq<Cell>, column: seq<Cell>, mask: seq<bool>, offsets: seq<int>,
                            bounds: seq<int>, u: nat)
  {
    && u + 1 < |bounds| && u < |offsets| && 0 <= offsets[u] && 0 <= bounds[u] && 0 <= bounds[u + 1] <= |mask|
    && Holds(buffer, offsets[u], column, Selected(mask, bounds[u], bounds[u + 1]))
  }

  /** Another worker's stores leave a finished chunk's cells alone. */
  lemma HoldsElsewhere(current: seq<Cell>, log: Log<Cell>, offsets: seq<int>, u: nat, v: nat,
                       column: seq<Cell>, rows: seq<int>)
    requires NonDecreasing(offsets) && u + 1 < |offsets| && v + 1 < |offsets| && u != v && 0 <= offsets[v]
    requires InBuffer(log, |current|) && Within(log, offsets[u], offsets[u + 1])
    requires Holds(current, offsets[v], column, rows) && offsets[v + 1] == offsets[v] + |rows|
    ensures Holds(Apply(current, log), offsets[v], column, rows)
  {
    forall k | 0 <= k < |rows| ensures Apply(current, log)[offsets[v] + k] == column[rows[k]] {
      WithinAt(log, offsets[u], offsets[u + 1], offsets[v] + k);
      OneWindow(offsets, u, v, offsets[v] + k);
      ApplyUntouched(current, log, offsets[v] + k);
    }
  }

  lemma HeldElsewhere(current: seq<Cell>, log: Log<Cell>, column: seq<Cell>, mask: seq<bool>, offsets: seq<int>,
                      bounds: seq<int>, u: nat, v: nat)
    requires ChunkOffsets(offsets, mask, bounds) && u + 1 < |bounds| && u != v
    requires InBuffer(log, |current|) && Within(log, offsets[u], offsets[u + 1])
    requires ChunkHeld(current, column, mask, offsets, bounds, v)
    ensures ChunkHeld(Apply(current, log), column, mask, offsets, bounds, v)
  {
    ChunkOffsetsStep(offsets, mask, bounds, v);
    ChunkOffsetsMonotone(offsets, mask, bounds);
    HoldsElsewhere(current, log, offsets, u, v, column, Selected(mask, bounds[v], bounds[v + 1]));
  }

  /** The chunks' filters, at their offsets, make up the filter of the whole mask. */
  lemma {:induction false} ChunksHeld(buffer: seq<Cell>, column: seq<Cell>, mask: seq<bool>, offsets: seq<int>,
                                      bounds: seq<int>, t: nat)
    requires ChunkOffsets(offsets, mask, bounds) && t < |bounds|
    requires forall u: nat :: u < t ==> ChunkHeld(buffer, column, mask, offsets, bounds, u)
    ensures Holds(buffer, 0, column, Selected(mask, 0, bounds[t]))
  {
    if t > 0 {
      ChunksHeld(buffer, column, mask, offsets, bounds, t - 1);
      ChunkOffsetsStep(offsets, mask, bounds, t - 1);
      assert ChunkHeld(buffer, column, mask, offsets, bounds, t - 1);
      HoldsAppend(buffer, 0, column, Selected(mask, 0, bounds[t - 1]), Selected(mask, bounds[t - 1], bounds[t]));
    }
  }

  /** Pass 2 over all chunks, in any order. */
  method WalkChunks(mem: Memory, ghost column: seq<Cell>, mask: seq<bool>, out: array<Cell>, t: Table,
                    itemsize: nat, workers: nat, order: seq<int>, offsets: seq<int>)
    returns (ghost done: map<nat, Log<Cell>>)
    requires Represents(mem, t, itemsize, column) && |mask| == |column|
    requires workers > 0 && IsPermutation(order, workers)
    requires ChunkOffsets(offsets, mask, ChunkBounds(|mask|, workers)) && offsets[workers] == out.Length
    modifies out
    ensures forall u: nat :: u in done <==> u < workers
    ensures Progress(old(out[..]), done, out[..]) && Windowed(done, offsets)
    ensures forall u: nat :: u < workers ==>
              ChunkHeld(out[..], column, mask, offsets, ChunkBounds(|mask|, workers), u)
  {
    var n := |mask|;
    ghost var bounds := ChunkBounds(n, workers);
    ChunkOffsetsMonotone(offsets, mask, bounds);
    done := map[];
    for k := 0 to workers
      invariant forall u: nat :: u in done <==> u in order[..k]
      invariant Progress(old(out[..]), done, out[..]) && Windowed(done, offsets)
      invariant forall u: nat :: u in done ==> ChunkHeld(out[..], column, mask, offsets, bounds, u)
    {
      var u: nat := order[k];
      assert u !in done;
      ChunkOffsetsStep(offsets, mask, bounds, u);
      ghost var current := out[..];
      assert offsets[u + 1] <= offsets[workers];
      ghost var log := MaskWalk(mem, column, mask, out, t, itemsize, ChunkStart(n, workers, u),
                                ChunkStart(n, workers, u + 1), offsets[u], offsets[u + 1]);
      WindowedStep(old(out[..]), done, current, u, log, offsets);
      forall v: nat | v in done ensures ChunkHeld(out[..], column, mask, offsets, bounds, v) {
        HeldElsewhere(current, log, column, mask, offsets, bounds, u, v);
      }
      done := done[u := log];
    }
    AllRun(order, workers);
  }

  /**
   `gather_segment_mask`: 0 when the buffer is the in-order filter of the column, 1 with
   the buffer untouched when its length is not the number of selected rows.
   */
  method GatherSegmentMask(mem: Memory, ghost column: seq<Cell>, mask: seq<bool>, out: array<Cell>, t: Table,
                           itemsize: nat, workers: nat, order: seq<int>)
    returns (status: int, ghost logs: seq<Log<Cell>>)
    requires Represents(mem, t, itemsize, column) && |mask| == |column|
    requires workers > 0 && IsPermutation(order, workers)
    modifies out
    ensures status == if out.Length == |Selected(mask, 0, |mask|)| then 0 else 1
    ensures status == 1 ==> out[..] == old(out[..])
    ensures status == 0 ==>
              InRange(Selected(mask, 0, |mask|), |column|) && out[..] == Pick(column, Selected(mask, 0, |mask|))
    ensures status == 0 ==> ScheduleFree(old(out[..]), logs, out[..])
  {
    ghost var bounds := ChunkBounds(|mask|, workers);
    ChunksCover(|mask|, workers);
    var offsets := CountChunks(mask, workers);
    if offsets[workers] != out.Length {
      return 1, [];
    }
    ghost var done := WalkChunks(mem, column, mask, out, t, itemsize, workers, order, offsets);
    ChunksHeld(out[..], column, mask, offsets, bounds, workers);
    ChunkOffsetsMonotone(offsets, mask, bounds);
    WindowedDone(old(out[..]), done, workers, out[..], offsets);
    return 0, LogsOf(done, workers);
  }
}
