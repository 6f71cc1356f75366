/**
 Row selectors and what they select. Every selector denotes a list of row numbers, in
 output order; reading a column means picking those rows (`Sequences.Pick`).
 */
module Selectors {
  import opened Sequences
  import opened MagicDivide
  import opened MaskKernel

  datatype Selector =
    | Whole
    | Scalar(row: int)
    | Slice(start: Option<int>, stop: Option<int>, step: Option<int>)
    | Fancy(rows: seq<int>)
    | Mask(mask: seq<bool>)

  datatype Indices = Indices(start: int, stop: int, step: int)

  function StepOf(sel: Selector): int
    requires sel.Slice?
  {
    match sel.step case None => 1 case Some(k) => k
  }

  /** `slice.indices(n)`: defaults, negative wrap-around, clamping. */
  function SliceIndices(sel: Selector, n: nat): (r: Indices)
    requires sel.Slice? && StepOf(sel) != 0
    ensures r.step == StepOf(sel)
    ensures r.step > 0 ==> 0 <= r.start <= n && 0 <= r.stop <= n
    ensures r.step < 0 ==> -1 <= r.start < n && -1 <= r.stop < n
  {
    var step := StepOf(sel);
    var lower := if step > 0 then 0 else -1;
    var upper := if step > 0 then n else n - 1;
    Indices(Clamp(sel.start, if step > 0 then lower else upper, lower, upper, n),
            Clamp(sel.stop, if step > 0 then upper else lower, lower, upper, n),
            step)
  }

  function Clamp(bound: Option<int>, default: int, lower: int, upper: int, n: nat): int {
    match bound
    case None => default
    case Some(v) => if v < 0 then Max(v + n, lower) else Min(v, upper)
  }

  function CeilDiv(a: int, b: int): int
    requires b > 0
  {
    (a + b - 1) / b
  }

  lemma CeilDivFacts(a: int, b: int)
    requires b > 0
    ensures CeilDiv(a, b) * b - b < a <= CeilDiv(a, b) * b
  {
    DivFacts(a + b - 1, b);
  }

  lemma CeilDivUnique(a: int, b: int, c: int)
    requires b > 0 && c * b - b < a <= c * b
    ensures CeilDiv(a, b) == c
  {
    DivBounds(a + b - 1, b, c);
  }

  /** `len(range(start, stop, step))`. */
  function RangeLength(start: int, stop: int, step: int): (n: int)
    requires step != 0
    ensures n >= 0
  {
    if step > 0 then
      if start < stop then CeilDiv(stop - start, step) else 0
    else
      if start > stop then CeilDiv(start - stop, -step) else 0
  }

  function Range(start: int, stop: int, step: int): (rows: seq<int>)
    requires step != 0
  {
    seq(RangeLength(start, stop, step), k => start + k * step)
  }

  /** The rows of a range lie between its start and its stop. */
  lemma RangeWithin(start: int, stop: int, step: int)
    requires step != 0
    ensures forall k :: 0 <= k < |Range(start, stop, step)| ==>
              if step > 0 then start <= Range(start, stop, step)[k] < stop
              else stop < Range(start, stop, step)[k] <= start
  {
    var n := RangeLength(start, stop, step);
    forall k | 0 <= k < n
      ensures if step > 0 then start <= start + k * step < stop else stop < start + k * step <= start
    {
      if step > 0 {
        CeilDivFacts(stop - start, step);
        MulMonotone(k, n - 1, step);
        MulAdd(n - 1, 1, step);
        MulMonotone(0, k, step);
      } else {
        CeilDivFacts(start - stop, -step);
        MulMonotone(k, n - 1, -step);
        MulAdd(n - 1, 1, -step);
        MulMonotone(0, k, -step);
        assert k * step == -(k * -step);
      }
    }
  }

  /** Step `k` of a walk is the one `ahead` of its start exactly if `ahead` is `k` whole steps. */
  lemma WholeSteps(ahead: int, size: int, span: int)
    requires size > 0
    ensures 0 <= ahead < span && ahead % size == 0 ==>
              0 <= ahead / size < CeilDiv(span, size) && ahead / size * size == ahead
  {
    CeilDivFacts(span, size);
    if ahead / size >= CeilDiv(span, size) {
      MulMonotone(CeilDiv(span, size), ahead / size, size);
    }
  }

  lemma Multiple(k: int, size: int)
    requires size > 0
    ensures (k * size) % size == 0
  {
    DivBounds(k * size, size, k);
  }

  /** The members of a range: between its ends and a whole number of steps from its start. */
  lemma RangeMembers(start: int, stop: int, step: int, row: int)
    requires step != 0
    ensures step > 0 ==> (row in Range(start, stop, step) <==> start <= row < stop && (row - start) % step == 0)
    ensures step < 0 ==> (row in Range(start, stop, step) <==> stop < row <= start && (start - row) % -step == 0)
  {
    if row in Range(start, stop, step) {
      RangeOnly(start, stop, step, row);
    }
    if step > 0 {
      RangeHasUp(start, stop, step, row);
    } else {
      RangeHasDown(start, stop, step, row);
    }
  }

  lemma RangeOnly(start: int, stop: int, step: int, row: int)
    requires step != 0 && row in Range(start, stop, step)
    ensures step > 0 ==> start <= row < stop && (row - start) % step == 0
    ensures step < 0 ==> stop < row <= start && (start - row) % -step == 0
  {
    RangeWithin(start, stop, step);
    var k :| 0 <= k < |Range(start, stop, step)| && Range(start, stop, step)[k] == row;
    assert row == start + k * step;
    if step > 0 {
      Multiple(k, step);
    } else {
      Multiple(k, -step);
      assert k * -step == -(k * step);
    }
  }

  lemma RangeHasUp(start: int, stop: int, step: int, row: int)
    requires step > 0
    ensures start <= row < stop && (row - start) % step == 0 ==> row in Range(start, stop, step)
  {
    if start <= row < stop && (row - start) % step == 0 {
      var k := (row - start) / step;
      WholeSteps(row - start, step, stop - start);
      assert 0 <= k < RangeLength(start, stop, step);
      assert Range(start, stop, step)[k] == row;
    }
  }

  lemma RangeHasDown(start: int, stop: int, step: int, row: int)
    requires step < 0
    ensures stop < row <= start && (start - row) % -step == 0 ==> row in Range(start, stop, step)
  {
    if stop < row <= start && (start - row) % -step == 0 {
      var k := (start - row) / -step;
      WholeSteps(start - row, -step, start - stop);
      assert 0 <= k < RangeLength(start, stop, step);
      assert k * -step == -(k * step);
      assert Range(start, stop, step)[k] == row;
    }
  }

  /** Ranges ascend or descend with their step. */
  lemma RangeMonotone(start: int, stop: int, step: int)
    requires step != 0
    ensures step > 0 ==> Ascends(Range(start, stop, step))
    ensures step < 0 ==> Falls(Range(start, stop, step))
  {
    forall i, j | 0 <= i < j < |Range(start, stop, step)|
      ensures if step > 0 then start + i * step < start + j * step else start + j * step < start + i * step
    {
      CancelLess(i, j, if step > 0 then step else -step);
      assert step < 0 ==> i * step == -(i * -step) && j * step == -(j * -step);
    }
  }

  /** The first member of `start, start + step, ...` that is at least `bound`. */
  function FirstAtLeast(start: int, bound: int, step: int): int
    requires step > 0
  {
    if start >= bound then start else start + CeilDiv(bound - start, step) * step
  }

  /** A forward range splits at any bound, and the second half keeps the step's phase. */
  lemma RangeSplit(start: int, mid: int, end: int, step: int)
    requires step > 0 && mid <= end
    ensures Range(start, end, step) == Range(start, mid, step) + Range(FirstAtLeast(start, mid, step), end, step)
  {
    if start < mid {
      var k := CeilDiv(mid - start, step);
      var first := start + k * step;
      CeilDivFacts(mid - start, step);
      if first < end {
        var m := CeilDiv(end - first, step);
        CeilDivFacts(end - first, step);
        MulAdd(k, m, step);
        CeilDivUnique(end - start, step, k + m);
        assert RangeLength(start, end, step) == k + m;
        forall i | 0 <= i < m ensures start + (k + i) * step == first + i * step {
          MulAdd(k, i, step);
        }
      } else {
        CeilDivUnique(end - start, step, k);
      }
    } else {
      assert Range(start, mid, step) == [];
    }
  }

  lemma RangeShift(start: int, stop: int, step: int, amount: int)
    requires step > 0
    ensures Shift(Range(start, stop, step), amount) == Range(start + amount, stop + amount, step)
  {
  }

  // ---- what a selector selects ----

  /** What the view layer guarantees of a normalized selector over `n` rows. */
  predicate ValidSelector(sel: Selector, n: nat) {
    match sel
    case Whole => true
    case Scalar(row) => 0 <= row < n
    case Slice(_, _, _) => StepOf(sel) != 0
    case Fancy(rows) => InRange(rows, n)
    case Mask(mask) => |mask| == n
  }

  /** A unit-step slice whose start lies behind its stop; it selects nothing. */
  predicate BackwardRange(sel: Selector, n: nat)
    requires ValidSelector(sel, n)
  {
    sel.Slice? && StepOf(sel) == 1 && SliceIndices(sel, n).start > SliceIndices(sel, n).stop
  }

  /** The rows a selector denotes, in output order. */
  function Rows(sel: Selector, n: nat): seq<int>
    requires ValidSelector(sel, n)
  {
    match sel
    case Whole => RowRange(0, n)
    case Scalar(row) => [row]
    case Slice(_, _, _) => var i := SliceIndices(sel, n); Range(i.start, i.stop, i.step)
    case Fancy(rows) => rows
    case Mask(mask) => Selected(mask, 0, n)
  }

  lemma RowsInRange(sel: Selector, n: nat)
    requires ValidSelector(sel, n)
    ensures InRange(Rows(sel, n), n)
  {
    match sel
    case Whole =>
    case Scalar(_) =>
    case Fancy(_) =>
    case Slice(_, _, _) =>
      var i := SliceIndices(sel, n);
      RangeWithin(i.start, i.stop, i.step);
    case Mask(mask) =>
      SelectedExact(mask, 0, n);
  }

  // ---- the selected rows, in the caller's terms ----

  predicate Ascends(rows: seq<int>) {
    forall i, j :: 0 <= i < j < |rows| ==> rows[i] < rows[j]
  }

  predicate Falls(rows: seq<int>) {
    forall i, j :: 0 <= i < j < |rows| ==> rows[j] < rows[i]
  }

  /** Where a slice bound stands: a negative one counts from the end. */
  function Place(bound: int, n: nat): int {
    if bound < 0 then bound + n else bound
  }

  /** A slice takes the row: not before its start, before its stop, whole steps from the first row. */
  predicate Takes(start: Option<int>, stop: Option<int>, step: int, n: nat, row: int)
    requires step != 0
  {
    && 0 <= row < n
    && if step > 0 then
         && (start.Some? ==> Place(start.value, n) <= row)
         && (stop.Some? ==> row < Place(stop.value, n))
         && (row - if start.Some? then Max(Place(start.value, n), 0) else 0) % step == 0
       else
         && (start.Some? ==> row <= Place(start.value, n))
         && (stop.Some? ==> Place(stop.value, n) < row)
         && ((if start.Some? then Min(Place(start.value, n), n - 1) else n - 1) - row) % -step == 0
  }

  /** These rows, in this order, are what the selector asks for. */
  ghost predicate Asks(sel: Selector, n: nat, rows: seq<int>)
    requires ValidSelector(sel, n)
  {
    match sel
    case Whole => |rows| == n && forall k :: 0 <= k < n ==> rows[k] == k
    case Scalar(row) => rows == [row]
    case Fancy(list) => rows == list
    case Mask(mask) => Ascends(rows) && forall row :: row in rows <==> 0 <= row < n && mask[row]
    case Slice(start, stop, None) => Ascends(rows) && forall row :: row in rows <==> Takes(start, stop, 1, n, row)
    case Slice(start, stop, Some(step)) =>
      && (if step > 0 then Ascends(rows) else Falls(rows))
      && forall row :: row in rows <==> Takes(start, stop, step, n, row)
  }

  /** A slice selects exactly the rows it takes, ascending or descending with its step. */
  lemma SliceRows(sel: Selector, n: nat)
    requires sel.Slice? && StepOf(sel) != 0
    ensures forall row :: row in Rows(sel, n) <==> Takes(sel.start, sel.stop, StepOf(sel), n, row)
    ensures if StepOf(sel) > 0 then Ascends(Rows(sel, n)) else Falls(Rows(sel, n))
  {
    var i := SliceIndices(sel, n);
    RangeMonotone(i.start, i.stop, i.step);
    forall row ensures row in Rows(sel, n) <==> Takes(sel.start, sel.stop, StepOf(sel), n, row) {
      RangeMembers(i.start, i.stop, i.step, row);
    }
  }

  /** Every selector selects what it asks for. */
  lemma RowsAsked(sel: Selector, n: nat)
    requires ValidSelector(sel, n)
    ensures Asks(sel, n, Rows(sel, n))
  {
    match sel
    case Whole =>
    case Scalar(_) =>
    case Fancy(_) =>
    case Slice(_, _, _) => SliceRows(sel, n);
    case Mask(mask) => SelectedExact(mask, 0, n);
  }

  /** Two ascending lists of the same rows are one list, and so are two falling ones. */
  lemma {:induction false} SameList(a: seq<int>, b: seq<int>)
    requires (Ascends(a) && Ascends(b)) || (Falls(a) && Falls(b))
    requires forall row :: row in a <==> row in b
    ensures a == b
  {
    assert a != [] ==> a[0] in a && a[0] in b;
    assert b != [] ==> b[0] in b && b[0] in a;
    if a != [] && b != [] {
      var i :| 0 <= i < |b| && b[i] == a[0];
      var j :| 0 <= j < |a| && a[j] == b[0];
      assert a[0] == b[0];
      forall row ensures row in a[1..] <==> row in b[1..] {
        assert row in a <==> row == a[0] || row in a[1..];
        assert row in b <==> row == b[0] || row in b[1..];
      }
      SameList(a[1..], b[1..]);
      assert a == [a[0]] + a[1..] && b == [b[0]] + b[1..];
    }
  }

  /** What a selector asks for is one list of rows: the selected ones. */
  lemma RowsExactly(sel: Selector, n: nat, rows: seq<int>)
    requires ValidSelector(sel, n)
    ensures Asks(sel, n, rows) <==> rows == Rows(sel, n)
  {
    RowsAsked(sel, n);
    if Asks(sel, n, rows) {
      match sel
      case Whole =>
      case Scalar(_) =>
      case Fancy(_) =>
      case Slice(_, _, _) => SameList(rows, Rows(sel, n));
      case Mask(_) => SameList(rows, Rows(sel, n));
    }
  }

  /** A read of one column: the reference every route is compared with. */
  function Read<T>(column: seq<T>, sel: Selector): seq<T>
    requires ValidSelector(sel, |column|)
  {
    RowsInRange(sel, |column|);
    Pick(column, Rows(sel, |column|))
  }

  /** A read returns the column's cells at the rows that are asked for, one by one. */
  lemma ReadExactly<T>(column: seq<T>, sel: Selector, rows: seq<int>)
    requires ValidSelector(sel, |column|) && Asks(sel, |column|, rows)
    ensures InRange(rows, |column|) && |Read(column, sel)| == |rows|
    ensures forall k :: 0 <= k < |rows| ==> Read(column, sel)[k] == column[rows[k]]
  {
    RowsExactly(sel, |column|, rows);
    RowsInRange(sel, |column|);
  }

  /** The slices that a reader of several records cannot allocate: both bounds brought into the table. */
  lemma BackwardExactly(sel: Selector, n: nat)
    requires ValidSelector(sel, n)
    ensures BackwardRange(sel, n) <==>
            && sel.Slice?
            && (sel.step.None? || sel.step.value == 1)
            && var first := if sel.start.Some? then Place(sel.start.value, n) else 0;
               var last := if sel.stop.Some? then Place(sel.stop.value, n) else n;
               Min(Max(last, 0), n) < Min(Max(first, 0), n)
  {
    if sel.Slice? {
      assert StepOf(sel) == 1 <==> sel.step.None? || sel.step.value == 1;
    }
  }

  // ---- the sortedness gate ----

  const SAMPLE_MIN_SIZE := 32768
  const SAMPLES := 16

  /** Adjacent pair `i` descends. */
  predicate Descends(indices: seq<int>, i: int) {
    0 <= i < |indices| - 1 && indices[i + 1] < indices[i]
  }

  /** `_indices_are_sorted`: sampled pairs may reject, only the full pass accepts. */
  function IndicesAreSorted(indices: seq<int>): bool {
    var n := |indices|;
    if n <= 1 then true
    else if n >= SAMPLE_MIN_SIZE && exists k :: 0 <= k < SAMPLES && Descends(indices, SamplePosition(k, n)) then false
    else forall i :: 0 <= i < n - 1 ==> !Descends(indices, i)
  }

  /** `(linspace(0, 1, 16) * (n - 2)).astype(int64)`. */
  function SamplePosition(k: nat, n: int): int {
    (k * (n - 2)) / (SAMPLES - 1)
  }

  /** The gate equals the full test, whatever the sample hits. */
  lemma IndicesAreSortedExact(indices: seq<int>)
    ensures IndicesAreSorted(indices) <==> NonDecreasing(indices)
    ensures |indices| >= 2 ==>
              && (forall k :: 0 <= k < SAMPLES ==> 0 <= SamplePosition(k, |indices|) <= |indices| - 2)
              && SamplePosition(0, |indices|) == 0 && SamplePosition(15, |indices|) == |indices| - 2
  {
    if |indices| >= 2 {
      var last := |indices| - 2;
      forall k | 0 <= k < SAMPLES ensures 0 <= SamplePosition(k, |indices|) <= last {
        MulMonotone(k, SAMPLES - 1, last);
        MulMonotone(0, k, last);
      }
    }
    if NonDecreasing(indices) {
      assert forall i :: 0 <= i < |indices| - 1 ==> !Descends(indices, i);
    }
    if IndicesAreSorted(indices) {
      forall i, j | 0 <= i <= j < |indices| ensures indices[i] <= indices[j] {
        AdjacentSorted(indices, i, j);
      }
    }
  }

  lemma {:induction false} AdjacentSorted(indices: seq<int>, i: nat, j: nat)
    requires forall k :: 0 <= k < |indices| - 1 ==> !Descends(indices, k)
    requires i <= j < |indices|
    ensures indices[i] <= indices[j]
    decreases j
  {
    if i < j {
      AdjacentSorted(indices, i, j - 1);
      assert !Descends(indices, j - 1);
    }
  }
}
