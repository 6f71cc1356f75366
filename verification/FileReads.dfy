/**
 Reads of one file: the zero-copy view, the multi-record kernels (range copy, strided
 walk, uniform-record gather), and the dispatch of a reader's copying gather over them.
 */
module FileReads {
  import opened Sequences
  import opened MagicDivide
  import opened Schedule
  import opened Segments
  import opened MaskKernel
  import opened Selectors
  import opened Files

  // ---- how a read fails ----

  /**
   `NoExtension` is the failed import of the compiled module, `BackwardSlice` the refusal to
   allocate a negative number of rows, `NoTables` the first element of an empty list of tables,
   `NoMapping` the file mapping that `close` has taken away.
   */
  datatype Error =
    | ClosedDataset | UnknownColumn | ClosedReader | NoExtension | BackwardSlice | NoTables | NoMapping

  datatype Outcome<+T> = Done(value: T) | Failed(error: Error) {
    function Failure(): Option<Error> {
      match this case Done(_) => None case Failed(error) => Some(error)
    }
  }

  /** What stops a reader's copying gather of any selector: it is closed, or has to import kernels that are absent. */
  function Trouble(f: File, closed: bool, cppAvailable: bool): Option<Error> {
    if closed then Some(ClosedReader)
    else if |f.records| > 1 && !cppAvailable then Some(NoExtension)
    else None
  }

  function Troubles(files: seq<File>, closed: seq<bool>, cppAvailable: bool): seq<Option<Error>>
    requires |closed| == |files|
  {
    seq(|files|, k requires 0 <= k < |files| => Trouble(files[k], closed[k], cppAvailable))
  }

  // ---- zero-copy views ----

  /** `count` cells, `stride` bytes apart. */
  datatype View = View(address: int, count: nat, stride: int)

  function ViewCells(mem: Memory, v: View, width: nat): seq<Cell> {
    seq(v.count, k => Load(mem, v.address + k * v.stride, width))
  }

  /** Where the column of a file with at most one record begins. */
  function SourceAddress(f: File, c: nat): int
    requires c < |f.columns| && |f.records| <= 1
  {
    if f.records == [] then f.base else BlockAddress(f, c, 0)
  }

  /** The cells of a whole column, of one row, or of a slice, seen from one contiguous block. */
  function SourceView(source: int, width: nat, n: nat, sub: Selector): View
    requires ValidSelector(sub, n) && !sub.Fancy? && !sub.Mask?
  {
    match sub
    case Whole => View(source, n, width)
    case Scalar(row) => View(source + row * width, 1, width)
    case Slice(_, _, _) =>
      var i := SliceIndices(sub, n);
      View(source + i.start * width, RangeLength(i.start, i.stop, i.step), i.step * width)
  }

  /** `_view_one` of a child: single-record files, native dtype, no fancy or mask selector. */
  function ViewOf(f: File, name: string, sub: Selector): Option<View>
    requires HasColumn(f.columns, name) && ValidSelector(sub, RowCount(f))
  {
    var c := Find(f.columns, name).value;
    var dtype := f.columns[c].dtype;
    if |f.records| > 1 || !dtype.native || sub.Fancy? || sub.Mask? then None
    else Some(SourceView(SourceAddress(f, c), dtype.itemsize, RowCount(f), sub))
  }

  /**
   There is a view exactly of native columns of at most one record, for a whole column, a row
   or a slice; it shows exactly what a copying read of the same selector returns.
   */
  lemma ViewCorrect(mem: Memory, f: File, name: string, sub: Selector)
    requires HasColumn(f.columns, name) && ValidSelector(sub, RowCount(f))
    ensures ViewOf(f, name, sub).Some? <==>
              |f.records| <= 1 && DtypeOf(f.columns, name).native && (sub.Whole? || sub.Scalar? || sub.Slice?)
    ensures |ColumnCells(mem, f, name)| == RowCount(f)
    ensures ViewOf(f, name, sub).Some? ==>
              ViewCells(mem, ViewOf(f, name, sub).value, DtypeOf(f.columns, name).itemsize)
              == Read(ColumnCells(mem, f, name), sub)
  {
    var c := Find(f.columns, name).value;
    ColumnLength(mem, f, name);
    if ViewOf(f, name, sub).Some? {
      SingleTable(mem, f, c);
      SourceViewCorrect(mem, Table([0, RowCount(f)], [SourceAddress(f, c)]), f.columns[c].dtype.itemsize,
                        ColumnCells(mem, f, name), sub);
    }
  }

  lemma SourceViewCorrect(mem: Memory, t: Table, width: nat, column: seq<Cell>, sub: Selector)
    requires Represents(mem, t, width, column) && |t.base| == 1
    requires ValidSelector(sub, |column|) && !sub.Fancy? && !sub.Mask?
    ensures ViewCells(mem, SourceView(t.base[0], width, |column|, sub), width) == Read(column, sub)
  {
    var rows := Rows(sub, |column|);
    var v := SourceView(t.base[0], width, |column|, sub);
    RowsInRange(sub, |column|);
    forall k | 0 <= k < |rows| ensures Load(mem, v.address + k * v.stride, width) == column[rows[k]] {
      RowInColumn(mem, t, width, column, 0, rows[k]);
      match sub
      case Whole =>
      case Scalar(row) =>
      case Slice(_, _, _) =>
        var i := SliceIndices(sub, |column|);
        StridedAddress(i.start, i.step, k, width);
    }
  }

  lemma StridedAddress(start: int, step: int, k: int, width: int)
    ensures (start + k * step) * width == start * width + k * (step * width)
  {
    MulAdd(start, k * step, width);
    MulAssoc(k, step, width);
  }

  lemma MulAssoc(a: int, b: int, c: int)
    ensures (a * b) * c == a * (b * c)
  {
  }

  // ---- the multi-record kernels ----

  /** A column as it is on disk, before conversion to host order. */
  function DiskColumn(mem: Memory, f: File, c: nat): seq<Cell>
    requires c < |f.columns|
  {
    Flat(AllRecordCells(mem, f, c))
  }

  lemma DiskLength(mem: Memory, f: File, c: nat)
    requires c < |f.columns|
    ensures |DiskColumn(mem, f, c)| == RowCount(f) == RowStarts(f.records)[|f.records|]
  {
    assert Lengths(AllRecordCells(mem, f, c)) == RecordRows(f.records);
    FlatLength(AllRecordCells(mem, f, c), RowStarts(f.records));
  }

  /** Row `k` of record `r`, at its own address. */
  lemma RecordCellAt(mem: Memory, f: File, c: nat, r: nat, k: nat)
    requires c < |f.columns| && r < |f.records| && k < f.records[r].rows
    ensures var itemsize := f.columns[c].dtype.itemsize;
            0 <= RowStarts(f.records)[r] + k < |DiskColumn(mem, f, c)| &&
            Load(mem, BlockAddress(f, c, r) + k * itemsize, itemsize)
            == DiskColumn(mem, f, c)[RowStarts(f.records)[r] + k]
  {
    assert Lengths(AllRecordCells(mem, f, c)) == RecordRows(f.records);
    FlatAt(AllRecordCells(mem, f, c), RowStarts(f.records), r, k);
  }

  /** `copy_multirecord_range`: one block copy per overlapping record. */
  method CopyMultirecordRange(mem: Memory, f: File, c: nat, start: int, stop: int, out: array<Cell>)
    requires c < |f.columns| && 0 <= start <= stop <= RowCount(f) && out.Length == stop - start
    modifies out
    ensures stop <= |DiskColumn(mem, f, c)| && out[..] == DiskColumn(mem, f, c)[start..stop]
  {
    hide DiskColumn;
    DiskLength(mem, f, c);
    if stop <= start || |f.records| == 0 {
      return;
    }
    var starts := RowStarts(f.records);
    PrefixSumsSorted(starts, RecordRows(f.records));
    var r := BinRecord(starts, start);
    var write := 0;
    while r < |f.records| && starts[r] < stop
      invariant 0 <= r <= |f.records|
      invariant starts[r] <= start || write == Min(stop, starts[r]) - start
      invariant starts[r] <= start ==> write == 0
      invariant 0 <= write <= stop - start
      invariant out[..write] == DiskColumn(mem, f, c)[start..start + write]
      decreases |f.records| - r
    {
      assert starts[r + 1] == starts[r] + RecordRows(f.records)[r];
      var withinLo := Max(start, starts[r]) - starts[r];
      var withinHi := Min(stop, starts[r] + f.records[r].rows) - starts[r];
      if withinHi - withinLo > 0 {
        CopyBlock(mem, f, c, r, withinLo, withinHi, out, write, start);
        write := write + (withinHi - withinLo);
      }
      r := r + 1;
    }
    assert out[..] == out[..write];
  }

  /** One record's share of the range. */
  method CopyBlock(mem: Memory, f: File, c: nat, r: nat, lo: nat, hi: nat, out: array<Cell>, write: nat,
                   ghost start: nat)
    requires c < |f.columns| && r < |f.records| && lo < hi <= f.records[r].rows
    requires write + (hi - lo) <= out.Length && start + write == RowStarts(f.records)[r] + lo
    requires start + out.Length <= |DiskColumn(mem, f, c)|
    requires out[..write] == DiskColumn(mem, f, c)[start..start + write]
    modifies out
    ensures out[..write + (hi - lo)] == DiskColumn(mem, f, c)[start..start + write + (hi - lo)]
  {
    var itemsize := f.columns[c].dtype.itemsize;
    var source := BlockAddress(f, c, r) + lo * itemsize;
    ghost var column := DiskColumn(mem, f, c);
    ghost var before := out[..write];
    BlockCells(mem, f, c, r, lo, hi, start + write);
    StoreCells(mem, source, itemsize, hi - lo, out, write);
    ExtendSlice(column, start, start + write, start + write + (hi - lo));
    assert out[..write + (hi - lo)] == before + CellsFrom(mem, source, itemsize, hi - lo);
  }

  /** `n` cells stored back to back. */
  function CellsFrom(mem: Memory, source: int, itemsize: nat, n: nat): seq<Cell> {
    seq(n, k => Load(mem, source + k * itemsize, itemsize))
  }

  lemma ExtendSlice(column: seq<Cell>, lo: nat, mid: nat, hi: nat)
    requires lo <= mid <= hi <= |column|
    ensures column[lo..hi] == column[lo..mid] + column[mid..hi]
  {
  }

  method StoreCells(mem: Memory, source: int, itemsize: nat, n: nat, out: array<Cell>, write: nat)
    requires write + n <= out.Length
    modifies out
    ensures out[..write + n] == old(out[..write]) + CellsFrom(mem, source, itemsize, n)
  {
    forall k | 0 <= k < n {
      out[write + k] := Load(mem, source + k * itemsize, itemsize);
    }
  }

  /** The cells of one record's share are that stretch of the column. */
  lemma BlockCells(mem: Memory, f: File, c: nat, r: nat, lo: nat, hi: nat, at: int)
    requires c < |f.columns| && r < |f.records| && lo < hi <= f.records[r].rows
    requires at == RowStarts(f.records)[r] + lo
    ensures 0 <= at && at + (hi - lo) <= |DiskColumn(mem, f, c)|
    ensures var itemsize := f.columns[c].dtype.itemsize;
            CellsFrom(mem, BlockAddress(f, c, r) + lo * itemsize, itemsize, hi - lo)
            == DiskColumn(mem, f, c)[at..at + (hi - lo)]
  {
    var itemsize := f.columns[c].dtype.itemsize;
    var column := DiskColumn(mem, f, c);
    RecordCellAt(mem, f, c, r, lo);
    RecordCellAt(mem, f, c, r, hi - 1);
    forall k | 0 <= k < hi - lo
      ensures Load(mem, BlockAddress(f, c, r) + lo * itemsize + k * itemsize, itemsize) == column[at + k]
    {
      RecordCellAt(mem, f, c, r, lo + k);
      MulAdd(lo, k, itemsize);
    }
  }

  // ---- strided walk ----

  /** Forward or backward over record boundaries, whichever way the row lies. */
  method StepCursor(starts: seq<int>, from: nat, row: int) returns (s: nat)
    requires ValidStarts(starts) && from + 1 < |starts| && 0 <= row < starts[|starts| - 1]
    ensures InSegment(starts, s, row)
    ensures row >= starts[from] ==> from <= s
    ensures row < starts[from + 1] ==> s <= from
  {
    s := from;
    if row >= starts[from + 1] {
      s := AdvanceCursor(starts, from, row);
    } else if row < starts[from] {
      s := from - 1;
      while row < starts[s]
        invariant s < from && row < starts[s + 1]
        decreases s
      {
        s := s - 1;
      }
    }
  }

  function StridedRows(start: int, step: int, n: nat): seq<int> {
    seq(n, k => start + k * step)
  }

  function Strided(start: int, step: int, i: int): int { start + i * step }

  lemma StridedNext(start: int, step: int, n: nat, i: nat)
    requires i < n
    ensures StridedRows(start, step, n)[i] == Strided(start, step, i)
    ensures Strided(start, step, i + 1) == Strided(start, step, i) + step
  {
  }

  /** How far the cursor has come, in the direction of the step. */
  ghost predicate OneWay(step: int, first: nat, s: nat, moves: nat) {
    if step > 0 then first + moves == s else first == s + moves
  }

  /** One worker's walk: the row is synthesized, the cursor moves one way only. */
  method StridedWalk(mem: Memory, ghost column: seq<Cell>, start: int, step: int, n: nat, out: array<Cell>,
                     t: Table, itemsize: nat, lo: nat, hi: nat)
    returns (ghost log: Log<Cell>, ghost moves: nat)
    requires Represents(mem, t, itemsize, column) && step != 0
    requires InRange(StridedRows(start, step, n), |column|) && out.Length == n && lo <= hi <= n
    modifies out
    ensures InBuffer(log, out.Length) && out[..] == Apply(old(out[..]), log) && Within(log, lo, hi)
    ensures forall i :: lo <= i < hi ==> out[i] == column[StridedRows(start, step, n)[i]]
    ensures moves <= |t.base|
  {
    log, moves := [], 0;
    if lo >= hi {
      return;
    }
    ghost var rows := StridedRows(start, step, n);
    ghost var buffer := out[..];
    var row := Strided(start, step, lo);
    hide Strided;
    hide StridedRows;
    hide Walked;
    StridedNext(start, step, n, lo);
    WalkedNothing(buffer, column, rows, lo, hi);
    var s := FindSegment(t, RowOf(rows, lo, row));
    ghost var first, last := s, row;
    for i := lo to hi
      invariant row == Strided(start, step, i)
      invariant InSegment(t.starts, s, last) && if step > 0 then last <= row else row <= last
      invariant OneWay(step, first, s, moves)
      invariant Walked(buffer, out[..], log, column, rows, lo, i, hi)
    {
      ghost var from := s;
      StridedNext(start, step, n, i);
      s := StepCursor(t.starts, s, RowOf(rows, i, row));
      moves := moves + (if step > 0 then s - from else from - s);
      WalkedNext(buffer, out[..], log, column, rows, lo, i, hi);
      log := StoreRow(mem, column, t, itemsize, s, row, out, i, buffer, log);
      last := row;
      row := row + step;
    }
    WalkedAll(buffer, out[..], log, column, rows, lo, hi);
  }

  lemma WalkedNothing(buffer: seq<Cell>, column: seq<Cell>, rows: seq<int>, lo: nat, hi: nat)
    requires |buffer| == |rows| && InRange(rows, |column|) && lo <= hi <= |rows|
    ensures Walked(buffer, buffer, [], column, rows, lo, lo, hi)
  {
  }

  lemma WalkedAll(buffer: seq<Cell>, current: seq<Cell>, log: Log<Cell>, column: seq<Cell>, rows: seq<int>, lo: nat,
                  hi: nat)
    requires Walked(buffer, current, log, column, rows, lo, hi, hi)
    ensures InBuffer(log, |buffer|) && current == Apply(buffer, log) && Within(log, lo, hi)
    ensures forall i :: lo <= i < hi ==> current[i] == column[rows[i]]
  {
  }

  /** The synthesized row is the `i`-th requested one. */
  function RowOf(ghost rows: seq<int>, ghost i: nat, row: int): (r: int)
    requires i < |rows| && rows[i] == row
    ensures r == rows[i]
  {
    row
  }

  method StridedChunk(mem: Memory, ghost column: seq<Cell>, start: int, step: int, n: nat, out: array<Cell>,
                      t: Table, itemsize: nat, workers: nat, u: nat)
    returns (ghost log: Log<Cell>)
    requires Represents(mem, t, itemsize, column) && step != 0
    requires InRange(StridedRows(start, step, n), |column|) && out.Length == n && u < workers
    modifies out
    ensures InBuffer(log, out.Length) && out[..] == Apply(old(out[..]), log)
    ensures Within(log, ChunkBounds(n, workers)[u], ChunkBounds(n, workers)[u + 1])
    ensures WindowFilled(out[..], column, StridedRows(start, step, n), ChunkBounds(n, workers), u)
  {
    ghost var bounds := ChunkBounds(n, workers);
    ChunksCover(n, workers);
    assert bounds[0] <= bounds[u] <= bounds[u + 1] <= bounds[workers];
    ghost var moves;
    log, moves := StridedWalk(mem, column, start, step, n, out, t, itemsize, ChunkStart(n, workers, u),
                              ChunkStart(n, workers, u + 1));
  }

  /** `gather_multirecord_strided`: both signs of the step, chunks in any order. */
  method GatherStrided(mem: Memory, ghost column: seq<Cell>, start: int, step: int, n: nat, out: array<Cell>,
                       t: Table, itemsize: nat, workers: nat, order: seq<int>)
    returns (ghost logs: seq<Log<Cell>>)
    requires Represents(mem, t, itemsize, column) && step != 0
    requires InRange(StridedRows(start, step, n), |column|) && out.Length == n
    requires workers > 0 && IsPermutation(order, workers)
    modifies out
    ensures out[..] == Pick(column, StridedRows(start, step, n))
    ensures ScheduleFree(old(out[..]), logs, out[..])
  {
    ghost var rows := StridedRows(start, step, n);
    ghost var done: map<nat, Log<Cell>> := map[];
    ghost var bounds := ChunkBounds(n, workers);
    ChunksCover(n, workers);
    for k := 0 to workers
      invariant forall u: nat :: u in done <==> u in order[..k]
      invariant Progress(old(out[..]), done, out[..]) && Windowed(done, bounds)
      invariant forall u: nat :: u in done ==> WindowFilled(out[..], column, rows, bounds, u)
    {
      var u: nat := order[k];
      assert u !in done;
      ghost var current := out[..];
      ghost var log := StridedChunk(mem, column, start, step, n, out, t, itemsize, workers, u);
      WindowedStep(old(out[..]), done, current, u, log, bounds);
      forall v: nat | v in done ensures WindowFilled(out[..], column, rows, bounds, v) {
        FilledElsewhere(current, log, column, rows, bounds, u, v);
      }
      done := done[u := log];
    }
    AllRun(order, workers);
    WindowsFilled(out[..], column, rows, workers);
    WindowedDone(old(out[..]), done, workers, out[..], bounds);
    logs := LogsOf(done, workers);
  }

  // ---- uniform records ----

  datatype Layout = Layout(rows: int, stride: int, first: int, lastRows: int)

  /** `_detect_uniform_record_layout`. */
  function DetectUniform(records: seq<Record>): Option<Layout>
    requires |records| > 1
  {
    var n := |records|;
    var rows := records[0].rows;
    var stride := records[1].body - records[0].body;
    if rows <= 0 then None
    else if exists r :: 0 <= r < n - 1 && records[r].rows != rows then None
    else if records[n - 1].rows > rows || records[n - 1].rows <= 0 then None
    else if exists r :: 0 <= r < n - 1 && records[r + 1].body - records[r].body != stride then None
    else Some(Layout(rows, stride, records[0].body, records[n - 1].rows))
  }

  /** The kernel's byte offset of row `idx`: one affine formula, one guarded last record. */
  function UniformOffset(l: Layout, n: int, prefix: int, itemsize: int, idx: int, r: int): int {
    var lastFirstRow := (n - 1) * l.rows;
    if r == n - 1 then
      l.first + (n - 1) * l.stride + prefix * l.lastRows - lastFirstRow * itemsize + idx * itemsize
    else
      (l.first + prefix * l.rows) + r * (l.stride - l.rows * itemsize) + idx * itemsize
  }

  /** The record the kernel takes for row `idx`. */
  function UniformRecord(l: Layout, n: int, divisor: Divisor, idx: int): int
    requires 0 <= idx < WORD
  {
    if idx >= (n - 1) * l.rows then n - 1 else Divide(idx, divisor)
  }

  lemma {:induction false} UniformBodies(records: seq<Record>, r: nat)
    requires |records| > 1 && DetectUniform(records).Some? && r < |records|
    ensures records[r].body == DetectUniform(records).value.first + r * DetectUniform(records).value.stride
  {
    var l := DetectUniform(records).value;
    if r > 0 {
      UniformBodies(records, r - 1);
      assert records[r - 1 + 1].body - records[r - 1].body == l.stride;
      MulAdd(r - 1, 1, l.stride);
    }
  }

  /** Body offsets in equal steps, row counts equal up to a last one that is no larger. */
  ghost predicate IsUniform(records: seq<Record>, l: Layout)
    requires |records| > 1
  {
    && 0 < l.lastRows <= l.rows && records[|records| - 1].rows == l.lastRows
    && (forall r :: 0 <= r < |records| - 1 ==> records[r].rows == l.rows)
    && forall r :: 0 <= r < |records| ==> records[r].body == l.first + r * l.stride
  }

  lemma DetectUniformExact(records: seq<Record>, l: Layout)
    requires |records| > 1
    ensures DetectUniform(records) == Some(l) <==> IsUniform(records, l)
  {
    if IsUniform(records, l) {
      assert records[0].body == l.first + 0 * l.stride && records[1].body == l.first + 1 * l.stride;
      forall r | 0 <= r < |records| - 1 ensures records[r + 1].body - records[r].body == l.stride {
        assert records[r + 1].body == l.first + (r + 1) * l.stride;
        MulAdd(r, 1, l.stride);
      }
    }
    if DetectUniform(records) == Some(l) {
      forall r | 0 <= r < |records| ensures records[r].body == l.first + r * l.stride {
        UniformBodies(records, r);
      }
    }
  }

  lemma UniformIsGrid(records: seq<Record>)
    requires |records| > 1 && DetectUniform(records).Some?
    ensures ValidStarts(RowStarts(records)) && UniformGrid(RowStarts(records), DetectUniform(records).value.rows)
  {
    var starts := RowStarts(records);
    var l := DetectUniform(records).value;
    PrefixSumsSorted(starts, RecordRows(records));
    forall s | 0 <= s < |starts| - 2 ensures starts[s + 1] - starts[s] == l.rows {
      assert starts[s + 1] == starts[s] + RecordRows(records)[s];
      assert records[s].rows == l.rows;
    }
    var n := |records|;
    assert starts[n - 1 + 1] == starts[n - 1] + RecordRows(records)[n - 1];
  }

  /** The arithmetic record is the searched record. */
  lemma UniformRecordCorrect(records: seq<Record>, divisor: Divisor, idx: int)
    requires |records| > 1 && DetectUniform(records).Some?
    requires DividesBy(divisor, DetectUniform(records).value.rows)
    requires 0 <= idx < RowStarts(records)[|records|] <= INT64_MAX
    ensures InSegment(RowStarts(records), UniformRecord(DetectUniform(records).value, |records|, divisor, idx), idx)
  {
    var l := DetectUniform(records).value;
    var n := |records|;
    UniformIsGrid(records);
    GridSegment(RowStarts(records), l.rows, idx);
    GridStart(RowStarts(records), l.rows, n - 1);
    assert Divide(idx, divisor) == idx / l.rows;
    DivFacts(idx, l.rows);
    if idx < (n - 1) * l.rows && idx / l.rows >= n - 1 {
      MulMonotone(n - 1, idx / l.rows, l.rows);
    }
  }

  /** The affine offset is the address of the row. */
  lemma UniformOffsetCorrect(mem: Memory, f: File, c: nat, r: nat, idx: int)
    requires c < |f.columns| && |f.records| > 1 && DetectUniform(f.records).Some?
    requires InSegment(RowStarts(f.records), r, idx)
    ensures var itemsize := f.columns[c].dtype.itemsize;
            var offset := UniformOffset(DetectUniform(f.records).value, |f.records|, Prefix(f.columns, c), itemsize,
                                        idx, r);
            0 <= idx < |DiskColumn(mem, f, c)| &&
            Load(mem, f.base + offset, itemsize) == DiskColumn(mem, f, c)[idx]
  {
    var l := DetectUniform(f.records).value;
    UniformIsGrid(f.records);
    GridStart(RowStarts(f.records), l.rows, r);
    UniformBodies(f.records, r);
    RecordRow(mem, f, c, r, idx);
    assert r < |f.records| - 1 ==> f.records[r].rows == l.rows;
    AffineOffset(l, |f.records|, Prefix(f.columns, c), f.columns[c].dtype.itemsize, idx, r);
  }

  lemma AffineOffset(l: Layout, n: int, prefix: int, itemsize: int, idx: int, r: int)
    ensures UniformOffset(l, n, prefix, itemsize, idx, r)
         == l.first + r * l.stride + prefix * (if r == n - 1 then l.lastRows else l.rows)
            - (r * l.rows) * itemsize + idx * itemsize
  {
    AffineStep(r, l.stride, l.rows, itemsize);
  }

  lemma AffineStep(r: int, stride: int, rows: int, itemsize: int)
    ensures r * (stride - rows * itemsize) == r * stride - (r * rows) * itemsize
  {
    var block := rows * itemsize;
    assert r * (stride - block) == r * stride - r * block;
    assert r * block == (r * rows) * itemsize;
  }

  method FindUniformRecord(records: seq<Record>, l: Layout, divisor: Divisor, idx: int) returns (r: nat)
    requires |records| > 1 && DetectUniform(records) == Some(l) && DividesBy(divisor, l.rows)
    requires 0 <= idx < RowStarts(records)[|records|] <= INT64_MAX
    ensures InSegment(RowStarts(records), r, idx)
  {
    UniformRecordCorrect(records, divisor, idx);
    r := UniformRecord(l, |records|, divisor, idx);
  }

  /** `gather_multirecord_uniform`. */
  method GatherUniform(mem: Memory, f: File, c: nat, indices: seq<int>, out: array<Cell>, order: seq<int>)
    requires c < |f.columns| && |f.records| > 1 && DetectUniform(f.records).Some?
    requires RowCount(f) <= INT64_MAX && InRange(indices, RowCount(f))
    requires out.Length == |indices| && IsPermutation(order, |indices|)
    modifies out
    ensures InRange(indices, |DiskColumn(mem, f, c)|) && out[..] == Pick(DiskColumn(mem, f, c), indices)
  {
    DiskLength(mem, f, c);
    var l := DetectUniform(f.records).value;
    UniformIsGrid(f.records);
    GridRowsFit(RowStarts(f.records), l.rows);
    var divisor := PrepareDivisor(l.rows);
    for k := 0 to |order|
      invariant Filled(out[..], DiskColumn(mem, f, c), indices, order[..k])
    {
      var i := order[k];
      var r := FindUniformRecord(f.records, l, divisor, indices[i]);
      LoadUniform(mem, f, c, l, r, indices[i], out, i);
    }
    assert order[..|order|] == order;
    FilledAll(out[..], DiskColumn(mem, f, c), indices, order);
  }

  /** `gather_multirecord_uniform_bins`: the first column of several. */
  method GatherUniformBins(mem: Memory, f: File, c: nat, indices: seq<int>, out: array<Cell>, bins: array<Bin>,
                           order: seq<int>)
    requires c < |f.columns| && |f.records| > 1 && DetectUniform(f.records).Some? && |f.records| <= INT32_MAX
    requires RowCount(f) <= INT64_MAX && InRange(indices, RowCount(f))
    requires out.Length == bins.Length == |indices| && IsPermutation(order, |indices|)
    modifies out, bins
    ensures InRange(indices, |DiskColumn(mem, f, c)|) && out[..] == Pick(DiskColumn(mem, f, c), indices)
    ensures BinsOf(bins[..], RowStarts(f.records), indices)
  {
    hide DiskColumn;
    DiskLength(mem, f, c);
    var l := DetectUniform(f.records).value;
    UniformIsGrid(f.records);
    GridRowsFit(RowStarts(f.records), l.rows);
    var divisor := PrepareDivisor(l.rows);
    for k := 0 to |order|
      invariant Filled(out[..], DiskColumn(mem, f, c), indices, order[..k])
      invariant BinsFilled(bins[..], RowStarts(f.records), indices, order[..k])
    {
      var i := order[k];
      var r := FindUniformRecord(f.records, l, divisor, indices[i]);
      bins[i] := r as Bin;
      LoadUniform(mem, f, c, l, r, indices[i], out, i);
    }
    assert order[..|order|] == order;
    FilledAll(out[..], DiskColumn(mem, f, c), indices, order);
    BinsFilledAll(bins[..], RowStarts(f.records), indices, order);
  }

  method LoadUniform(mem: Memory, f: File, c: nat, l: Layout, r: nat, idx: int, out: array<Cell>, i: int)
    requires c < |f.columns| && |f.records| > 1 && DetectUniform(f.records) == Some(l)
    requires InSegment(RowStarts(f.records), r, idx) && 0 <= i < out.Length
    modifies out
    ensures 0 <= idx < |DiskColumn(mem, f, c)| && out[..] == old(out[..])[i := DiskColumn(mem, f, c)[idx]]
  {
    var itemsize := f.columns[c].dtype.itemsize;
    UniformOffsetCorrect(mem, f, c, r, idx);
    out[i] := Load(mem, f.base + UniformOffset(l, |f.records|, Prefix(f.columns, c), itemsize, idx, r), itemsize);
  }

  /** `gather_multirecord_uniform_withbins`: another column, from the recorded records. */
  method GatherUniformWithBins(mem: Memory, f: File, c: nat, indices: seq<int>, out: array<Cell>, bins: seq<Bin>,
                               order: seq<int>)
    requires c < |f.columns| && |f.records| > 1 && DetectUniform(f.records).Some?
    requires InRange(indices, RowCount(f)) && BinsOf(bins, RowStarts(f.records), indices)
    requires out.Length == |indices| && IsPermutation(order, |indices|)
    modifies out
    ensures InRange(indices, |DiskColumn(mem, f, c)|) && out[..] == Pick(DiskColumn(mem, f, c), indices)
  {
    DiskLength(mem, f, c);
    var l := DetectUniform(f.records).value;
    for k := 0 to |order|
      invariant Filled(out[..], DiskColumn(mem, f, c), indices, order[..k])
    {
      var i := order[k];
      LoadUniform(mem, f, c, l, bins[i] as int, indices[i], out, i);
    }
    assert order[..|order|] == order;
    FilledAll(out[..], DiskColumn(mem, f, c), indices, order);
  }

  // ---- the reader's dispatch ----

  /** `gather_indexed`: one contiguous block, one load per index. */
  method GatherIndexed(mem: Memory, ghost column: seq<Cell>, indices: seq<int>, out: array<Cell>, source: int,
                       itemsize: nat, order: seq<int>)
    requires Represents(mem, Table([0, |column|], [source]), itemsize, column) && InRange(indices, |column|)
    requires out.Length == |indices| && IsPermutation(order, |indices|)
    modifies out
    ensures out[..] == Pick(column, indices)
  {
    for k := 0 to |order|
      invariant Filled(out[..], column, indices, order[..k])
    {
      var i := order[k];
      RowInColumn(mem, Table([0, |column|], [source]), itemsize, column, 0, indices[i]);
      out[i] := Load(mem, source + indices[i] * itemsize, itemsize);
    }
    assert order[..|order|] == order;
    FilledAll(out[..], column, indices, order);
  }

  /** `gather_bytes` after `searchsorted`: the unfolded per-row address, for any byte order. */
  method GatherBytes(mem: Memory, f: File, c: nat, indices: seq<int>, out: array<Cell>, order: seq<int>)
    requires c < |f.columns| && InRange(indices, RowCount(f))
    requires out.Length == |indices| && IsPermutation(order, |indices|)
    modifies out
    ensures InRange(indices, |DiskColumn(mem, f, c)|) && out[..] == Pick(DiskColumn(mem, f, c), indices)
  {
    DiskLength(mem, f, c);
    var starts := RowStarts(f.records);
    PrefixSumsSorted(starts, RecordRows(f.records));
    var itemsize := f.columns[c].dtype.itemsize;
    for k := 0 to |order|
      invariant Filled(out[..], DiskColumn(mem, f, c), indices, order[..k])
    {
      var i := order[k];
      var r := BinRecord(starts, indices[i]);
      assert starts[r + 1] == starts[r] + RecordRows(f.records)[r];
      RecordCellAt(mem, f, c, r, indices[i] - starts[r]);
      out[i] := Load(mem, BlockAddress(f, c, r) + (indices[i] - starts[r]) * itemsize, itemsize);
    }
    assert order[..|order|] == order;
    FilledAll(out[..], DiskColumn(mem, f, c), indices, order);
  }

  /** A single-record file: copy the view, or gather by index; a mask is lowered first. */
  method RawSingle(mem: Memory, f: File, c: nat, sel: Selector) returns (cells: seq<Cell>)
    requires c < |f.columns| && |f.records| <= 1 && ValidSelector(sel, RowCount(f))
    ensures |DiskColumn(mem, f, c)| == RowCount(f) && cells == Read(DiskColumn(mem, f, c), sel)
  {
    DiskLength(mem, f, c);
    SingleTable(mem, f, c);
    RowsInRange(sel, RowCount(f));
    var itemsize := f.columns[c].dtype.itemsize;
    if sel.Fancy? || sel.Mask? {
      var indices := Rows(sel, RowCount(f));
      var out := new Cell[|indices|];
      var order := AnyOrder(|indices|);
      GatherIndexed(mem, DiskColumn(mem, f, c), indices, out, SourceAddress(f, c), itemsize, order);
      cells := out[..];
    } else {
      SourceViewCorrect(mem, Table([0, RowCount(f)], [SourceAddress(f, c)]), itemsize, DiskColumn(mem, f, c), sel);
      cells := ViewCells(mem, SourceView(SourceAddress(f, c), itemsize, RowCount(f), sel), itemsize);
    }
  }

  /** Rows `[start, stop)` by block copies. */
  method RawRange(mem: Memory, f: File, c: nat, start: int, stop: int) returns (cells: seq<Cell>)
    requires c < |f.columns| && 0 <= start <= stop <= RowCount(f)
    ensures stop <= |DiskColumn(mem, f, c)| && cells == DiskColumn(mem, f, c)[start..stop]
  {
    var out := new Cell[stop - start];
    CopyMultirecordRange(mem, f, c, start, stop, out);
    cells := out[..];
  }

  /** Fancy rows of a multi-record file: sorted walk, uniform layout, search, or byte offsets. */
  method RawFancy(mem: Memory, f: File, c: nat, indices: seq<int>, hint: Option<bool>) returns (cells: seq<Cell>)
    requires c < |f.columns| && |f.records| > 1 && RowCount(f) <= INT64_MAX && InRange(indices, RowCount(f))
    ensures InRange(indices, |DiskColumn(mem, f, c)|) && cells == Pick(DiskColumn(mem, f, c), indices)
  {
    DiskLength(mem, f, c);
    RecordTable(mem, f, c);
    var out := new Cell[|indices|];
    var order := AnyOrder(|indices|);
    var sorted := if hint.Some? then hint.value else IndicesAreSorted(indices);
    var itemsize := f.columns[c].dtype.itemsize;
    if !f.columns[c].dtype.native {
      GatherBytes(mem, f, c, indices, out, order);
    } else if |indices| > 1 && sorted {
      var workers := ThreadCount();
      var chunks := AnyOrder(workers);
      ghost var logs := GatherSegmentSorted(mem, DiskColumn(mem, f, c), indices, out,
                                            Table(RowStarts(f.records), FoldedBases(f, c)), itemsize, workers, chunks);
    } else if DetectUniform(f.records).Some? {
      GatherUniform(mem, f, c, indices, out, order);
    } else {
      GatherSegment(mem, DiskColumn(mem, f, c), indices, out, Table(RowStarts(f.records), FoldedBases(f, c)),
                    itemsize, order);
    }
    cells := out[..];
  }

  /** A slice with a step other than 1: the strided walk, or the rows spelled out. */
  method RawStrided(mem: Memory, f: File, c: nat, i: Indices, hint: Option<bool>) returns (cells: seq<Cell>)
    requires c < |f.columns| && |f.records| > 1 && RowCount(f) <= INT64_MAX && i.step != 0
    requires InRange(Range(i.start, i.stop, i.step), RowCount(f))
    ensures InRange(Range(i.start, i.stop, i.step), |DiskColumn(mem, f, c)|)
    ensures cells == Pick(DiskColumn(mem, f, c), Range(i.start, i.stop, i.step))
  {
    if !f.columns[c].dtype.native {
      cells := RawFancy(mem, f, c, Range(i.start, i.stop, i.step), hint);
      return;
    }
    DiskLength(mem, f, c);
    RecordTable(mem, f, c);
    var n := RangeLength(i.start, i.stop, i.step);
    assert StridedRows(i.start, i.step, n) == Range(i.start, i.stop, i.step);
    var out := new Cell[n];
    var workers := ThreadCount();
    var order := AnyOrder(workers);
    var t := Table(RowStarts(f.records), FoldedBases(f, c));
    ghost var logs := GatherStrided(mem, DiskColumn(mem, f, c), i.start, i.step, n, out, t,
                                    f.columns[c].dtype.itemsize, workers, order);
    cells := out[..];
  }

  /** A native column through the mask kernel. */
  method MaskPass(mem: Memory, f: File, c: nat, mask: seq<bool>) returns (cells: seq<Cell>)
    requires c < |f.columns| && |mask| == RowCount(f)
    ensures |DiskColumn(mem, f, c)| == RowCount(f) && cells == Read(DiskColumn(mem, f, c), Mask(mask))
  {
    DiskLength(mem, f, c);
    RecordTable(mem, f, c);
    var selected := CountMaskRange(mask, 0, |mask|);
    var out := new Cell[selected];
    var workers := ThreadCount();
    var order := AnyOrder(workers);
    var status;
    ghost var logs;
    var t := Table(RowStarts(f.records), FoldedBases(f, c));
    status, logs := GatherSegmentMask(mem, DiskColumn(mem, f, c), mask, out, t, f.columns[c].dtype.itemsize,
                                      workers, order);
    cells := out[..];
  }

  method RawMask(mem: Memory, f: File, c: nat, mask: seq<bool>, hint: Option<bool>, dense: bool)
    returns (cells: seq<Cell>)
    requires c < |f.columns| && |f.records| > 1 && RowCount(f) <= INT64_MAX && |mask| == RowCount(f)
    ensures |DiskColumn(mem, f, c)| == RowCount(f) && cells == Read(DiskColumn(mem, f, c), Mask(mask))
  {
    DiskLength(mem, f, c);
    RowsInRange(Mask(mask), RowCount(f));
    if f.columns[c].dtype.native && dense {
      cells := MaskPass(mem, f, c, mask);
    } else {
      cells := RawFancy(mem, f, c, Selected(mask, 0, |mask|), hint);
    }
  }

  /**
   `_gather_one_multi_record`: the kernels are imported before the selector is looked at, and
   a backward unit slice makes the range copy allocate `stop - start < 0` rows.
   */
  method RawMulti(mem: Memory, f: File, c: nat, sel: Selector, hint: Option<bool>, dense: bool, cppAvailable: bool)
    returns (cells: Outcome<seq<Cell>>)
    requires c < |f.columns| && |f.records| > 1 && RowCount(f) <= INT64_MAX && ValidSelector(sel, RowCount(f))
    ensures |DiskColumn(mem, f, c)| == RowCount(f)
    ensures cells == if !cppAvailable then Failed(NoExtension)
                     else if BackwardRange(sel, RowCount(f)) then Failed(BackwardSlice)
                     else Done(Read(DiskColumn(mem, f, c), sel))
  {
    DiskLength(mem, f, c);
    if !cppAvailable {
      return Failed(NoExtension);
    }
    RowsInRange(sel, RowCount(f));
    var raw;
    match sel {
    case Whole =>
      raw := RawRange(mem, f, c, 0, RowCount(f));
      assert raw == Read(DiskColumn(mem, f, c), sel);
    case Scalar(row) =>
      raw := RawRange(mem, f, c, row, row + 1);
      assert raw == Read(DiskColumn(mem, f, c), sel);
    case Fancy(rows) =>
      raw := RawFancy(mem, f, c, rows, hint);
    case Mask(mask) =>
      raw := RawMask(mem, f, c, mask, hint, dense);
    case Slice(_, _, _) =>
      var i := SliceIndices(sel, RowCount(f));
      if i.step == 1 {
        if i.stop - i.start < 0 {
          return Failed(BackwardSlice);
        }
        raw := RawRange(mem, f, c, i.start, i.stop);
        UnitRange(i.start, i.stop);
        assert raw == Read(DiskColumn(mem, f, c), sel);
      } else {
        raw := RawStrided(mem, f, c, i, hint);
      }
    }
    return Done(raw);
  }

  lemma UnitRange(start: int, stop: int)
    requires start <= stop
    ensures Range(start, stop, 1) == RowRange(start, stop)
  {
    if start < stop {
      CeilDivUnique(stop - start, 1, stop - start);
    }
  }

  /**
   What a reader's copying gather gives. A unit-step slice whose start lies behind its
   stop selects nothing, but a multi-record reader raises for it instead.
   */
  function ChildGather(mem: Memory, f: File, name: string, sel: Selector, closed: bool, cppAvailable: bool)
    : Outcome<seq<Cell>>
    requires HasColumn(f.columns, name) && ValidSelector(sel, RowCount(f))
  {
    ColumnLength(mem, f, name);
    if Trouble(f, closed, cppAvailable).Some? then Failed(Trouble(f, closed, cppAvailable).value)
    else if |f.records| > 1 && BackwardRange(sel, RowCount(f)) then Failed(BackwardSlice)
    else Done(Read(ColumnCells(mem, f, name), sel))
  }

  lemma HostRead(dtype: Dtype, disk: seq<Cell>, sel: Selector)
    requires ValidSelector(sel, |disk|)
    ensures |ToHost(dtype, disk)| == |disk|
    ensures ToHost(dtype, Read(disk, sel)) == Read(ToHost(dtype, disk), sel)
  {
    RowsInRange(sel, |disk|);
  }

  /**
   `_gather_one` of a reader: for every selector the selected cells in host order, whatever
   the route, or the one error that reader and selector have.
   */
  method GatherChild(mem: Memory, f: File, name: string, sel: Selector, hint: Option<bool>, dense: bool,
                     closed: bool, cppAvailable: bool)
    returns (cells: Outcome<seq<Cell>>)
    requires HasColumn(f.columns, name) && ValidSelector(sel, RowCount(f)) && RowCount(f) <= INT64_MAX
    ensures cells == ChildGather(mem, f, name, sel, closed, cppAvailable)
  {
    if closed {
      return Failed(ClosedReader);
    }
    var c := Find(f.columns, name).value;
    var raw: Outcome<seq<Cell>>;
    DiskLength(mem, f, c);
    if |f.records| > 1 {
      raw := RawMulti(mem, f, c, sel, hint, dense, cppAvailable);
    } else {
      var single := RawSingle(mem, f, c, sel);
      raw := Done(single);
    }
    if raw.Failed? {
      return raw;
    }
    HostRead(f.columns[c].dtype, DiskColumn(mem, f, c), sel);
    return Done(ToHost(f.columns[c].dtype, raw.value));
  }
}
