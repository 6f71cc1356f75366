/**
 One file: a list of records, each a run of back-to-back column blocks at a body offset.
 A file's column means its records' cells in record order. `SegmentTableOf` is the
 table a reader hands to the kernels; `Stitch` folds the tables of all files into one.
 */
module Files {
  import opened Sequences
  import opened MagicDivide
  import opened Segments
  import opened Schedule

  /**
   `code` stands for the rest of the dtype string; two dtypes agree iff they are equal. `unit`
   is the size of what has a byte order: a number, or a character of four bytes.
   */
  datatype Dtype = Dtype(code: string, itemsize: nat, unit: nat, native: bool)

  datatype Column = Column(name: string, dtype: Dtype)

  datatype Record = Record(body: int, rows: nat)

  /** A mapped file; `base` is the address of its first byte. */
  datatype File = File(base: int, records: seq<Record>, columns: seq<Column>)

  function RecordRows(records: seq<Record>): seq<nat> {
    seq(|records|, r requires 0 <= r < |records| => records[r].rows)
  }

  /** `record_starts_rows`: the cumulative row counts. */
  function RowStarts(records: seq<Record>): (starts: seq<int>)
    ensures PrefixSums(starts, RecordRows(records))
  {
    if records == [] then [0]
    else
      var n := |records| - 1;
      var init := RowStarts(records[..n]);
      assert RecordRows(records[..n]) == RecordRows(records)[..n];
      init + [init[n] + records[n].rows]
  }

  function RowCount(f: File): nat {
    PrefixSumsSorted(RowStarts(f.records), RecordRows(f.records));
    RowStarts(f.records)[|f.records|]
  }

  /** The named column's position in the schema. */
  function Find(columns: seq<Column>, name: string): (at: Option<nat>)
    ensures at.Some? ==> at.value < |columns| && columns[at.value].name == name
    ensures at.None? ==> forall k :: 0 <= k < |columns| ==> columns[k].name != name
  {
    if columns == [] then None
    else if columns[0].name == name then Some(0)
    else match Find(columns[1..], name) case None => None case Some(k) => Some(k + 1)
  }

  predicate HasColumn(columns: seq<Column>, name: string) { Find(columns, name).Some? }

  function DtypeOf(columns: seq<Column>, name: string): Dtype
    requires HasColumn(columns, name)
  {
    columns[Find(columns, name).value].dtype
  }

  /** `col_prefix`: bytes of one row that precede the column. */
  function Prefix(columns: seq<Column>, c: nat): (p: nat)
    requires c <= |columns|
  {
    if c == 0 then 0 else Prefix(columns, c - 1) + columns[c - 1].dtype.itemsize
  }

  /** The address of column `c`'s block in record `r`. */
  function BlockAddress(f: File, c: nat, r: nat): int
    requires c < |f.columns| && r < |f.records|
  {
    f.base + f.records[r].body + Prefix(f.columns, c) * f.records[r].rows
  }

  /** Column `c`'s cells in record `r`, as they are on disk. */
  function RecordCells(mem: Memory, f: File, c: nat, r: nat): seq<Cell>
    requires c < |f.columns| && r < |f.records|
  {
    var itemsize := f.columns[c].dtype.itemsize;
    seq(f.records[r].rows, k => Load(mem, BlockAddress(f, c, r) + k * itemsize, itemsize))
  }

  function AllRecordCells(mem: Memory, f: File, c: nat): seq<seq<Cell>>
    requires c < |f.columns|
  {
    seq(|f.records|, r requires 0 <= r < |f.records| => RecordCells(mem, f, c, r))
  }

  function ReverseBytes(cell: Cell): Cell {
    seq(|cell|, k requires 0 <= k < |cell| => cell[|cell| - 1 - k])
  }

  /** Reverse the bytes of each unit. */
  function SwapUnits(cell: Cell, unit: nat): (r: Cell)
    ensures |r| == |cell|
  {
    if unit == 0 || |cell| < unit then cell else ReverseBytes(cell[..unit]) + SwapUnits(cell[unit..], unit)
  }

  /** Reading converts to host order; a native cell is returned as it is. */
  function ToHost(dtype: Dtype, cells: seq<Cell>): seq<Cell> {
    if dtype.native then cells
    else seq(|cells|, k requires 0 <= k < |cells| => SwapUnits(cells[k], dtype.unit))
  }

  /** Where on disk byte `j` of a cell in host order comes from. */
  function HostByte(dtype: Dtype, j: nat): int {
    if dtype.native || dtype.unit == 0 then j
    else j / dtype.unit * dtype.unit + (dtype.unit - 1 - j % dtype.unit)
  }

  /** The cell is `units` units long. */
  lemma {:induction false} SwappedByte(cell: Cell, unit: nat, units: nat, j: nat)
    requires unit > 0 && |cell| == units * unit && j < |cell|
    ensures 0 <= j / unit * unit + (unit - 1 - j % unit) < |cell|
    ensures SwapUnits(cell, unit)[j] == cell[j / unit * unit + (unit - 1 - j % unit)]
    decreases units
  {
    MulAdd(units - 1, 1, unit);
    assert |cell[unit..]| == (units - 1) * unit;
    MulMonotone(0, units - 1, unit);
    if j < unit {
      DivBounds(j, unit, 0);
    } else {
      SwappedByte(cell[unit..], unit, units - 1, j - unit);
      NextUnit(j, unit);
    }
  }

  lemma NextUnit(j: int, unit: int)
    requires unit > 0
    ensures (j - unit) / unit * unit == j / unit * unit - unit && (j - unit) % unit == j % unit
  {
    DivFacts(j, unit);
    MulAdd(j / unit, -1, unit);
    DivBounds(j - unit, unit, j / unit - 1);
  }

  /** The meaning of one file's column. */
  function ColumnCells(mem: Memory, f: File, name: string): seq<Cell>
    requires HasColumn(f.columns, name)
  {
    var c := Find(f.columns, name).value;
    ToHost(f.columns[c].dtype, Flat(AllRecordCells(mem, f, c)))
  }

  lemma ColumnLength(mem: Memory, f: File, name: string)
    requires HasColumn(f.columns, name)
    ensures |ColumnCells(mem, f, name)| == RowCount(f)
  {
    var cells := AllRecordCells(mem, f, Find(f.columns, name).value);
    assert Lengths(cells) == RecordRows(f.records);
    FlatLength(cells, RowStarts(f.records));
  }

  function ItemSizes(columns: seq<Column>): seq<nat> {
    seq(|columns|, k requires 0 <= k < |columns| => columns[k].dtype.itemsize)
  }

  lemma {:induction false} PrefixIs(columns: seq<Column>, prefixes: seq<int>, c: nat)
    requires PrefixSums(prefixes, ItemSizes(columns)) && c <= |columns|
    ensures Prefix(columns, c) == prefixes[c]
  {
    if c > 0 {
      PrefixIs(columns, prefixes, c - 1);
      assert prefixes[c - 1 + 1] == prefixes[c - 1] + ItemSizes(columns)[c - 1];
    }
  }

  /** No other column has this one's name. */
  predicate OnlyOneNamed(columns: seq<Column>, c: nat)
    requires c < |columns|
  {
    forall k :: 0 <= k < |columns| && columns[k].name == columns[c].name ==> k == c
  }

  /**
   Byte by byte, what a column's cells are: behind the file's start, the record's body, the
   blocks of the columns before it and the cells before this one, its bytes in host order.
   */
  lemma CellByte(mem: Memory, f: File, c: nat, prefixes: seq<int>, starts: seq<int>, r: nat, k: nat, j: nat)
    requires c < |f.columns| && OnlyOneNamed(f.columns, c) && PrefixSums(prefixes, ItemSizes(f.columns))
    requires PrefixSums(starts, RecordRows(f.records)) && r < |f.records| && k < f.records[r].rows
    requires f.columns[c].dtype.unit > 0 && f.columns[c].dtype.itemsize % f.columns[c].dtype.unit == 0
    requires j < f.columns[c].dtype.itemsize
    ensures HasColumn(f.columns, f.columns[c].name)
    ensures var dtype := f.columns[c].dtype;
            var cells := ColumnCells(mem, f, f.columns[c].name);
            && |cells| == starts[|f.records|] && 0 <= starts[r] + k < |cells|
            && |cells[starts[r] + k]| == dtype.itemsize
            && cells[starts[r] + k][j] == mem(f.base + f.records[r].body + prefixes[c] * f.records[r].rows
                                              + k * dtype.itemsize + HostByte(dtype, j))
  {
    var name, dtype := f.columns[c].name, f.columns[c].dtype;
    assert Find(f.columns, name) == Some(c);
    PrefixIs(f.columns, prefixes, c);
    var disk := AllRecordCells(mem, f, c);
    assert Lengths(disk) == RecordRows(f.records);
    FlatLength(disk, starts);
    FlatAt(disk, starts, r, k);
    var cell := RecordCells(mem, f, c, r)[k];
    if !dtype.native {
      DivFacts(dtype.itemsize, dtype.unit);
      SwappedByte(cell, dtype.unit, dtype.itemsize / dtype.unit, j);
    }
  }

  // ---- the reader's own segment table ----

  /** `base + rsb + col_prefix * nrr - rsr[:-1] * itemsize`, one entry per record. */
  function FoldedBases(f: File, c: nat): seq<int>
    requires c < |f.columns|
  {
    seq(|f.records|, r requires 0 <= r < |f.records| =>
      BlockAddress(f, c, r) - RowStarts(f.records)[r] * f.columns[c].dtype.itemsize)
  }

  /**
   `_column_segment_table`: one segment per record of a multi-record file, else one
   segment over the column's own mapping; `None` for a non-native dtype.
   */
  function SegmentTableOf(f: File, name: string): Option<Table>
    requires HasColumn(f.columns, name)
  {
    var c := Find(f.columns, name).value;
    if !f.columns[c].dtype.native then None
    else if |f.records| > 1 then Some(Table(RowStarts(f.records), FoldedBases(f, c)))
    else Some(Table([0, RowCount(f)], [if f.records == [] then f.base else BlockAddress(f, c, 0)]))
  }

  /** The reader's table stands for its column, cell by cell. */
  lemma SegmentTableCorrect(mem: Memory, f: File, name: string)
    requires HasColumn(f.columns, name) && SegmentTableOf(f, name).Some?
    ensures Represents(mem, SegmentTableOf(f, name).value, DtypeOf(f.columns, name).itemsize, ColumnCells(mem, f, name))
  {
    var c := Find(f.columns, name).value;
    ColumnLength(mem, f, name);
    if |f.records| > 1 {
      RecordTable(mem, f, c);
    } else {
      SingleTable(mem, f, c);
    }
  }

  lemma RecordTable(mem: Memory, f: File, c: nat)
    requires c < |f.columns|
    ensures Represents(mem, Table(RowStarts(f.records), FoldedBases(f, c)), f.columns[c].dtype.itemsize,
                       Flat(AllRecordCells(mem, f, c)))
  {
    var itemsize := f.columns[c].dtype.itemsize;
    var t := Table(RowStarts(f.records), FoldedBases(f, c));
    var column := Flat(AllRecordCells(mem, f, c));
    PrefixSumsSorted(t.starts, RecordRows(f.records));
    assert Lengths(AllRecordCells(mem, f, c)) == RecordRows(f.records);
    FlatLength(AllRecordCells(mem, f, c), t.starts);
    forall s, row | Addressed(t, s, row)
      ensures Load(mem, t.base[s] + row * itemsize, itemsize) == column[row]
    {
      RecordRow(mem, f, c, s, row);
    }
  }

  /** One segment over a contiguous block of cells. */
  lemma OneSegment(mem: Memory, base: int, itemsize: nat, column: seq<Cell>)
    requires forall k :: 0 <= k < |column| ==> column[k] == Load(mem, base + k * itemsize, itemsize)
    ensures Represents(mem, Table([0, |column|], [base]), itemsize, column)
  {
    var t := Table([0, |column|], [base]);
    forall s, row | Addressed(t, s, row) ensures Load(mem, t.base[s] + row * itemsize, itemsize) == column[row] {
      assert s == 0;
    }
  }

  lemma SingleTable(mem: Memory, f: File, c: nat)
    requires c < |f.columns| && |f.records| <= 1
    ensures Represents(mem, Table([0, RowCount(f)], [if f.records == [] then f.base else BlockAddress(f, c, 0)]),
                       f.columns[c].dtype.itemsize, Flat(AllRecordCells(mem, f, c)))
  {
    var itemsize := f.columns[c].dtype.itemsize;
    var column := Flat(AllRecordCells(mem, f, c));
    assert Lengths(AllRecordCells(mem, f, c)) == RecordRows(f.records);
    FlatLength(AllRecordCells(mem, f, c), RowStarts(f.records));
    if f.records == [] {
      OneSegment(mem, f.base, itemsize, column);
    } else {
      FlatSingle(RecordCells(mem, f, c, 0));
      assert AllRecordCells(mem, f, c) == [RecordCells(mem, f, c, 0)];
      OneSegment(mem, BlockAddress(f, c, 0), itemsize, column);
    }
  }

  /** Row `row` of record `s` is where the folded address says. */
  lemma RecordRow(mem: Memory, f: File, c: nat, s: int, row: int)
    requires c < |f.columns| && InSegment(RowStarts(f.records), s, row)
    ensures var itemsize := f.columns[c].dtype.itemsize;
            var address := BlockAddress(f, c, s) - RowStarts(f.records)[s] * itemsize + row * itemsize;
            0 <= row < |Flat(AllRecordCells(mem, f, c))| &&
            Load(mem, address, itemsize) == Flat(AllRecordCells(mem, f, c))[row]
  {
    var itemsize := f.columns[c].dtype.itemsize;
    var starts := RowStarts(f.records);
    var cells := AllRecordCells(mem, f, c);
    assert Lengths(cells) == RecordRows(f.records);
    assert starts[s + 1] == starts[s] + RecordRows(f.records)[s];
    FlatAt(cells, starts, s, row - starts[s]);
    MulAdd(starts[s], row - starts[s], itemsize);
  }

  // ---- stitching files ----

  /** Put a second table behind a first: rows shift up, bases fold the shift out. */
  function Behind(a: Table, b: Table, itemsize: nat): Table
    requires a.starts != [] && b.starts != []
  {
    var m := |a.starts| - 1;
    var rows := a.starts[m];
    Table(a.starts[..m] + Shift(b.starts, rows), a.base + Shift(b.base, -(rows * itemsize)))
  }

  lemma BehindRepresents(mem: Memory, a: Table, b: Table, itemsize: nat, x: seq<Cell>, y: seq<Cell>)
    requires Represents(mem, a, itemsize, x) && Represents(mem, b, itemsize, y)
    ensures Represents(mem, Behind(a, b, itemsize), itemsize, x + y)
  {
    var t := Behind(a, b, itemsize);
    var m := |a.base|;
    BehindStarts(a, b, itemsize);
    forall s, row | Addressed(t, s, row)
      ensures Load(mem, t.base[s] + row * itemsize, itemsize) == (x + y)[row]
    {
      if s < m {
        assert InSegment(a.starts, s, row);
        RowInColumn(mem, a, itemsize, x, s, row);
      } else {
        var local := row - |x|;
        assert InSegment(b.starts, s - m, local);
        RowInColumn(mem, b, itemsize, y, s - m, local);
        MulAdd(|x|, local, itemsize);
      }
    }
  }

  lemma BehindStarts(a: Table, b: Table, itemsize: nat)
    requires |a.starts| == |a.base| + 1 && |b.starts| == |b.base| + 1
    requires ValidStarts(a.starts) && ValidStarts(b.starts)
    ensures var t := Behind(a, b, itemsize);
            var m := |a.base|;
            && |t.starts| == |t.base| + 1 && |t.base| == m + |b.base|
            && ValidStarts(t.starts)
            && (forall s :: 0 <= s <= m ==> t.starts[s] == a.starts[s])
            && (forall s :: m <= s < |t.starts| ==> t.starts[s] == b.starts[s - m] + a.starts[m])
  {
    var t := Behind(a, b, itemsize);
    var m := |a.base|;
    forall i, j | 0 <= i <= j < |t.starts| ensures t.starts[i] <= t.starts[j] {
      if i < m <= j {
        assert a.starts[i] <= a.starts[m] && b.starts[0] <= b.starts[j - m];
      } else if i >= m {
        assert b.starts[i - m] <= b.starts[j - m];
      }
    }
  }

  /** The stitch so far: `Some` of a table (empty at first), or `None` once a file has no native table. */
  function StitchUpTo(files: seq<File>, name: string, itemsize: nat): (r: Option<Table>)
    requires forall k :: 0 <= k < |files| ==> HasColumn(files[k].columns, name)
    ensures r.Some? ==> r.value.starts != []
  {
    if files == [] then Some(Table([0], []))
    else
      var n := |files| - 1;
      var before := StitchUpTo(files[..n], name, itemsize);
      if before.None? || RowCount(files[n]) == 0 then before
      else
        var local := SegmentTableOf(files[n], name);
        if local.None? then None else Some(Behind(before.value, local.value, itemsize))
  }

  /** `_stitch_native_segment_table`: `None` also when every file is empty. */
  function Stitch(files: seq<File>, name: string, itemsize: nat): Option<Table>
    requires forall k :: 0 <= k < |files| ==> HasColumn(files[k].columns, name)
  {
    var t := StitchUpTo(files, name, itemsize);
    if t.Some? && t.value.base == [] then None else t
  }

  /** Of the files that have rows, none is left out, and each has the column in native order. */
  lemma {:induction false} StitchUpToExact(files: seq<File>, name: string, itemsize: nat)
    requires forall k :: 0 <= k < |files| ==> HasColumn(files[k].columns, name)
    ensures var t := StitchUpTo(files, name, itemsize);
            && (t.Some? <==> NativeWhereRows(files, name))
            && (t.Some? ==> (t.value.base == [] <==> NoRows(files)))
  {
    if files == [] {
      return;
    }
    StitchUpToExact(files[..|files| - 1], name, itemsize);
    StitchStep(files, name, itemsize);
    RowsStep(files, name);
    hide *;
  }

  lemma RowsStep(files: seq<File>, name: string)
    requires files != [] && forall k :: 0 <= k < |files| ==> HasColumn(files[k].columns, name)
    ensures var n := |files| - 1;
            && (NoRows(files) <==> NoRows(files[..n]) && RowCount(files[n]) == 0)
            && (NativeWhereRows(files, name) <==>
                NativeWhereRows(files[..n], name)
                && (RowCount(files[n]) > 0 ==> DtypeOf(files[n].columns, name).native))
  {
    hide RowCount;
    hide DtypeOf;
    hide HasColumn;
  }

  lemma StitchStep(files: seq<File>, name: string, itemsize: nat)
    requires files != [] && forall k :: 0 <= k < |files| ==> HasColumn(files[k].columns, name)
    ensures var n := |files| - 1;
            var before, after := StitchUpTo(files[..n], name, itemsize), StitchUpTo(files, name, itemsize);
            if RowCount(files[n]) == 0 then after == before
            else
              && (after.Some? <==> before.Some? && DtypeOf(files[n].columns, name).native)
              && (after.Some? ==> after.value.base != [])
  {
    TableExact(files[|files| - 1], name);
    hide SegmentTableOf;
    hide RowCount;
    hide DtypeOf;
  }

  lemma TableExact(f: File, name: string)
    requires HasColumn(f.columns, name)
    ensures SegmentTableOf(f, name).Some? <==> DtypeOf(f.columns, name).native
    ensures SegmentTableOf(f, name).Some? ==> SegmentTableOf(f, name).value.base != []
  {
  }

  predicate NoRows(files: seq<File>) {
    forall k :: 0 <= k < |files| ==> RowCount(files[k]) == 0
  }

  predicate NativeWhereRows(files: seq<File>, name: string)
    requires forall k :: 0 <= k < |files| ==> HasColumn(files[k].columns, name)
  {
    forall k :: 0 <= k < |files| && RowCount(files[k]) > 0 ==> DtypeOf(files[k].columns, name).native
  }

  /** There is a stitched table exactly if there are rows, all of them in native order. */
  lemma StitchExact(files: seq<File>, name: string, itemsize: nat)
    requires forall k :: 0 <= k < |files| ==> HasColumn(files[k].columns, name)
    ensures Stitch(files, name, itemsize).Some? <==> !NoRows(files) && NativeWhereRows(files, name)
  {
    StitchUpToExact(files, name, itemsize);
  }

  /** Every file has the column, under one dtype. */
  ghost predicate SharedColumn(files: seq<File>, name: string, dtype: Dtype) {
    forall k :: 0 <= k < |files| ==> HasColumn(files[k].columns, name) && DtypeOf(files[k].columns, name) == dtype
  }

  /** Each file's column, in file order; the dataset's column is their concatenation. */
  function FileColumns(mem: Memory, files: seq<File>, name: string): seq<seq<Cell>>
    requires forall k :: 0 <= k < |files| ==> HasColumn(files[k].columns, name)
  {
    seq(|files|, k requires 0 <= k < |files| => ColumnCells(mem, files[k], name))
  }

  function FileRows(files: seq<File>): seq<nat> {
    seq(|files|, k requires 0 <= k < |files| => RowCount(files[k]))
  }

  lemma FileColumnLengths(mem: Memory, files: seq<File>, name: string)
    requires forall k :: 0 <= k < |files| ==> HasColumn(files[k].columns, name)
    ensures Lengths(FileColumns(mem, files, name)) == FileRows(files)
  {
    forall k | 0 <= k < |files| ensures |ColumnCells(mem, files[k], name)| == RowCount(files[k]) {
      ColumnLength(mem, files[k], name);
    }
  }

  /** The stitched table stands for the concatenated column. */
  lemma {:induction false} StitchRepresents(mem: Memory, files: seq<File>, name: string, dtype: Dtype)
    requires SharedColumn(files, name, dtype) && StitchUpTo(files, name, dtype.itemsize).Some?
    ensures Represents(mem, StitchUpTo(files, name, dtype.itemsize).value, dtype.itemsize,
                       Flat(FileColumns(mem, files, name)))
  {
    if files == [] {
      assert FileColumns(mem, files, name) == [];
    } else {
      var n := |files| - 1;
      var columns := FileColumns(mem, files, name);
      assert columns[..n] == FileColumns(mem, files[..n], name);
      assert columns[n] == ColumnCells(mem, files[n], name);
      StitchRepresents(mem, files[..n], name, dtype);
      StitchOne(mem, files[n], name, dtype, StitchUpTo(files[..n], name, dtype.itemsize).value, Flat(columns[..n]));
    }
  }

  /** Adding one file to a table that stands for the files before it. */
  lemma StitchOne(mem: Memory, f: File, name: string, dtype: Dtype, before: Table, column: seq<Cell>)
    requires HasColumn(f.columns, name) && DtypeOf(f.columns, name) == dtype
    requires Represents(mem, before, dtype.itemsize, column)
    ensures RowCount(f) == 0 ==> column + ColumnCells(mem, f, name) == column
    ensures RowCount(f) > 0 && SegmentTableOf(f, name).Some? ==>
              Represents(mem, Behind(before, SegmentTableOf(f, name).value, dtype.itemsize), dtype.itemsize,
                         column + ColumnCells(mem, f, name))
  {
    ColumnLength(mem, f, name);
    if RowCount(f) > 0 && SegmentTableOf(f, name).Some? {
      SegmentTableCorrect(mem, f, name);
      BehindRepresents(mem, before, SegmentTableOf(f, name).value, dtype.itemsize, column, ColumnCells(mem, f, name));
    }
  }

  /** The row boundaries are the same for every column: only the bases differ. */
  lemma {:induction false} StitchStartsShared(files: seq<File>, a: string, b: string, x: nat, y: nat)
    requires forall k :: 0 <= k < |files| ==> HasColumn(files[k].columns, a) && HasColumn(files[k].columns, b)
    requires StitchUpTo(files, a, x).Some? && StitchUpTo(files, b, y).Some?
    ensures StitchUpTo(files, a, x).value.starts == StitchUpTo(files, b, y).value.starts
  {
    if files != [] {
      StitchStartsShared(files[..|files| - 1], a, b, x, y);
    }
  }
}
