/**
 A reader's reads of several columns: one kernel pass per native column for dense masks,
 recorded records replayed for unsorted rows, and otherwise one column at a time.
 */
module ReaderColumns {
  import opened Sequences
  import opened Schedule
  import opened Segments
  import opened Selectors
  import opened MaskKernel
  import opened Files
  import opened FileReads

  predicate HasAll(f: File, names: seq<string>) {
    forall i :: 0 <= i < |names| ==> HasColumn(f.columns, names[i])
  }

  predicate NativeName(f: File, name: string)
    requires HasColumn(f.columns, name)
  {
    DtypeOf(f.columns, name).native
  }

  /** `_native_column_names`. */
  function NativeNames(f: File, names: seq<string>): (native: seq<string>)
    requires HasAll(f, names)
    ensures forall name :: name in native <==> name in names && HasColumn(f.columns, name) && NativeName(f, name)
  {
    if names == [] then []
    else
      var n := |names| - 1;
      var init := NativeNames(f, names[..n]);
      assert names == names[..n] + [names[n]];
      if NativeName(f, names[n]) then init + [names[n]] else init
  }

  /** `_gather_many_mask` takes the read: a dense mask of several records' rows, two native columns at least. */
  predicate MaskRoute(f: File, names: seq<string>, sel: Selector, dense: bool)
    requires HasAll(f, names)
  {
    sel.Mask? && |f.records| > 1 && RowCount(f) > 0 && dense && |NativeNames(f, names)| >= 2
  }

  /** `_gather_many_bin_reuse` gets as far as its import: several unsorted rows, two native columns at least. */
  predicate BinRoute(f: File, names: seq<string>, sel: Selector)
    requires HasAll(f, names)
  {
    && sel.Fancy? && |f.records| > 1 && |names| > 1 && |sel.rows| > 1 && !IndicesAreSorted(sel.rows)
    && |f.records| <= INT32_MAX && |NativeNames(f, names)| > 1
  }

  /**
   Why a read of several columns fails. The two routes import the kernels, and then use the
   file's mapping, before anything asks whether the reader is open; the bins route may first
   decline because the pool of columns would run on more threads (`pooled`).
   */
  function ManyTrouble(f: File, names: seq<string>, sel: Selector, closed: bool, cppAvailable: bool, dense: bool,
                       pooled: bool): Option<Error>
    requires HasAll(f, names) && ValidSelector(sel, RowCount(f))
  {
    if names == [] then None
    else if MaskRoute(f, names, sel, dense) || BinRoute(f, names, sel) then
      if !cppAvailable then Some(NoExtension)
      else if !closed then None
      else if BinRoute(f, names, sel) && pooled then Some(ClosedReader)
      else Some(NoMapping)
    else if Trouble(f, closed, cppAvailable).Some? then Trouble(f, closed, cppAvailable)
    else if |f.records| > 1 && BackwardRange(sel, RowCount(f)) then Some(BackwardSlice)
    else None
  }

  /** Two of the requested columns are in native order. */
  ghost predicate TwoNative(f: File, names: seq<string>)
    requires HasAll(f, names)
  {
    exists i, j :: 0 <= i < j < |names| && NativeName(f, names[i]) && NativeName(f, names[j])
  }

  lemma {:induction false} NativeCount(f: File, names: seq<string>)
    requires HasAll(f, names)
    ensures |NativeNames(f, names)| >= 2 <==> TwoNative(f, names)
    ensures NativeNames(f, names) != [] <==> exists i :: 0 <= i < |names| && NativeName(f, names[i])
  {
    if names != [] {
      var n := |names| - 1;
      NativeCount(f, names[..n]);
      assert forall i :: 0 <= i < n ==> names[..n][i] == names[i];
      if NativeName(f, names[n]) {
        if i :| 0 <= i < n && NativeName(f, names[i]) {
          assert TwoNative(f, names);
        }
      }
    }
  }

  /** Several native columns of several records: a dense mask, or several rows that somewhere descend. */
  ghost predicate KernelsFirst(f: File, names: seq<string>, sel: Selector, dense: bool)
    requires HasAll(f, names)
  {
    && |f.records| > 1 && TwoNative(f, names)
    && match sel
       case Mask(_) => dense && RowCount(f) > 0
       case Fancy(rows) => |f.records| <= INT32_MAX && exists i, j :: 0 <= i < j < |rows| && rows[j] < rows[i]
       case _ => false
  }

  /** Case by case, what a read of several columns fails with. */
  lemma ManyTroubleExactly(f: File, names: seq<string>, sel: Selector, closed: bool, cppAvailable: bool, dense: bool,
                           pooled: bool)
    requires HasAll(f, names) && ValidSelector(sel, RowCount(f))
    ensures var r := ManyTrouble(f, names, sel, closed, cppAvailable, dense, pooled);
            && (names == [] ==> r == None)
            && (names != [] && !closed ==>
                  r == if |f.records| <= 1 then None
                       else if !cppAvailable then Some(NoExtension)
                       else if BackwardRange(sel, RowCount(f)) then Some(BackwardSlice) else None)
            && (names != [] && closed ==>
                  r == if !KernelsFirst(f, names, sel, dense) then Some(ClosedReader)
                       else if !cppAvailable then Some(NoExtension)
                       else if sel.Fancy? && pooled then Some(ClosedReader) else Some(NoMapping))
  {
    NativeCount(f, names);
    if sel.Fancy? {
      IndicesAreSortedExact(sel.rows);
    }
  }

  /** Every column gathered so far is the read of that column. */
  ghost predicate ReadsOf(mem: Memory, f: File, gathered: map<string, seq<Cell>>, sel: Selector)
    requires ValidSelector(sel, RowCount(f))
  {
    forall name :: name in gathered ==> ReadOf(mem, f, name, sel, gathered[name])
  }

  ghost predicate ReadOf(mem: Memory, f: File, name: string, sel: Selector, cells: seq<Cell>)
    requires ValidSelector(sel, RowCount(f))
  {
    && HasColumn(f.columns, name) && |ColumnCells(mem, f, name)| == RowCount(f)
    && cells == Read(ColumnCells(mem, f, name), sel)
  }

  /** A native column is its bytes on disk. */
  lemma NativeRead(mem: Memory, f: File, name: string, sel: Selector, cells: seq<Cell>)
    requires ValidSelector(sel, RowCount(f)) && HasColumn(f.columns, name) && NativeName(f, name)
    requires var c := Find(f.columns, name).value;
             |DiskColumn(mem, f, c)| == RowCount(f) && cells == Read(DiskColumn(mem, f, c), sel)
    ensures ReadOf(mem, f, name, sel, cells)
  {
  }

  /** Asking for the selected rows is asking with the mask. */
  lemma LoweredRead(mem: Memory, f: File, name: string, sel: Selector, rows: seq<int>, cells: seq<Cell>)
    requires ValidSelector(sel, RowCount(f)) && rows == Rows(sel, RowCount(f)) && InRange(rows, RowCount(f))
    requires ReadOf(mem, f, name, Fancy(rows), cells)
    ensures ReadOf(mem, f, name, sel, cells)
  {
  }

  /** The columns that are left over, one at a time, as rows. */
  method GatherRest(mem: Memory, f: File, names: seq<string>, rows: seq<int>, hint: Option<bool>, ghost sel: Selector,
                    before: map<string, seq<Cell>>)
    returns (gathered: map<string, seq<Cell>>)
    requires HasAll(f, names) && ValidSelector(sel, RowCount(f)) && RowCount(f) <= INT64_MAX
    requires rows == Rows(sel, RowCount(f)) && ReadsOf(mem, f, before, sel) && before.Keys <= set name | name in names
    ensures ReadsOf(mem, f, gathered, sel) && gathered.Keys == set name | name in names
  {
    hide ReadOf;
    RowsInRange(sel, RowCount(f));
    gathered := before;
    for i := 0 to |names|
      invariant ReadsOf(mem, f, gathered, sel) && gathered.Keys <= set name | name in names
      invariant forall k :: 0 <= k < i ==> names[k] in gathered
    {
      if names[i] !in gathered {
        var cells := GatherChild(mem, f, names[i], Fancy(rows), hint, true, false, true);
        ChildIsRead(mem, f, names[i], Fancy(rows), cells);
        LoweredRead(mem, f, names[i], sel, rows, cells.value);
        gathered := gathered[names[i] := cells.value];
      }
    }
  }

  lemma ChildIsRead(mem: Memory, f: File, name: string, sel: Selector, cells: Outcome<seq<Cell>>)
    requires HasColumn(f.columns, name) && ValidSelector(sel, RowCount(f)) && sel.Fancy?
    requires cells == ChildGather(mem, f, name, sel, false, true)
    ensures cells.Done? && ReadOf(mem, f, name, sel, cells.value)
  {
    ColumnLength(mem, f, name);
  }

  /** `_gather_many_mask`: the mask kernel for every native column, the selected rows for the others. */
  method GatherMasked(mem: Memory, f: File, names: seq<string>, mask: seq<bool>)
    returns (gathered: map<string, seq<Cell>>)
    requires HasAll(f, names) && |f.records| > 1 && |mask| == RowCount(f) <= INT64_MAX
    ensures ReadsOf(mem, f, gathered, Mask(mask)) && gathered.Keys == set name | name in names
  {
    hide ReadOf;
    var native := NativeNames(f, names);
    gathered := map[];
    for i := 0 to |native|
      invariant ReadsOf(mem, f, gathered, Mask(mask)) && gathered.Keys <= set name | name in names
    {
      assert native[i] in native;
      var cells := MaskPass(mem, f, Find(f.columns, native[i]).value, mask);
      NativeRead(mem, f, native[i], Mask(mask), cells);
      gathered := gathered[native[i] := cells];
    }
    gathered := GatherRest(mem, f, names, Selected(mask, 0, |mask|), Some(true), Mask(mask), gathered);
  }

  /** The first native column of the bins route: divided where the records are uniform, else searched. */
  method FirstBins(mem: Memory, f: File, c: nat, rows: seq<int>) returns (cells: seq<Cell>, bins: seq<Bin>)
    requires c < |f.columns| && |f.records| > 1 && |f.records| <= INT32_MAX && RowCount(f) <= INT64_MAX
    requires InRange(rows, RowCount(f))
    ensures InRange(rows, |DiskColumn(mem, f, c)|) && cells == Pick(DiskColumn(mem, f, c), rows)
    ensures BinsOf(bins, RowStarts(f.records), rows)
  {
    DiskLength(mem, f, c);
    RecordTable(mem, f, c);
    var out, recorded := new Cell[|rows|], new Bin[|rows|];
    var order := AnyOrder(|rows|);
    if DetectUniform(f.records).Some? {
      GatherUniformBins(mem, f, c, rows, out, recorded, order);
    } else {
      GatherSegmentBins(mem, DiskColumn(mem, f, c), rows, out, recorded, Table(RowStarts(f.records), FoldedBases(f, c)),
                        f.columns[c].dtype.itemsize, order);
    }
    return out[..], recorded[..];
  }

  /** Every further native column replays the bins. */
  method NextBins(mem: Memory, f: File, c: nat, rows: seq<int>, bins: seq<Bin>) returns (cells: seq<Cell>)
    requires c < |f.columns| && |f.records| > 1 && InRange(rows, RowCount(f))
    requires BinsOf(bins, RowStarts(f.records), rows)
    ensures InRange(rows, |DiskColumn(mem, f, c)|) && cells == Pick(DiskColumn(mem, f, c), rows)
  {
    DiskLength(mem, f, c);
    RecordTable(mem, f, c);
    var out := new Cell[|rows|];
    var order := AnyOrder(|rows|);
    if DetectUniform(f.records).Some? {
      GatherUniformWithBins(mem, f, c, rows, out, bins, order);
    } else {
      GatherSegmentWithBins(mem, DiskColumn(mem, f, c), rows, out, bins, FoldedBases(f, c), RowStarts(f.records),
                            f.columns[c].dtype.itemsize, order);
    }
    return out[..];
  }

  /** `_gather_many_bin_reuse`: the records are found once, for the first native column. */
  method GatherBinned(mem: Memory, f: File, names: seq<string>, rows: seq<int>)
    returns (gathered: map<string, seq<Cell>>)
    requires HasAll(f, names) && |f.records| > 1 && |f.records| <= INT32_MAX && RowCount(f) <= INT64_MAX
    requires InRange(rows, RowCount(f)) && NativeNames(f, names) != []
    ensures ReadsOf(mem, f, gathered, Fancy(rows)) && gathered.Keys == set name | name in names
  {
    hide ReadOf;
    hide BinsOf;
    hide DiskColumn;
    var native := NativeNames(f, names);
    assert native[0] in native;
    var c := Find(f.columns, native[0]).value;
    var cells, bins := FirstBins(mem, f, c, rows);
    DiskLength(mem, f, c);
    NativeRead(mem, f, native[0], Fancy(rows), cells);
    gathered := map[native[0] := cells];
    for i := 1 to |native|
      invariant ReadsOf(mem, f, gathered, Fancy(rows)) && gathered.Keys <= set name | name in names
    {
      assert native[i] in native;
      c := Find(f.columns, native[i]).value;
      cells := NextBins(mem, f, c, rows, bins);
      DiskLength(mem, f, c);
      NativeRead(mem, f, native[i], Fancy(rows), cells);
      gathered := gathered[native[i] := cells];
    }
    gathered := GatherRest(mem, f, names, rows, Some(false), Fancy(rows), gathered);
  }

  /** One column at a time; the first that fails decides, and all fail alike. */
  method GatherEach(mem: Memory, f: File, names: seq<string>, sel: Selector, hint: Option<bool>, closed: bool,
                    cppAvailable: bool, dense: bool)
    returns (r: Outcome<map<string, seq<Cell>>>)
    requires HasAll(f, names) && ValidSelector(sel, RowCount(f)) && RowCount(f) <= INT64_MAX
    ensures r.Failure() == if names == [] then None
                           else if Trouble(f, closed, cppAvailable).Some? then Trouble(f, closed, cppAvailable)
                           else if |f.records| > 1 && BackwardRange(sel, RowCount(f)) then Some(BackwardSlice)
                           else None
    ensures r.Done? ==> ReadsOf(mem, f, r.value, sel) && r.value.Keys == set name | name in names
  {
    hide BackwardRange;
    var gathered: map<string, seq<Cell>> := map[];
    for i := 0 to |names|
      invariant ReadsOf(mem, f, gathered, sel) && gathered.Keys == set k | 0 <= k < i :: names[k]
      invariant i > 0 ==> Trouble(f, closed, cppAvailable).None? &&
                          !(|f.records| > 1 && BackwardRange(sel, RowCount(f)))
    {
      var cells := GatherChild(mem, f, names[i], sel, hint, dense, closed, cppAvailable);
      if cells.Failed? {
        return Failed(cells.error);
      }
      ColumnLength(mem, f, names[i]);
      gathered := gathered[names[i] := cells.value];
    }
    return Done(gathered);
  }

  /** `_gather_many` of a reader: exactly the requested columns, each with its read, or the one error. */
  method GatherColumns(mem: Memory, f: File, names: seq<string>, sel: Selector, closed: bool, cppAvailable: bool,
                       dense: bool, pooled: bool)
    returns (r: Outcome<map<string, seq<Cell>>>)
    requires HasAll(f, names) && ValidSelector(sel, RowCount(f)) && RowCount(f) <= INT64_MAX
    ensures r.Failure() == ManyTrouble(f, names, sel, closed, cppAvailable, dense, pooled)
    ensures r.Done? ==> ReadsOf(mem, f, r.value, sel) && r.value.Keys == set name | name in names
  {
    hide ReadOf;
    hide NativeNames;
    if names != [] && MaskRoute(f, names, sel, dense) {
      if !cppAvailable {
        return Failed(NoExtension);
      }
      if closed {
        return Failed(NoMapping);
      }
      var gathered := GatherMasked(mem, f, names, sel.mask);
      return Done(gathered);
    }
    if names != [] && BinRoute(f, names, sel) {
      if !cppAvailable {
        return Failed(NoExtension);
      }
      if !pooled {
        if closed {
          return Failed(NoMapping);
        }
        var gathered := GatherBinned(mem, f, names, sel.rows);
        return Done(gathered);
      }
    }
    if sel.Mask? {
      r := GatherLowered(mem, f, names, sel.mask, closed, cppAvailable, dense);
      return;
    }
    var hint := if sel.Fancy? then Some(IndicesAreSorted(sel.rows)) else None;
    r := GatherEach(mem, f, names, sel, hint, closed, cppAvailable, dense);
  }

  /** A declined mask is lowered to its rows once, for all columns. */
  method GatherLowered(mem: Memory, f: File, names: seq<string>, mask: seq<bool>, closed: bool, cppAvailable: bool,
                       dense: bool)
    returns (r: Outcome<map<string, seq<Cell>>>)
    requires HasAll(f, names) && |mask| == RowCount(f) <= INT64_MAX
    ensures r.Failure() == if names == [] then None else Trouble(f, closed, cppAvailable)
    ensures r.Done? ==> ReadsOf(mem, f, r.value, Mask(mask)) && r.value.Keys == set name | name in names
  {
    hide ReadOf;
    var rows := Selected(mask, 0, |mask|);
    RowsInRange(Mask(mask), RowCount(f));
    r := GatherEach(mem, f, names, Fancy(rows), Some(true), closed, cppAvailable, dense);
    if r.Done? {
      forall name | name in r.value ensures ReadOf(mem, f, name, Mask(mask), r.value[name]) {
        LoweredRead(mem, f, name, Mask(mask), rows, r.value[name]);
      }
    }
  }
}
