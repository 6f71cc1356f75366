/**
 What a mapping shows. Only an open reader keeps its file's bytes at their addresses; once
 the reader is closed, nothing is known of what a load from there returns.
 */
module Mappings {
  import opened Sequences
  import opened MagicDivide
  import opened Schedule
  import opened Files
  import opened FileReads

  predicate InBlock(f: File, c: nat, r: nat, address: int)
    requires c < |f.columns| && r < |f.records|
  {
    var start := BlockAddress(f, c, r);
    start <= address < start + f.records[r].rows * f.columns[c].dtype.itemsize
  }

  /** The address lies in one of the file's column blocks. */
  ghost predicate InBlocks(f: File, address: int) {
    exists c: nat, r: nat :: c < |f.columns| && r < |f.records| && InBlock(f, c, r, address)
  }

  /** Both address spaces show the same bytes wherever the file has cells. */
  ghost predicate SameFile(a: Memory, b: Memory, f: File) {
    forall address :: InBlocks(f, address) ==> a(address) == b(address)
  }

  lemma SameCells(a: Memory, b: Memory, f: File, name: string)
    requires SameFile(a, b, f) && HasColumn(f.columns, name)
    ensures ColumnCells(a, f, name) == ColumnCells(b, f, name)
  {
    var c := Find(f.columns, name).value;
    forall r | 0 <= r < |f.records| ensures RecordCells(a, f, c, r) == RecordCells(b, f, c, r) {
      SameRecord(a, b, f, c, r);
    }
    assert AllRecordCells(a, f, c) == AllRecordCells(b, f, c);
  }

  lemma SameRecord(a: Memory, b: Memory, f: File, c: nat, r: nat)
    requires SameFile(a, b, f) && c < |f.columns| && r < |f.records|
    ensures RecordCells(a, f, c, r) == RecordCells(b, f, c, r)
  {
    var itemsize := f.columns[c].dtype.itemsize;
    forall k | 0 <= k < f.records[r].rows
      ensures Load(a, BlockAddress(f, c, r) + k * itemsize, itemsize)
           == Load(b, BlockAddress(f, c, r) + k * itemsize, itemsize)
    {
      var address := BlockAddress(f, c, r) + k * itemsize;
      forall j | 0 <= j < itemsize ensures Load(a, address, itemsize)[j] == Load(b, address, itemsize)[j] {
        CellInBlock(f, c, r, k, j);
      }
    }
  }

  /** The bytes of a cell lie in its column's block. */
  lemma CellInBlock(f: File, c: nat, r: nat, k: nat, j: nat)
    requires c < |f.columns| && r < |f.records| && k < f.records[r].rows && j < f.columns[c].dtype.itemsize
    ensures InBlocks(f, BlockAddress(f, c, r) + k * f.columns[c].dtype.itemsize + j)
  {
    var itemsize := f.columns[c].dtype.itemsize;
    MulMonotone(k + 1, f.records[r].rows, itemsize);
    MulAdd(k, 1, itemsize);
    assert InBlock(f, c, r, BlockAddress(f, c, r) + k * itemsize + j);
  }

  /** Every cell depends on its bytes: one of them changed, the cell reads differently. */
  lemma StaleCell(mem: Memory, f: File, name: string, row: nat) returns (other: Memory, at: int)
    requires HasColumn(f.columns, name) && DtypeOf(f.columns, name).itemsize > 0 && row < RowCount(f)
    ensures InBlocks(f, at) && forall address :: address != at ==> other(address) == mem(address)
    ensures |ColumnCells(mem, f, name)| == |ColumnCells(other, f, name)| == RowCount(f)
    ensures ColumnCells(other, f, name)[row] != ColumnCells(mem, f, name)[row]
  {
    var c := Find(f.columns, name).value;
    var dtype := f.columns[c].dtype;
    var starts := RowStarts(f.records);
    var r := WindowOf(starts, row);
    var k := row - starts[r];
    assert starts[r + 1] == starts[r] + RecordRows(f.records)[r];
    at := BlockAddress(f, c, r) + k * dtype.itemsize;
    CellInBlock(f, c, r, k, 0);
    var start := at;
    other := address => if address == start then (mem(address) + 1) % 256 else mem(address);
    RecordCellAt(mem, f, c, r, k);
    RecordCellAt(other, f, c, r, k);
    DiskLength(mem, f, c);
    DiskLength(other, f, c);
    assert Load(other, at, dtype.itemsize)[0] != Load(mem, at, dtype.itemsize)[0];
    StaysDifferent(dtype, DiskColumn(mem, f, c), DiskColumn(other, f, c), row);
  }

  /** Conversion to host order does not hide a difference in the first byte. */
  lemma StaysDifferent(dtype: Dtype, a: seq<Cell>, b: seq<Cell>, row: nat)
    requires row < |a| == |b| && |a[row]| == |b[row]| > 0 && a[row][0] != b[row][0]
    ensures |ToHost(dtype, a)| == |ToHost(dtype, b)| == |a|
    ensures ToHost(dtype, a)[row] != ToHost(dtype, b)[row]
  {
    var unit := dtype.unit;
    if !dtype.native && 0 < unit <= |a[row]| {
      assert SwapUnits(a[row], unit)[unit - 1] == ReverseBytes(a[row][..unit])[unit - 1] == a[row][0];
      assert SwapUnits(b[row], unit)[unit - 1] == ReverseBytes(b[row][..unit])[unit - 1] == b[row][0];
    }
  }
}
