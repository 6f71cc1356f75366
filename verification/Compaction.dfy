/**
 Compaction rewrites a file of many records as one record: for every column, the blocks
 of all records are spliced one behind the other. The cells a reader finds in the result
 are the cells it finds in the source.
 */
module Compaction {
  import opened Sequences
  import opened LittleEndian
  import opened MagicDivide
  import opened Files
  import RecordIndex

  /** A file's bytes as an address space; a read past the end is never made by a valid file. */
  function FileMemory(bytes: seq<Byte>): Memory {
    (a: int) => if 0 <= a < |bytes| then bytes[a] else 0
  }

  /** A file as its header reports it. The encoding of the header itself is not modelled. */
  datatype Image = Image(columns: seq<Column>, nRecords: nat, committed: nat, dataOffset: nat, bytes: seq<Byte>)

  function Width(columns: seq<Column>): nat { Prefix(columns, |columns|) }

  /** `record_body_size`: the padded size of a record body on disk. */
  function BodySize(rows: nat, columns: seq<Column>): int { RecordIndex.AlignUp(rows * Width(columns)) }

  function AsRecords(index: seq<(int, int)>): seq<Record>
    requires forall k :: 0 <= k < |index| ==> index[k].1 >= 0
  {
    seq(|index|, k requires 0 <= k < |index| => Record(index[k].0, index[k].1))
  }

  /** The file a reader opens: its records as the header walk finds them. */
  function Opened(image: Image, crc: RecordIndex.Checksum): Option<File> {
    var index := RecordIndex.NativeIndex(image.bytes, crc, Width(image.columns), image.dataOffset, image.nRecords);
    if index.Ok? && forall k :: 0 <= k < |index.value| ==> index.value[k].1 >= 0
    then Some(File(0, AsRecords(index.value), image.columns))
    else None
  }

  /** Every record's body lies inside the file. */
  ghost predicate BodiesInside(f: File, total: int) {
    forall r :: 0 <= r < |f.records| ==>
      0 <= f.records[r].body && f.records[r].body + f.records[r].rows * Width(f.columns) <= total
  }

  lemma OpenedInside(image: Image, crc: RecordIndex.Checksum)
    requires Opened(image, crc).Some?
    ensures BodiesInside(Opened(image, crc).value, |image.bytes|)
    ensures |Opened(image, crc).value.records| == image.nRecords
  {
    var width := Width(image.columns);
    var size := RecordIndex.NativeSize(width);
    var index := RecordIndex.NativeIndex(image.bytes, crc, width, image.dataOffset, image.nRecords).value;
    RecordIndex.WalkLength(image.bytes, crc, size, image.dataOffset, 0, image.nRecords);
    RecordIndex.WalkIffChain(image.bytes, crc, size, image.dataOffset, 0, image.nRecords, index);
    forall r | 0 <= r < |index| ensures size(index[r].1) >= index[r].1 * width >= 0 {
      RecordIndex.NativeSizeOfCount(index[r].1, width);
    }
    forall r | 0 <= r < |index| ensures 0 <= index[r].0 && index[r].0 + index[r].1 * width <= |image.bytes| {
      RecordIndex.RecordsApart(image.bytes, crc, size, image.dataOffset, 0, index, r);
    }
  }

  // ---- the bytes of the one record ----

  /** Column `c`'s block in record `r`. */
  function BlockBytes(mem: Memory, f: File, c: nat, r: nat): seq<Byte>
    requires c < |f.columns| && r < |f.records|
  {
    Load(mem, BlockAddress(f, c, r), f.records[r].rows * f.columns[c].dtype.itemsize)
  }

  function Blocks(mem: Memory, f: File, c: nat): seq<seq<Byte>>
    requires c < |f.columns|
  {
    seq(|f.records|, r requires 0 <= r < |f.records| => BlockBytes(mem, f, c, r))
  }

  /** Column `c`'s run in the output. */
  function ColumnRun(mem: Memory, f: File, c: nat): seq<Byte>
    requires c < |f.columns|
  {
    Flat(Blocks(mem, f, c))
  }

  function ColumnRuns(mem: Memory, f: File): seq<seq<Byte>> {
    seq(|f.columns|, c requires 0 <= c < |f.columns| => ColumnRun(mem, f, c))
  }

  function Body(mem: Memory, f: File): seq<Byte> { Flat(ColumnRuns(mem, f)) }

  function Scaled(offsets: seq<int>, factor: nat): seq<int> {
    seq(|offsets|, k requires 0 <= k < |offsets| => offsets[k] * factor)
  }

  /** Row boundaries times the element size are byte boundaries. */
  lemma BlockOffsets(mem: Memory, f: File, c: nat)
    requires c < |f.columns|
    ensures PrefixSums(Scaled(RowStarts(f.records), f.columns[c].dtype.itemsize), Lengths(Blocks(mem, f, c)))
    ensures |ColumnRun(mem, f, c)| == RowCount(f) * f.columns[c].dtype.itemsize
  {
    var itemsize := f.columns[c].dtype.itemsize;
    var starts := RowStarts(f.records);
    var offsets := Scaled(starts, itemsize);
    forall k | 0 <= k < |f.records| ensures offsets[k + 1] == offsets[k] + Lengths(Blocks(mem, f, c))[k] {
      assert starts[k + 1] == starts[k] + RecordRows(f.records)[k];
      MulAdd(starts[k], f.records[k].rows, itemsize);
    }
    FlatLength(Blocks(mem, f, c), offsets);
  }

  /** Where each column's run begins: its prefix times the row count. */
  function RunOffsets(columns: seq<Column>, rows: nat): seq<int> {
    seq(|columns| + 1, c requires 0 <= c <= |columns| => Prefix(columns, c) * rows)
  }

  lemma RunsAreSpaced(mem: Memory, f: File)
    ensures PrefixSums(RunOffsets(f.columns, RowCount(f)), Lengths(ColumnRuns(mem, f)))
    ensures |Body(mem, f)| == Width(f.columns) * RowCount(f)
  {
    var rows := RowCount(f);
    var offsets := RunOffsets(f.columns, rows);
    forall c | 0 <= c < |f.columns| ensures offsets[c + 1] == offsets[c] + Lengths(ColumnRuns(mem, f))[c] {
      BlockOffsets(mem, f, c);
      MulAdd(Prefix(f.columns, c), f.columns[c].dtype.itemsize, rows);
    }
    FlatLength(ColumnRuns(mem, f), offsets);
  }

  /** Byte `j` of the cell `local` of record `r`, found in the output body. */
  lemma ByteInBody(mem: Memory, f: File, c: nat, r: nat, local: nat, j: nat)
    requires c < |f.columns| && r < |f.records| && local < f.records[r].rows && j < f.columns[c].dtype.itemsize
    ensures var itemsize := f.columns[c].dtype.itemsize;
            var at := Prefix(f.columns, c) * RowCount(f) + (RowStarts(f.records)[r] + local) * itemsize + j;
            0 <= at < |Body(mem, f)| &&
            Body(mem, f)[at] == mem(BlockAddress(f, c, r) + local * itemsize + j)
  {
    var itemsize := f.columns[c].dtype.itemsize;
    var starts := RowStarts(f.records);
    PrefixSumsSorted(starts, RecordRows(f.records));
    CellInBlock(local, f.records[r].rows, itemsize, j);
    var inBlock := local * itemsize + j;
    assert ColumnRun(mem, f, c)[starts[r] * itemsize + inBlock] == mem(BlockAddress(f, c, r) + inBlock) by {
      BlockOffsets(mem, f, c);
      FlatAt(Blocks(mem, f, c), Scaled(starts, itemsize), r, inBlock);
    }
    MulAdd(starts[r], local, itemsize);
    hide ColumnRun;
    RunsAreSpaced(mem, f);
    FlatAt(ColumnRuns(mem, f), RunOffsets(f.columns, RowCount(f)), c, starts[r] * itemsize + inBlock);
  }

  lemma CellInBlock(local: nat, rows: nat, itemsize: nat, j: nat)
    requires local < rows && j < itemsize
    ensures 0 <= local * itemsize + j < rows * itemsize
  {
    MulAdd(local, 1, itemsize);
    MulMonotone(local + 1, rows, itemsize);
  }

  // ---- the same cells ----

  /** A one-record file over the spliced body. */
  function OneRecord(f: File, body: int): File {
    File(0, [Record(body, RowCount(f))], f.columns)
  }

  lemma OneRecordRows(f: File, body: int)
    ensures RowCount(OneRecord(f, body)) == RowCount(f) && RowStarts(OneRecord(f, body).records) == [0, RowCount(f)]
  {
    var one := [Record(body, RowCount(f))];
    assert one[..0] == [];
    assert RowStarts(one) == RowStarts(one[..0]) + [RowStarts(one[..0])[0] + RowCount(f)];
  }

  /** The value at (column, global row) is the value at (record, local row) of the source. */
  lemma CellPreserved(mem: Memory, f: File, out: Memory, body: int, c: nat, r: nat, local: nat, row: int)
    requires Load(out, body, |Body(mem, f)|) == Body(mem, f)
    requires c < |f.columns| && r < |f.records| && local < f.records[r].rows && row == RowStarts(f.records)[r] + local
    ensures var itemsize := f.columns[c].dtype.itemsize;
            Load(out, BlockAddress(OneRecord(f, body), c, 0) + row * itemsize, itemsize)
            == RecordCells(mem, f, c, r)[local]
  {
    var itemsize := f.columns[c].dtype.itemsize;
    var at := BlockAddress(OneRecord(f, body), c, 0) + row * itemsize;
    var found, cell := Load(out, at, itemsize), RecordCells(mem, f, c, r)[local];
    forall j | 0 <= j < itemsize ensures found[j] == cell[j] {
      ByteInBody(mem, f, c, r, local, j);
      var p := at + j - body;
      assert Load(out, body, |Body(mem, f)|)[p] == out(body + p);
    }
  }

  /** Every column of the one-record file is the source's column. */
  lemma ColumnPreserved(mem: Memory, f: File, out: Memory, body: int, c: nat)
    requires Load(out, body, |Body(mem, f)|) == Body(mem, f) && c < |f.columns|
    ensures Flat(AllRecordCells(out, OneRecord(f, body), c)) == Flat(AllRecordCells(mem, f, c))
  {
    var g := OneRecord(f, body);
    var cells := AllRecordCells(mem, f, c);
    var starts := RowStarts(f.records);
    assert Lengths(cells) == RecordRows(f.records);
    FlatLength(cells, starts);
    FlatSingle(RecordCells(out, g, c, 0));
    assert AllRecordCells(out, g, c) == [RecordCells(out, g, c, 0)];
    forall row | 0 <= row < RowCount(f) ensures RecordCells(out, g, c, 0)[row] == Flat(cells)[row] {
      RowPreserved(mem, f, out, body, c, row);
    }
  }

  lemma RowPreserved(mem: Memory, f: File, out: Memory, body: int, c: nat, row: nat)
    requires Load(out, body, |Body(mem, f)|) == Body(mem, f) && c < |f.columns| && row < RowCount(f)
    ensures |Flat(AllRecordCells(mem, f, c))| == RowCount(f)
    ensures RecordCells(out, OneRecord(f, body), c, 0)[row] == Flat(AllRecordCells(mem, f, c))[row]
  {
    hide Body;
    hide Flat;
    var cells := AllRecordCells(mem, f, c);
    var starts := RowStarts(f.records);
    assert Lengths(cells) == RecordRows(f.records);
    FlatLength(cells, starts);
    var r := FlatLocate(cells, starts, row);
    assert starts[r + 1] == starts[r] + RecordRows(f.records)[r];
    CellPreserved(mem, f, out, body, c, r, row - starts[r], row);
  }

  /** The compacted file has the same logical table: the same rows and, name by name, the same cells. */
  ghost predicate SameTable(a: seq<Byte>, f: File, b: seq<Byte>, g: File) {
    && f.columns == g.columns
    && RowCount(f) == RowCount(g)
    && forall name :: HasColumn(f.columns, name) ==>
         ColumnCells(FileMemory(a), f, name) == ColumnCells(FileMemory(b), g, name)
  }

  lemma TablePreserved(source: seq<Byte>, f: File, output: seq<Byte>, body: int)
    requires Load(FileMemory(output), body, |Body(FileMemory(source), f)|) == Body(FileMemory(source), f)
    ensures SameTable(source, f, output, OneRecord(f, body))
  {
    OneRecordRows(f, body);
    forall name | HasColumn(f.columns, name)
      ensures ColumnCells(FileMemory(source), f, name) == ColumnCells(FileMemory(output), OneRecord(f, body), name)
    {
      ColumnPreserved(FileMemory(source), f, FileMemory(output), body, Find(f.columns, name).value);
    }
  }

  // ---- the compacted file ----

  function Zeros(n: int): seq<Byte> { seq(Max(0, n), _ => 0) }

  /** The header of the only record. */
  function RecordHeader(crc: RecordIndex.Checksum, rows: nat): (header: seq<Byte>)
    requires rows <= INT64_MAX
    ensures |header| == RecordIndex.HEADER_SIZE
  {
    RecordIndex.SignedRange(0);
    RecordIndex.SignedRange(rows);
    RecordIndex.HeaderBytes(crc, 0, rows)
  }

  /** The output file: header, record header, spliced body, and the pad the source computes. */
  function CompactedBytes(header: seq<Byte>, crc: RecordIndex.Checksum, committed: nat, bytes: seq<Byte>, f: File)
    : seq<Byte>
    requires committed <= INT64_MAX
  {
    var body := Body(FileMemory(bytes), f);
    header + RecordHeader(crc, committed) + body + Zeros(BodySize(committed, f.columns) - |body|)
  }

  lemma CompactedParts(header: seq<Byte>, crc: RecordIndex.Checksum, bytes: seq<Byte>, f: File,
                       size: RecordIndex.BodySize)
    requires RowCount(f) <= INT64_MAX && size == RecordIndex.NativeSize(Width(f.columns))
    ensures var rows := RowCount(f);
            var out := CompactedBytes(header, crc, rows, bytes, f);
            var block := RecordIndex.Block(rows, RecordHeader(crc, rows), out[|header| + RecordIndex.HEADER_SIZE..]);
            && RecordIndex.Written(crc, size, [block], 0)
            && RecordIndex.HoldsAt(out, |header|, [block])
            && Body(FileMemory(bytes), f) <= block.body && |block.body| == BodySize(rows, f.columns)
  {
    var rows := RowCount(f);
    var out := CompactedBytes(header, crc, rows, bytes, f);
    RunsAreSpaced(FileMemory(bytes), f);
    RecordIndex.NativeSizeOfCount(rows, Width(f.columns));
    var block := RecordIndex.Block(rows, RecordHeader(crc, rows), out[|header| + RecordIndex.HEADER_SIZE..]);
    assert out == header + block.header + block.body;
    assert RecordIndex.BlockBytes([block]) == block.header + block.body;
    assert out[|header|..] == block.header + block.body;
  }

  /** The header walk finds the one record; its body is the spliced bytes and less than 8 zeros. */
  lemma CompactedIndex(header: seq<Byte>, crc: RecordIndex.Checksum, bytes: seq<Byte>, f: File)
    requires RowCount(f) <= INT64_MAX
    ensures var out := CompactedBytes(header, crc, RowCount(f), bytes, f);
            var at := |header| + RecordIndex.HEADER_SIZE;
            var body := Body(FileMemory(bytes), f);
            && RecordIndex.NativeIndex(out, crc, Width(f.columns), |header|, 1) == RecordIndex.Ok([(at, RowCount(f))])
            && Load(FileMemory(out), at, |body|) == body
            && |out| == at + BodySize(RowCount(f), f.columns)
            && header <= out && at + |body| <= |out| < at + |body| + 8
            && forall k :: at + |body| <= k < |out| ==> out[k] == 0
  {
    RunsAreSpaced(FileMemory(bytes), f);
    RecordIndex.NativeSizeOfCount(RowCount(f), Width(f.columns));
    var out := CompactedBytes(header, crc, RowCount(f), bytes, f);
    var size := RecordIndex.NativeSize(Width(f.columns));
    var at := |header| + RecordIndex.HEADER_SIZE;
    CompactedParts(header, crc, bytes, f, size);
    var block := RecordIndex.Block(RowCount(f), RecordHeader(crc, RowCount(f)), out[at..]);
    RecordIndex.WalkRecovers(out, crc, size, |header|, [block]);
    OneLayout(block, |header|);
    BodyLoads(out, at, Body(FileMemory(bytes), f));
  }

  lemma OneLayout(block: RecordIndex.Block, offset: nat)
    ensures RecordIndex.Layout([block], offset) == [(offset + RecordIndex.HEADER_SIZE, block.rows)]
  {
    assert [block][1..] == [];
  }

  lemma BodyLoads(out: seq<Byte>, at: nat, body: seq<Byte>)
    requires at <= |out| && body <= out[at..]
    ensures Load(FileMemory(out), at, |body|) == body
  {
    assert out[at..][..|body|] == body;
  }

  /** Compaction of an opened file as a whole; a file of at most one record is left as it is. */
  function Compacted(image: Image, f: File, header: seq<Byte>, crc: RecordIndex.Checksum): Image
    requires image.committed <= INT64_MAX
  {
    if image.nRecords <= 1 then image
    else
      Image(image.columns, 1, image.committed, |header|,
            CompactedBytes(header, crc, image.committed, image.bytes, f))
  }

  /**
   Compacting a file whose record row counts sum to its committed rows gives a file that
   opens, as one record, with the same logical table; it is exactly as long as its header,
   record header and padded body; and compacting it again changes nothing.
   */
  lemma CompactionPreserves(image: Image, f: File, header: seq<Byte>, crc: RecordIndex.Checksum, again: seq<Byte>)
    requires Opened(image, crc) == Some(f) && RowCount(f) == image.committed <= INT64_MAX
    ensures var out := Compacted(image, f, header, crc);
            && Opened(out, crc).Some?
            && SameTable(image.bytes, f, out.bytes, Opened(out, crc).value)
            && RowCount(Opened(out, crc).value) == out.committed
            && (image.nRecords > 1 ==>
                  |out.bytes| == |header| + RecordIndex.HEADER_SIZE + BodySize(image.committed, image.columns))
            && Compacted(out, Opened(out, crc).value, again, crc) == out
  {
    if image.nRecords > 1 {
      CompactedOpens(image, f, header, crc);
    }
  }

  lemma CompactedOpens(image: Image, f: File, header: seq<Byte>, crc: RecordIndex.Checksum)
    requires Opened(image, crc) == Some(f) && RowCount(f) == image.committed <= INT64_MAX && image.nRecords > 1
    ensures var out := Compacted(image, f, header, crc);
            && Opened(out, crc) == Some(OneRecord(f, |header| + RecordIndex.HEADER_SIZE))
            && SameTable(image.bytes, f, out.bytes, OneRecord(f, |header| + RecordIndex.HEADER_SIZE))
            && RowCount(OneRecord(f, |header| + RecordIndex.HEADER_SIZE)) == out.committed
            && |out.bytes| == |header| + RecordIndex.HEADER_SIZE + BodySize(image.committed, image.columns)
  {
    var out := Compacted(image, f, header, crc);
    var at := |header| + RecordIndex.HEADER_SIZE;
    CompactedIndex(header, crc, image.bytes, f);
    assert AsRecords([(at, RowCount(f))]) == [Record(at, RowCount(f))];
    TablePreserved(image.bytes, f, out.bytes, at);
    OneRecordRows(f, at);
  }
}
