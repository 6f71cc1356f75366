/**
 The statistics footer: per column and record a minimum, a maximum and a prunable flag.
 A reader that cannot parse it reads in full, so parsing answers `None` instead of
 raising.
 */
module Footer {
  import opened Sequences
  import opened LittleEndian
  import opened MagicDivide
  import RecordIndex

  const MAGIC: seq<Byte> := [0x43, 0x53, 0x54, 0x41, 0x54, 0x00, 0x01, 0x00]
  const VERSION := 1
  const HEADER_SIZE := 12

  /** A column's entry in the directory: its name and dtype string, both as UTF-8 bytes. */
  datatype Meta = Meta(name: seq<Byte>, dtype: seq<Byte>)

  /**
   What strings mean to the parser: whether bytes decode as UTF-8, and the element size of a
   dtype string, `None` where decoding it or `numpy.dtype` raises.
   */
  datatype Strings = Strings(isText: seq<Byte> -> bool, itemsize: seq<Byte> -> Option<nat>)

  datatype Stat = Stat(min: Cell, max: Cell, prunable: bool)

  type RecordStats = map<seq<Byte>, Stat>

  datatype ColumnStats = ColumnStats(mins: seq<Cell>, maxes: seq<Cell>, prunable: seq<bool>)

  /** The name is text, and every record has this column's statistics, in cells of its element size. */
  ghost predicate Covered(meta: Meta, strings: Strings, records: seq<RecordStats>) {
    && strings.isText(meta.name) && strings.itemsize(meta.dtype).Some?
    && forall r :: 0 <= r < |records| ==>
         && meta.name in records[r]
         && |records[r][meta.name].min| == |records[r][meta.name].max| == strings.itemsize(meta.dtype).value
  }

  ghost predicate AllCovered(metas: seq<Meta>, strings: Strings, records: seq<RecordStats>) {
    metas == [] || (Covered(metas[0], strings, records) && AllCovered(metas[1..], strings, records))
  }

  // ---- what is written ----

  function Entry(meta: Meta): seq<Byte> {
    Encode(|meta.name|, 2) + meta.name + Encode(|meta.dtype|, 2) + meta.dtype
  }

  function Directory(metas: seq<Meta>): seq<Byte> {
    if metas == [] then [] else Entry(metas[0]) + Directory(metas[1..])
  }

  function Mins(name: seq<Byte>, records: seq<RecordStats>): seq<Cell>
    requires forall r :: 0 <= r < |records| ==> name in records[r]
  {
    seq(|records|, r requires 0 <= r < |records| => records[r][name].min)
  }

  function Maxes(name: seq<Byte>, records: seq<RecordStats>): seq<Cell>
    requires forall r :: 0 <= r < |records| ==> name in records[r]
  {
    seq(|records|, r requires 0 <= r < |records| => records[r][name].max)
  }

  function Prunable(name: seq<Byte>, records: seq<RecordStats>): seq<bool>
    requires forall r :: 0 <= r < |records| ==> name in records[r]
  {
    seq(|records|, r requires 0 <= r < |records| => records[r][name].prunable)
  }

  function FlagBytes(flags: seq<bool>): seq<Byte> {
    seq(|flags|, r requires 0 <= r < |flags| => if flags[r] then 1 else 0)
  }

  /** `tobytes`: the cells one behind the other. */
  function Joined(cells: seq<Cell>): seq<Byte> {
    if cells == [] then [] else cells[0] + Joined(cells[1..])
  }

  function Block(name: seq<Byte>, records: seq<RecordStats>): seq<Byte>
    requires forall r :: 0 <= r < |records| ==> name in records[r]
  {
    Joined(Mins(name, records)) + Joined(Maxes(name, records)) + FlagBytes(Prunable(name, records))
  }

  ghost function BlocksOf(metas: seq<Meta>, strings: Strings, records: seq<RecordStats>): seq<Byte>
    requires AllCovered(metas, strings, records)
  {
    if metas == [] then []
    else Block(metas[0].name, records) + BlocksOf(metas[1..], strings, records)
  }

  /** The two-byte length fields hold the lengths of the names and dtype strings. */
  predicate ShortNames(metas: seq<Meta>) {
    metas == [] || (|metas[0].name| < 0x1_0000 && |metas[0].dtype| < 0x1_0000 && ShortNames(metas[1..]))
  }

  lemma {:induction false} ShortNamesAll(metas: seq<Meta>)
    ensures ShortNames(metas) <==>
            forall c :: 0 <= c < |metas| ==> |metas[c].name| < 0x1_0000 && |metas[c].dtype| < 0x1_0000
  {
    if metas != [] {
      ShortNamesAll(metas[1..]);
      assert forall c :: 1 <= c < |metas| ==> metas[c] == metas[1..][c - 1];
    }
  }

  /** Every length fits its field; `struct.pack` raises otherwise. */
  predicate Packable(metas: seq<Meta>, records: nat) {
    |metas| < 0x1_0000_0000 && records < 0x1_0000_0000 && ShortNames(metas)
  }

  function Head(columns: nat, records: nat): seq<Byte> {
    MAGIC + Encode(VERSION, 4) + Encode(columns, 4) + Encode(records, 4)
  }

  /** Header, directory and blocks, and the checksum over all of it. */
  function Assembled(crc: RecordIndex.Checksum, columns: nat, records: nat, directory: seq<Byte>, blocks: seq<Byte>)
    : seq<Byte>
  {
    var body := Head(columns, records) + directory + blocks;
    body + Encode(crc(body), 4)
  }

  ghost function FooterBytes(crc: RecordIndex.Checksum, metas: seq<Meta>, strings: Strings, records: seq<RecordStats>)
    : seq<Byte>
    requires AllCovered(metas, strings, records)
  {
    Assembled(crc, |metas|, |records|, Directory(metas), BlocksOf(metas, strings, records))
  }

  // ---- what is read ----

  /** `struct.unpack_from` of an unsigned field: raises past the end. */
  function Field(raw: seq<Byte>, offset: nat, size: nat): Option<nat> {
    if offset + size <= |raw| then Some(Decode(Cut(raw, offset, size))) else None
  }

  /** A directory entry, name and element size, and the offset behind it. */
  type EntryReader = nat -> Option<((seq<Byte>, nat), nat)>

  /** `n` directory entries from `offset`: `None` where the parser falls into its exception handler. */
  function ParseDirectory(read: EntryReader, offset: nat, n: nat): Option<(seq<(seq<Byte>, nat)>, nat)>
    decreases n
  {
    if n == 0 then Some(([], offset))
    else
      match read(offset)
      case None => None
      case Some(entry) =>
        match ParseDirectory(read, entry.1, n - 1)
        case None => None
        case Some(rest) => Some(([entry.0] + rest.0, rest.1))
  }

  function Entries(raw: seq<Byte>, strings: Strings): EntryReader { (offset: nat) => ParseEntry(raw, strings, offset) }

  function ParseEntry(raw: seq<Byte>, strings: Strings, offset: nat): Option<((seq<Byte>, nat), nat)> {
    var nameLen := Field(raw, offset, 2);
    if nameLen.None? then None
    else
      var name := Cut(raw, offset + 2, nameLen.value);
      var at := offset + 2 + nameLen.value;
      var dtypeLen := Field(raw, at, 2);
      if !strings.isText(name) || dtypeLen.None? then None
      else
        var itemsize := strings.itemsize(Cut(raw, at + 2, dtypeLen.value));
        if itemsize.None? then None
        else Some(((name, itemsize.value), at + 2 + dtypeLen.value))
  }

  /** `n` cells of `size` bytes each. */
  function Split(bytes: seq<Byte>, size: nat, n: nat): seq<Cell> {
    if n == 0 then [] else [bytes[..Min(size, |bytes|)]] + Split(bytes[Min(size, |bytes|)..], size, n - 1)
  }

  function Times(n: nat, size: nat): (bytes: nat)
    ensures bytes == n * size
  {
    n * size
  }

  /** `numpy.frombuffer`: raises on an element size of 0, and past the end. */
  function FromBuffer(raw: seq<Byte>, size: nat, n: nat, offset: nat): Option<seq<Cell>> {
    if size == 0 || offset > |raw| || offset + Times(n, size) > |raw| then None
    else Some(Split(Cut(raw, offset, Times(n, size)), size, n))
  }

  function AsFlags(cells: seq<Cell>): seq<bool> {
    seq(|cells|, k requires 0 <= k < |cells| => cells[k] != [0])
  }

  function ParseBlock(raw: seq<Byte>, size: nat, n: nat, offset: nat): Option<ColumnStats> {
    var mins := FromBuffer(raw, size, n, offset);
    var maxes := FromBuffer(raw, size, n, offset + Times(n, size));
    var flags := FromBuffer(raw, 1, n, offset + Times(n, size) + Times(n, size));
    if mins.None? || maxes.None? || flags.None? then None
    else Some(ColumnStats(mins.value, maxes.value, AsFlags(flags.value)))
  }

  type Parsed = map<seq<Byte>, ColumnStats>

  /** One column's statistics, by element size and offset. */
  type BlockReader = (nat, nat) -> Option<ColumnStats>

  function BlockReads(raw: seq<Byte>, n: nat): BlockReader {
    (size: nat, offset: nat) => ParseBlock(raw, size, n, offset)
  }

  function BlockSize(n: nat, size: nat): nat { Times(n, size) + Times(n, size) + n }

  function ParseBlocks(read: BlockReader, columns: seq<(seq<Byte>, nat)>, n: nat, offset: nat, result: Parsed)
    : Option<(Parsed, nat)>
    decreases |columns|
  {
    if columns == [] then Some((result, offset))
    else
      match read(columns[0].1, offset)
      case None => None
      case Some(stats) =>
        ParseBlocks(read, columns[1..], n, offset + BlockSize(n, columns[0].1), result[columns[0].0 := stats])
  }

  /** The directory, then the blocks it describes. */
  function ParsePayload(entries: EntryReader, blocks: BlockReader, columns: nat, n: nat): Option<(Parsed, nat)> {
    match ParseDirectory(entries, |MAGIC| + HEADER_SIZE, columns)
    case None => None
    case Some(directory) => ParseBlocks(blocks, directory.0, n, directory.1, map[])
  }

  /** `parse_stats`, together with the offset its cursor ends at. */
  function ParseStats(crc: RecordIndex.Checksum, strings: Strings, raw: seq<Byte>): Option<(Parsed, nat)> {
    if |raw| < |MAGIC| + HEADER_SIZE + 4 then None
    else if raw[..|MAGIC|] != MAGIC then None
    else if crc(raw[..|raw| - 4]) != Decode(raw[|raw| - 4..]) then None
    else if Decode(raw[8..12]) != VERSION then None
    else
      var n := Decode(raw[16..20]);
      ParsePayload(Entries(raw, strings), BlockReads(raw, n), Decode(raw[12..16]), n)
  }

  // ---- pieces found at their offsets ----

  predicate At(raw: seq<Byte>, offset: nat, piece: seq<Byte>) {
    offset + |piece| <= |raw| && Cut(raw, offset, |piece|) == piece
  }

  lemma AtBoth(raw: seq<Byte>, offset: nat, a: seq<Byte>, b: seq<Byte>)
    requires At(raw, offset, a + b)
    ensures At(raw, offset, a) && At(raw, offset + |a|, b)
  {
    assert (a + b)[..|a|] == a && (a + b)[|a|..] == b;
  }

  lemma FieldAt(raw: seq<Byte>, offset: nat, value: nat, size: nat)
    requires At(raw, offset, Encode(value, size)) && value < Span(size)
    ensures Field(raw, offset, size) == Some(value)
  {
    DecodeEncode(value, size);
  }

  /** The four parts of an entry, each at its offset. */
  predicate EntryAt(raw: seq<Byte>, offset: nat, meta: Meta) {
    var n, d := |meta.name|, |meta.dtype|;
    && At(raw, offset, Encode(n, 2)) && At(raw, offset + 2, meta.name)
    && At(raw, offset + 2 + n, Encode(d, 2)) && At(raw, offset + 2 + n + 2, meta.dtype)
  }

  lemma EntryRead(raw: seq<Byte>, strings: Strings, offset: nat, meta: Meta)
    requires EntryAt(raw, offset, meta) && strings.isText(meta.name) && strings.itemsize(meta.dtype).Some?
    requires |meta.name| < 0x1_0000 && |meta.dtype| < 0x1_0000
    ensures ParseEntry(raw, strings, offset)
         == Some(((meta.name, strings.itemsize(meta.dtype).value), offset + EntrySize(meta)))
  {
    assert Span(2) == 0x1_0000;
    var n, d := |meta.name|, |meta.dtype|;
    FieldAt(raw, offset, n, 2);
    FieldAt(raw, offset + 2 + n, d, 2);
  }

  /** What the directory tells the parser. */
  ghost function Described(metas: seq<Meta>, strings: Strings, records: seq<RecordStats>): seq<(seq<Byte>, nat)>
    requires AllCovered(metas, strings, records)
  {
    if metas == [] then []
    else [(metas[0].name, strings.itemsize(metas[0].dtype).value)] + Described(metas[1..], strings, records)
  }

  lemma DirectorySize(metas: seq<Meta>)
    requires metas != []
    ensures |Directory(metas)| == EntrySize(metas[0]) + |Directory(metas[1..])|
  {
  }

  function EntrySize(meta: Meta): nat { 4 + |meta.name| + |meta.dtype| }

  /** Entry by entry, the parser reads what was written. */
  ghost predicate EntriesAt(read: EntryReader, strings: Strings, offset: nat, metas: seq<Meta>,
                            records: seq<RecordStats>)
    requires AllCovered(metas, strings, records)
    decreases |metas|
  {
    metas != [] ==>
      && read(offset) == Some(((metas[0].name, strings.itemsize(metas[0].dtype).value), offset + EntrySize(metas[0])))
      && EntriesAt(read, strings, offset + EntrySize(metas[0]), metas[1..], records)
  }

  /** The parts of every entry, each at its offset. */
  predicate DirectoryLaid(raw: seq<Byte>, offset: nat, metas: seq<Meta>)
    decreases |metas|
  {
    metas == [] ||
    (EntryAt(raw, offset, metas[0]) && DirectoryLaid(raw, offset + EntrySize(metas[0]), metas[1..]))
  }

  lemma {:induction false} LayDirectory(raw: seq<Byte>, offset: nat, metas: seq<Meta>)
    requires At(raw, offset, Directory(metas))
    ensures DirectoryLaid(raw, offset, metas)
    decreases |metas|
  {
    if metas != [] {
      DirectoryHead(raw, offset, metas);
      LayDirectory(raw, offset + EntrySize(metas[0]), metas[1..]);
    }
  }

  lemma DirectoryHead(raw: seq<Byte>, offset: nat, metas: seq<Meta>)
    requires metas != [] && At(raw, offset, Directory(metas))
    ensures EntryAt(raw, offset, metas[0]) && At(raw, offset + EntrySize(metas[0]), Directory(metas[1..]))
  {
    hide At;
    hide Encode;
    AtBoth(raw, offset, Entry(metas[0]), Directory(metas[1..]));
    var n, d := |metas[0].name|, |metas[0].dtype|;
    AtBoth(raw, offset, Encode(n, 2) + metas[0].name + Encode(d, 2), metas[0].dtype);
    AtBoth(raw, offset, Encode(n, 2) + metas[0].name, Encode(d, 2));
    AtBoth(raw, offset, Encode(n, 2), metas[0].name);
  }

  /** `read` is the parser of one entry. */
  ghost predicate ReadsEntries(read: EntryReader, raw: seq<Byte>, strings: Strings) {
    forall offset: nat :: read(offset) == ParseEntry(raw, strings, offset)
  }

  lemma {:induction false} DirectoryRead(read: EntryReader, raw: seq<Byte>, strings: Strings, offset: nat,
                                         metas: seq<Meta>, records: seq<RecordStats>)
    requires ReadsEntries(read, raw, strings) && DirectoryLaid(raw, offset, metas)
    requires ShortNames(metas) && AllCovered(metas, strings, records)
    ensures EntriesAt(read, strings, offset, metas, records)
    decreases |metas|
  {
    hide ParseEntry;
    hide EntryAt;
    if metas != [] {
      EntryRead(raw, strings, offset, metas[0]);
      DirectoryRead(read, raw, strings, offset + EntrySize(metas[0]), metas[1..], records);
    }
  }

  lemma {:induction false} EntriesParsed(read: EntryReader, strings: Strings, offset: nat, metas: seq<Meta>,
                                         records: seq<RecordStats>)
    requires AllCovered(metas, strings, records) && EntriesAt(read, strings, offset, metas, records)
    ensures ParseDirectory(read, offset, |metas|) ==
            Some((Described(metas, strings, records), offset + |Directory(metas)|))
    decreases |metas|
  {
    if metas != [] {
      EntriesParsed(read, strings, offset + EntrySize(metas[0]), metas[1..], records);
      DirectorySize(metas);
    }
  }

  lemma {:induction false} SplitJoined(cells: seq<Cell>, size: nat)
    requires forall k :: 0 <= k < |cells| ==> |cells[k]| == size
    ensures |Joined(cells)| == |cells| * size && Split(Joined(cells), size, |cells|) == cells
  {
    if cells != [] {
      var rest := Joined(cells[1..]);
      SplitJoined(cells[1..], size);
      assert |cells| * size == size + |cells[1..]| * size;
      assert Joined(cells)[..size] == cells[0] && Joined(cells)[size..] == rest;
    }
  }

  /** `frombuffer` undoes `tobytes`, unless the elements have no bytes at all. */
  lemma BufferParsed(raw: seq<Byte>, offset: nat, cells: seq<Cell>, size: nat)
    requires At(raw, offset, Joined(cells))
    requires forall k :: 0 <= k < |cells| ==> |cells[k]| == size
    ensures |Joined(cells)| == Times(|cells|, size)
    ensures FromBuffer(raw, size, |cells|, offset) == if size > 0 then Some(cells) else None
  {
    SplitJoined(cells, size);
  }

  function FlagCells(flags: seq<bool>): seq<Cell> {
    seq(|flags|, r requires 0 <= r < |flags| => [if flags[r] then 1 else 0])
  }

  lemma {:induction false} FlagsJoined(flags: seq<bool>)
    ensures FlagBytes(flags) == Joined(FlagCells(flags))
    ensures AsFlags(FlagCells(flags)) == flags
  {
    if flags != [] {
      FlagsJoined(flags[1..]);
      assert FlagCells(flags)[1..] == FlagCells(flags[1..]);
      assert FlagBytes(flags) == [FlagBytes(flags)[0]] + FlagBytes(flags[1..]);
    }
  }

  function StatsOf(name: seq<Byte>, records: seq<RecordStats>): ColumnStats
    requires forall r :: 0 <= r < |records| ==> name in records[r]
  {
    ColumnStats(Mins(name, records), Maxes(name, records), Prunable(name, records))
  }

  lemma PartsParsed(raw: seq<Byte>, offset: nat, mins: seq<Cell>, maxes: seq<Cell>, flags: seq<bool>, size: nat)
    requires |mins| == |maxes| == |flags| && size > 0
    requires FromBuffer(raw, size, |mins|, offset) == Some(mins)
    requires FromBuffer(raw, size, |mins|, offset + Times(|mins|, size)) == Some(maxes)
    requires FromBuffer(raw, 1, |mins|, offset + Times(|mins|, size) + Times(|mins|, size)) == Some(FlagCells(flags))
    ensures ParseBlock(raw, size, |mins|, offset) == Some(ColumnStats(mins, maxes, flags))
  {
    FlagsJoined(flags);
  }

  lemma PartsAt(raw: seq<Byte>, offset: nat, a: seq<Byte>, b: seq<Byte>, c: seq<Byte>)
    requires At(raw, offset, a + b + c)
    ensures At(raw, offset, a) && At(raw, offset + |a|, b) && At(raw, offset + |a| + |b|, c)
  {
    AtBoth(raw, offset, a + b, c);
    AtBoth(raw, offset, a, b);
  }

  lemma PartsRead(raw: seq<Byte>, offset: nat, mins: seq<Cell>, maxes: seq<Cell>, flags: seq<bool>, size: nat,
                  bytes: nat)
    requires |mins| == |maxes| == |flags| && size > 0 && bytes == Times(|mins|, size)
    requires forall k :: 0 <= k < |mins| ==> |mins[k]| == size
    requires forall k :: 0 <= k < |maxes| ==> |maxes[k]| == size
    requires At(raw, offset, Joined(mins)) && At(raw, offset + bytes, Joined(maxes))
    requires At(raw, offset + bytes + bytes, FlagBytes(flags))
    ensures ParseBlock(raw, size, |mins|, offset) == Some(ColumnStats(mins, maxes, flags))
  {
    CellsRead(raw, offset, mins, size);
    CellsRead(raw, offset + bytes, maxes, size);
    FlagsRead(raw, offset + bytes + bytes, flags);
    PartsParsed(raw, offset, mins, maxes, flags, size);
  }

  lemma CellsRead(raw: seq<Byte>, offset: nat, cells: seq<Cell>, size: nat)
    requires forall k :: 0 <= k < |cells| ==> |cells[k]| == size
    ensures |Joined(cells)| == Times(|cells|, size)
    ensures size > 0 && At(raw, offset, Joined(cells)) ==> FromBuffer(raw, size, |cells|, offset) == Some(cells)
  {
    SplitJoined(cells, size);
    if size > 0 && At(raw, offset, Joined(cells)) {
      BufferParsed(raw, offset, cells, size);
    }
  }

  lemma FlagsRead(raw: seq<Byte>, offset: nat, flags: seq<bool>)
    requires At(raw, offset, FlagBytes(flags))
    ensures FromBuffer(raw, 1, |flags|, offset) == Some(FlagCells(flags))
  {
    FlagsJoined(flags);
    BufferParsed(raw, offset, FlagCells(flags), 1);
  }

  lemma BlockLength(meta: Meta, strings: Strings, records: seq<RecordStats>)
    requires Covered(meta, strings, records)
    ensures |Block(meta.name, records)| == BlockSize(|records|, strings.itemsize(meta.dtype).value)
  {
    SplitJoined(Mins(meta.name, records), strings.itemsize(meta.dtype).value);
    SplitJoined(Maxes(meta.name, records), strings.itemsize(meta.dtype).value);
  }

  lemma BlockParsed(raw: seq<Byte>, offset: nat, meta: Meta, strings: Strings, records: seq<RecordStats>)
    requires Covered(meta, strings, records) && At(raw, offset, Block(meta.name, records))
    ensures var size := strings.itemsize(meta.dtype).value;
            ParseBlock(raw, size, |records|, offset) == if size > 0 then Some(StatsOf(meta.name, records)) else None
  {
    hide Split;
    hide Joined;
    hide At;
    hide Cut;
    var size := strings.itemsize(meta.dtype).value;
    var mins, maxes := Mins(meta.name, records), Maxes(meta.name, records);
    var flags := Prunable(meta.name, records);
    SplitJoined(mins, size);
    SplitJoined(maxes, size);
    PartsAt(raw, offset, Joined(mins), Joined(maxes), FlagBytes(flags));
    if size > 0 {
      PartsRead(raw, offset, mins, maxes, flags, size, Times(|records|, size));
    }
  }

  /** Every column's elements have at least one byte. */
  ghost predicate Sized(metas: seq<Meta>, strings: Strings, records: seq<RecordStats>)
    requires AllCovered(metas, strings, records)
  {
    metas == [] || (strings.itemsize(metas[0].dtype).value > 0 && Sized(metas[1..], strings, records))
  }

  /** Block by block, the parser reads what was written, up to a column without bytes. */
  ghost predicate BlocksAt(read: BlockReader, strings: Strings, offset: nat, metas: seq<Meta>,
                           records: seq<RecordStats>)
    requires AllCovered(metas, strings, records)
    decreases |metas|
  {
    metas != [] ==>
      var size := strings.itemsize(metas[0].dtype).value;
      && read(size, offset) == (if size > 0 then Some(StatsOf(metas[0].name, records)) else None)
      && BlocksAt(read, strings, offset + BlockSize(|records|, size), metas[1..], records)
  }

  /** `read` is the parser of one column's block. */
  ghost predicate ReadsBlocks(read: BlockReader, raw: seq<Byte>, n: nat) {
    forall size: nat, offset: nat :: read(size, offset) == ParseBlock(raw, size, n, offset)
  }

  /** Every column's block, each at its offset. */
  ghost predicate BlocksLaid(raw: seq<Byte>, strings: Strings, offset: nat, metas: seq<Meta>, records: seq<RecordStats>)
    requires AllCovered(metas, strings, records)
    decreases |metas|
  {
    metas != [] ==>
      && At(raw, offset, Block(metas[0].name, records))
      && BlocksLaid(raw, strings, offset + BlockSize(|records|, strings.itemsize(metas[0].dtype).value), metas[1..],
                    records)
  }

  lemma {:induction false} LayBlocks(raw: seq<Byte>, strings: Strings, offset: nat, metas: seq<Meta>,
                                     records: seq<RecordStats>)
    requires AllCovered(metas, strings, records) && At(raw, offset, BlocksOf(metas, strings, records))
    ensures BlocksLaid(raw, strings, offset, metas, records)
    decreases |metas|
  {
    hide At;
    hide Block;
    if metas != [] {
      AtBoth(raw, offset, Block(metas[0].name, records), BlocksOf(metas[1..], strings, records));
      BlockLength(metas[0], strings, records);
      LayBlocks(raw, strings, offset + BlockSize(|records|, strings.itemsize(metas[0].dtype).value), metas[1..],
                records);
    }
  }

  lemma {:induction false} BlocksRead(read: BlockReader, raw: seq<Byte>, strings: Strings, offset: nat,
                                      metas: seq<Meta>, records: seq<RecordStats>)
    requires AllCovered(metas, strings, records) && BlocksLaid(raw, strings, offset, metas, records)
    requires ReadsBlocks(read, raw, |records|)
    ensures BlocksAt(read, strings, offset, metas, records)
    decreases |metas|
  {
    hide At;
    hide ParseBlock;
    if metas != [] {
      BlockParsed(raw, offset, metas[0], strings, records);
      BlocksRead(read, raw, strings, offset + BlockSize(|records|, strings.itemsize(metas[0].dtype).value), metas[1..],
                 records);
    }
  }

  /** The dictionary after storing every column in turn. */
  ghost function Stored(metas: seq<Meta>, strings: Strings, records: seq<RecordStats>, before: Parsed): Parsed
    requires AllCovered(metas, strings, records)
    decreases |metas|
  {
    if metas == [] then before
    else Stored(metas[1..], strings, records, before[metas[0].name := StatsOf(metas[0].name, records)])
  }

  lemma {:induction false} BlocksParsed(read: BlockReader, strings: Strings, offset: nat, metas: seq<Meta>,
                                        records: seq<RecordStats>, before: Parsed)
    requires AllCovered(metas, strings, records) && BlocksAt(read, strings, offset, metas, records)
    ensures ParseBlocks(read, Described(metas, strings, records), |records|, offset, before) ==
            if Sized(metas, strings, records)
            then Some((Stored(metas, strings, records, before), offset + TotalSize(metas, strings, records)))
            else None
    decreases |metas|
  {
    if metas != [] {
      var size := strings.itemsize(metas[0].dtype).value;
      assert Described(metas, strings, records)[1..] == Described(metas[1..], strings, records);
      BlocksParsed(read, strings, offset + BlockSize(|records|, size), metas[1..], records,
                   before[metas[0].name := StatsOf(metas[0].name, records)]);
    }
  }

  ghost function TotalSize(metas: seq<Meta>, strings: Strings, records: seq<RecordStats>): nat
    requires AllCovered(metas, strings, records)
  {
    if metas == [] then 0
    else BlockSize(|records|, strings.itemsize(metas[0].dtype).value) + TotalSize(metas[1..], strings, records)
  }

  lemma {:induction false} TotalIsLength(metas: seq<Meta>, strings: Strings, records: seq<RecordStats>)
    requires AllCovered(metas, strings, records)
    ensures |BlocksOf(metas, strings, records)| == TotalSize(metas, strings, records)
  {
    if metas != [] {
      BlockLength(metas[0], strings, records);
      TotalIsLength(metas[1..], strings, records);
    }
  }

  predicate Named(metas: seq<Meta>, name: seq<Byte>) {
    metas != [] && (metas[0].name == name || Named(metas[1..], name))
  }

  /** Exactly the named columns, each with every minimum, maximum and flag that was written. */
  lemma {:induction false} StoredIs(metas: seq<Meta>, strings: Strings, records: seq<RecordStats>, before: Parsed,
                                    name: seq<Byte>)
    requires AllCovered(metas, strings, records)
    ensures name in Stored(metas, strings, records, before) <==> name in before || Named(metas, name)
    ensures Named(metas, name) ==>
              (forall r :: 0 <= r < |records| ==> name in records[r]) &&
              Stored(metas, strings, records, before)[name] == StatsOf(name, records)
    ensures name in before && !Named(metas, name) ==> Stored(metas, strings, records, before)[name] == before[name]
    decreases |metas|
  {
    if metas != [] {
      StoredIs(metas[1..], strings, records, before[metas[0].name := StatsOf(metas[0].name, records)], name);
    }
  }

  lemma PayloadIs(entries: EntryReader, blocks: BlockReader, columns: nat, n: nat,
                  described: seq<(seq<Byte>, nat)>, at: nat, outcome: Option<(Parsed, nat)>)
    requires ParseDirectory(entries, 20, columns) == Some((described, at))
    requires ParseBlocks(blocks, described, n, at, map[]) == outcome
    ensures ParsePayload(entries, blocks, columns, n) == outcome
  {
  }

  /** What parsing a written footer comes to, its cursor included. */
  ghost function Outcome(metas: seq<Meta>, strings: Strings, records: seq<RecordStats>, end: nat): Option<(Parsed, nat)>
    requires AllCovered(metas, strings, records)
  {
    if Sized(metas, strings, records) then Some((Stored(metas, strings, records, map[]), end)) else None
  }

  lemma PayloadParsed(entries: EntryReader, blocks: BlockReader, strings: Strings, metas: seq<Meta>,
                      records: seq<RecordStats>, at: nat, end: nat)
    requires AllCovered(metas, strings, records) && EntriesAt(entries, strings, 20, metas, records)
    requires BlocksAt(blocks, strings, at, metas, records)
    requires at == 20 + |Directory(metas)| && end == at + |BlocksOf(metas, strings, records)|
    ensures ParsePayload(entries, blocks, |metas|, |records|) == Outcome(metas, strings, records, end)
  {
    EntriesParsed(entries, strings, 20, metas, records);
    var described := Described(metas, strings, records);
    assert ParseBlocks(blocks, described, |records|, at, map[]) == Outcome(metas, strings, records, end) by {
      BlocksParsed(blocks, strings, at, metas, records, map[]);
      TotalIsLength(metas, strings, records);
    }
    PayloadIs(entries, blocks, |metas|, |records|, described, at, Outcome(metas, strings, records, end));
  }

  lemma HeadRead(raw: seq<Byte>, columns: nat, records: nat)
    requires Head(columns, records) <= raw && columns < 0x1_0000_0000 && records < 0x1_0000_0000
    ensures |raw| >= 20 && raw[..8] == MAGIC
    ensures Decode(raw[8..12]) == VERSION && Decode(raw[12..16]) == columns && Decode(raw[16..20]) == records
  {
    assert Span(4) == 0x1_0000_0000;
    var head := Head(columns, records);
    assert raw[..20] == head;
    assert raw[..8] == head[..8] == MAGIC;
    DecodeEncode(VERSION, 4);
    DecodeEncode(columns, 4);
    DecodeEncode(records, 4);
    assert raw[8..12] == head[8..12] == Encode(VERSION, 4);
    assert raw[12..16] == head[12..16] == Encode(columns, 4);
    assert raw[16..20] == head[16..20] == Encode(records, 4);
  }

  lemma PartsBehind(head: seq<Byte>, a: seq<Byte>, b: seq<Byte>, tail: seq<Byte>)
    ensures At(head + a + b + tail, |head|, a) && At(head + a + b + tail, |head| + |a|, b)
    ensures head <= head + a + b + tail
  {
    var raw := head + a + b + tail;
  }

  lemma ChecksumRead(crc: RecordIndex.Checksum, body: seq<Byte>)
    ensures var raw := body + Encode(crc(body), 4);
            raw[..|raw| - 4] == body && Decode(raw[|raw| - 4..]) == crc(body)
  {
    assert Span(4) == 0x1_0000_0000;
    DecodeEncode(crc(body), 4);
    var raw := body + Encode(crc(body), 4);
    assert raw[|raw| - 4..] == Encode(crc(body), 4);
  }

  /** Of a footer that was written, the parser accepts magic, checksum and version, and reads the payload. */
  lemma AssembledAccepted(crc: RecordIndex.Checksum, strings: Strings, columns: nat, records: nat,
                          directory: seq<Byte>, blocks: seq<Byte>, raw: seq<Byte>)
    requires columns < 0x1_0000_0000 && records < 0x1_0000_0000
    requires raw == Assembled(crc, columns, records, directory, blocks)
    ensures ParseStats(crc, strings, raw) == ParsePayload(Entries(raw, strings), BlockReads(raw, records), columns,
                                                         records)
  {
    var body := Head(columns, records) + directory + blocks;
    ChecksumRead(crc, body);
    HeadRead(raw, columns, records);
  }

  lemma AssembledParts(crc: RecordIndex.Checksum, columns: nat, records: nat, directory: seq<Byte>, blocks: seq<Byte>,
                       raw: seq<Byte>)
    requires raw == Assembled(crc, columns, records, directory, blocks)
    ensures At(raw, 20, directory) && At(raw, 20 + |directory|, blocks) && |raw| - 4 == 20 + |directory| + |blocks|
  {
    var body := Head(columns, records) + directory + blocks;
    PartsBehind(Head(columns, records), directory, blocks, Encode(crc(body), 4));
  }

  lemma PayloadRead(crc: RecordIndex.Checksum, metas: seq<Meta>, strings: Strings, records: seq<RecordStats>,
                    raw: seq<Byte>, entries: EntryReader, blocks: BlockReader)
    requires AllCovered(metas, strings, records) && ShortNames(metas)
    requires raw == Assembled(crc, |metas|, |records|, Directory(metas), BlocksOf(metas, strings, records))
    requires ReadsEntries(entries, raw, strings) && ReadsBlocks(blocks, raw, |records|)
    ensures ParsePayload(entries, blocks, |metas|, |records|) == Outcome(metas, strings, records, |raw| - 4)
  {
    hide *;
    var directory, payload := Directory(metas), BlocksOf(metas, strings, records);
    AssembledParts(crc, |metas|, |records|, directory, payload, raw);
    LayDirectory(raw, 20, metas);
    DirectoryRead(entries, raw, strings, 20, metas, records);
    LayBlocks(raw, strings, 20 + |directory|, metas, records);
    BlocksRead(blocks, raw, strings, 20 + |directory|, metas, records);
    PayloadParsed(entries, blocks, strings, metas, records, 20 + |directory|, |raw| - 4);
  }

  /**
   The round trip, for any checksum, any number of records and any columns: if every
   element has at least one byte, parsing gives back what was serialized and its cursor
   ends at the checksum; otherwise the whole footer reads as absent.
   */
  lemma FooterRoundTrip(crc: RecordIndex.Checksum, metas: seq<Meta>, strings: Strings, records: seq<RecordStats>,
                        raw: seq<Byte>)
    requires AllCovered(metas, strings, records) && Packable(metas, |records|)
    requires raw == FooterBytes(crc, metas, strings, records)
    ensures ParseStats(crc, strings, raw) == Outcome(metas, strings, records, |raw| - 4)
  {
    hide ParseStats;
    hide ParsePayload;
    hide ParseEntry;
    hide ParseBlock;
    AssembledAccepted(crc, strings, |metas|, |records|, Directory(metas), BlocksOf(metas, strings, records), raw);
    PayloadRead(crc, metas, strings, records, raw, Entries(raw, strings), BlockReads(raw, |records|));
  }

  // ---- what is accepted, whoever wrote it ----

  /** An entry that the parser takes: short strings, a name that decodes, a dtype with elements. */
  predicate Readable(meta: Meta, strings: Strings) {
    && |meta.name| < 0x1_0000 && |meta.dtype| < 0x1_0000
    && strings.isText(meta.name) && strings.itemsize(meta.dtype).Some?
  }

  predicate AllReadable(metas: seq<Meta>, strings: Strings) {
    forall c :: 0 <= c < |metas| ==> Readable(metas[c], strings)
  }

  function Columns(metas: seq<Meta>, strings: Strings): seq<(seq<Byte>, nat)>
    requires AllReadable(metas, strings)
  {
    seq(|metas|, c requires 0 <= c < |metas| => (metas[c].name, strings.itemsize(metas[c].dtype).value))
  }

  /** A length field holds one number. */
  lemma LengthRead(raw: seq<Byte>, offset: nat)
    requires offset + 2 <= |raw|
    ensures var v := Decode(Cut(raw, offset, 2));
            Field(raw, offset, 2) == Some(v) && v < 0x1_0000 && At(raw, offset, Encode(v, 2))
  {
    assert Span(2) == 0x1_0000;
    DecodeBound(Cut(raw, offset, 2));
    EncodeDecode(Cut(raw, offset, 2));
  }

  lemma EntryTaken(raw: seq<Byte>, strings: Strings, offset: nat) returns (meta: Meta)
    requires ParseEntry(raw, strings, offset).Some? && ParseEntry(raw, strings, offset).value.1 <= |raw|
    ensures Readable(meta, strings) && EntryAt(raw, offset, meta)
    ensures ParseEntry(raw, strings, offset)
         == Some(((meta.name, strings.itemsize(meta.dtype).value), offset + EntrySize(meta)))
  {
    var n := Decode(Cut(raw, offset, 2));
    LengthRead(raw, offset);
    var at := offset + 2 + n;
    var d := Decode(Cut(raw, at, 2));
    LengthRead(raw, at);
    meta := Meta(Cut(raw, offset + 2, n), Cut(raw, at + 2, d));
  }

  /** Entries are behind each other. */
  lemma {:induction false} DirectoryGrows(raw: seq<Byte>, strings: Strings, offset: nat, n: nat)
    ensures var r := ParseDirectory(Entries(raw, strings), offset, n);
            && (r.Some? ==> offset <= r.value.1 && |r.value.0| == n)
            && (n == 0 ==> r == Some(([], offset)))
    decreases n
  {
    hide ParseEntry;
    if n > 0 && ParseEntry(raw, strings, offset).Some? {
      EntryGrows(raw, strings, offset);
      DirectoryGrows(raw, strings, ParseEntry(raw, strings, offset).value.1, n - 1);
    }
  }

  lemma EntryGrows(raw: seq<Byte>, strings: Strings, offset: nat)
    requires ParseEntry(raw, strings, offset).Some?
    ensures offset <= ParseEntry(raw, strings, offset).value.1
  {
  }

  /** The directory the parser takes is the one that is there. */
  lemma {:induction false} DirectoryTaken(raw: seq<Byte>, strings: Strings, offset: nat, n: nat)
    returns (metas: seq<Meta>)
    requires ParseDirectory(Entries(raw, strings), offset, n).Some?
    requires ParseDirectory(Entries(raw, strings), offset, n).value.1 <= |raw|
    ensures |metas| == n && AllReadable(metas, strings) && DirectoryLaid(raw, offset, metas)
    ensures ParseDirectory(Entries(raw, strings), offset, n)
         == Some((Columns(metas, strings), offset + |Directory(metas)|))
    decreases n
  {
    hide ParseEntry;
    hide EntryAt;
    hide Readable;
    if n == 0 {
      metas := [];
      assert Columns([], strings) == [];
    } else {
      var next := ParseEntry(raw, strings, offset).value.1;
      DirectoryGrows(raw, strings, next, n - 1);
      var meta := EntryTaken(raw, strings, offset);
      var rest := DirectoryTaken(raw, strings, next, n - 1);
      metas := [meta] + rest;
      assert metas[1..] == rest;
      ColumnsFirst(metas, strings);
      DirectorySize(metas);
    }
  }

  lemma ColumnsFirst(metas: seq<Meta>, strings: Strings)
    requires metas != [] && Readable(metas[0], strings) && AllReadable(metas[1..], strings)
    ensures AllReadable(metas, strings)
    ensures Columns(metas, strings)
         == [(metas[0].name, strings.itemsize(metas[0].dtype).value)] + Columns(metas[1..], strings)
  {
    hide Readable;
    assert forall c :: 1 <= c < |metas| ==> metas[c] == metas[1..][c - 1];
  }

  lemma {:induction false} LaidDirectoryParsed(raw: seq<Byte>, strings: Strings, offset: nat, metas: seq<Meta>)
    requires AllReadable(metas, strings) && DirectoryLaid(raw, offset, metas)
    ensures ParseDirectory(Entries(raw, strings), offset, |metas|)
         == Some((Columns(metas, strings), offset + |Directory(metas)|))
    decreases |metas|
  {
    hide ParseEntry;
    hide EntryAt;
    if metas != [] {
      EntryRead(raw, strings, offset, metas[0]);
      assert AllReadable(metas[1..], strings);
      LaidDirectoryParsed(raw, strings, offset + EntrySize(metas[0]), metas[1..]);
      ColumnsFirst(metas, strings);
      DirectorySize(metas);
    } else {
      assert Columns([], strings) == [];
    }
  }

  /** One column's block, cell by cell: all minima, all maxima, one flag byte for each record. */
  function BlockAt(raw: seq<Byte>, size: nat, n: nat, offset: nat): ColumnStats
    requires offset + BlockSize(n, size) <= |raw|
  {
    ColumnStats(seq(n, k requires 0 <= k < n => Cut(raw, offset + Times(k, size), size)),
                seq(n, k requires 0 <= k < n => Cut(raw, offset + Times(n, size) + Times(k, size), size)),
                seq(n, k requires 0 <= k < n => raw[offset + Times(n, size) + Times(n, size) + k] != 0))
  }

  lemma TimesNext(k: nat, size: nat)
    ensures Times(k + 1, size) == Times(k, size) + size
  {
  }

  lemma TimesWithin(k: nat, n: nat, size: nat)
    requires k < n
    ensures Times(k, size) + size <= Times(n, size)
  {
    MulMonotone(k + 1, n, size);
    TimesNext(k, size);
  }

  lemma {:induction false} SplitCell(bytes: seq<Byte>, size: nat, n: nat, k: nat)
    requires |bytes| == Times(n, size) && k < n
    ensures |Split(bytes, size, n)| == n && Times(k, size) + size <= |bytes|
    ensures Split(bytes, size, n)[k] == bytes[Times(k, size)..Times(k, size) + size]
    decreases n
  {
    TimesNext(n - 1, size);
    TimesWithin(k, n, size);
    var rest := bytes[size..];
    if n > 1 {
      SplitCell(rest, size, n - 1, if k > 0 then k - 1 else 0);
    }
    if k > 0 {
      TimesNext(k - 1, size);
      var at := Times(k - 1, size);
      assert rest[at..at + size] == bytes[at + size..at + size + size];
    }
  }

  lemma {:induction false} SplitLength(bytes: seq<Byte>, size: nat, n: nat)
    ensures |Split(bytes, size, n)| == n
    decreases n
  {
    if n > 0 {
      SplitLength(bytes[Min(size, |bytes|)..], size, n - 1);
    }
  }

  lemma CellIs(raw: seq<Byte>, offset: nat, size: nat, n: nat, k: nat)
    requires offset + Times(n, size) <= |raw| && k < n
    ensures |Split(Cut(raw, offset, Times(n, size)), size, n)| == n
    ensures Split(Cut(raw, offset, Times(n, size)), size, n)[k] == Cut(raw, offset + Times(k, size), size)
  {
    var bytes, at := Cut(raw, offset, Times(n, size)), Times(k, size);
    SplitCell(bytes, size, n, k);
    hide *;
    CutWithin(raw, offset, Times(n, size), at, at + size);
  }

  lemma SplitIs(raw: seq<Byte>, offset: nat, size: nat, n: nat)
    requires offset + Times(n, size) <= |raw|
    ensures Split(Cut(raw, offset, Times(n, size)), size, n)
         == seq(n, k requires 0 <= k < n => Cut(raw, offset + Times(k, size), size))
  {
    hide *;
    SplitLength(Cut(raw, offset, Times(n, size)), size, n);
    forall k | 0 <= k < n
      ensures Split(Cut(raw, offset, Times(n, size)), size, n)[k] == Cut(raw, offset + Times(k, size), size)
    {
      CellIs(raw, offset, size, n, k);
    }
  }

  /** A block is read exactly if its elements have bytes and it lies inside the footer. */
  lemma BlockExact(raw: seq<Byte>, size: nat, n: nat, offset: nat)
    ensures ParseBlock(raw, size, n, offset) ==
            if size > 0 && offset + BlockSize(n, size) <= |raw| then Some(BlockAt(raw, size, n, offset)) else None
  {
    if size > 0 && offset + BlockSize(n, size) <= |raw| {
      hide Split;
      SplitIs(raw, offset, size, n);
      SplitIs(raw, offset + Times(n, size), size, n);
      FlagsAt(raw, offset + Times(n, size) + Times(n, size), n);
    } else {
      hide Split;
    }
  }

  lemma FlagsAt(raw: seq<Byte>, offset: nat, n: nat)
    requires offset + n <= |raw|
    ensures Times(n, 1) == n
    ensures AsFlags(Split(Cut(raw, offset, Times(n, 1)), 1, n)) == seq(n, k requires 0 <= k < n => raw[offset + k] != 0)
  {
    SplitIs(raw, offset, 1, n);
    assert forall k :: 0 <= k < n ==> Cut(raw, offset + Times(k, 1), 1) == [raw[offset + k]];
  }

  function PayloadSize(columns: seq<(seq<Byte>, nat)>, n: nat): nat {
    if columns == [] then 0 else BlockSize(n, columns[0].1) + PayloadSize(columns[1..], n)
  }

  predicate HaveBytes(columns: seq<(seq<Byte>, nat)>) {
    forall c :: 0 <= c < |columns| ==> columns[c].1 > 0
  }

  /** The blocks one behind the other; of columns of one name the last one counts. */
  function Blocks(raw: seq<Byte>, columns: seq<(seq<Byte>, nat)>, n: nat, offset: nat, before: Parsed): Parsed
    requires offset + PayloadSize(columns, n) <= |raw|
    decreases |columns|
  {
    if columns == [] then before
    else Blocks(raw, columns[1..], n, offset + BlockSize(n, columns[0].1),
                before[columns[0].0 := BlockAt(raw, columns[0].1, n, offset)])
  }

  lemma {:induction false} BlocksExact(raw: seq<Byte>, columns: seq<(seq<Byte>, nat)>, n: nat, offset: nat,
                                       before: Parsed)
    requires columns == [] ==> offset <= |raw|
    ensures ParseBlocks(BlockReads(raw, n), columns, n, offset, before) ==
            if HaveBytes(columns) && offset + PayloadSize(columns, n) <= |raw|
            then Some((Blocks(raw, columns, n, offset, before), offset + PayloadSize(columns, n)))
            else None
    decreases |columns|
  {
    hide ParseBlock;
    hide BlockAt;
    hide BlockSize;
    if columns != [] {
      var size := columns[0].1;
      BlockExact(raw, size, n, offset);
      assert HaveBytes(columns) <==> size > 0 && HaveBytes(columns[1..]) by {
        assert forall c :: 1 <= c < |columns| ==> columns[c] == columns[1..][c - 1];
      }
      if size > 0 && offset + BlockSize(n, size) <= |raw| {
        BlocksExact(raw, columns[1..], n, offset + BlockSize(n, size),
                    before[columns[0].0 := BlockAt(raw, size, n, offset)]);
      }
    }
  }

  /**
   A whole footer, whoever wrote it: magic, version, counts, a directory of readable entries,
   the blocks inside, and at the end the checksum of everything before.
   */
  ghost predicate GoodFooter(crc: RecordIndex.Checksum, strings: Strings, raw: seq<Byte>, metas: seq<Meta>, n: nat) {
    && |raw| >= 24 && |metas| < 0x1_0000_0000 && n < 0x1_0000_0000
    && raw[..8] == [0x43, 0x53, 0x54, 0x41, 0x54, 0x00, 0x01, 0x00]
    && raw[8..12] == Encode(1, 4) && raw[12..16] == Encode(|metas|, 4) && raw[16..20] == Encode(n, 4)
    && raw[|raw| - 4..] == Encode(crc(raw[..|raw| - 4]), 4)
    && AllReadable(metas, strings) && DirectoryLaid(raw, 20, metas)
    && HaveBytes(Columns(metas, strings))
    && 20 + |Directory(metas)| + PayloadSize(Columns(metas, strings), n) <= |raw|
  }

  lemma FieldHolds(bytes: seq<Byte>, v: nat)
    requires |bytes| == 4
    ensures v < 0x1_0000_0000 && bytes == Encode(v, 4) <==> Decode(bytes) == v
  {
    assert Span(4) == 0x1_0000_0000;
    DecodeBound(bytes);
    EncodeDecode(bytes);
    if v < 0x1_0000_0000 {
      DecodeEncode(v, 4);
    }
  }

  /** The parser answers exactly on whole footers, and then with what their blocks hold. */
  lemma ParsedExactly(crc: RecordIndex.Checksum, strings: Strings, raw: seq<Byte>)
    ensures ParseStats(crc, strings, raw).Some? <==> exists metas, n :: GoodFooter(crc, strings, raw, metas, n)
    ensures forall metas, n :: GoodFooter(crc, strings, raw, metas, n) ==>
              ParseStats(crc, strings, raw).Some? &&
              var at := 20 + |Directory(metas)|;
              ParseStats(crc, strings, raw).value.0 == Blocks(raw, Columns(metas, strings), n, at, map[])
  {
    forall metas, n | GoodFooter(crc, strings, raw, metas, n)
      ensures ParseStats(crc, strings, raw).Some?
      ensures ParseStats(crc, strings, raw).value.0
           == Blocks(raw, Columns(metas, strings), n, 20 + |Directory(metas)|, map[])
    {
      GoodFooterParsed(crc, strings, raw, metas, n);
    }
    if ParseStats(crc, strings, raw).Some? {
      var metas, n := ParsedIsGood(crc, strings, raw);
    }
  }

  lemma GoodFooterParsed(crc: RecordIndex.Checksum, strings: Strings, raw: seq<Byte>, metas: seq<Meta>, n: nat)
    requires GoodFooter(crc, strings, raw, metas, n)
    ensures ParseStats(crc, strings, raw).Some?
    ensures ParseStats(crc, strings, raw).value.0
         == Blocks(raw, Columns(metas, strings), n, 20 + |Directory(metas)|, map[])
  {
    hide ParseDirectory;
    hide ParseBlocks;
    hide Blocks;
    hide DirectoryLaid;
    hide Readable;
    hide PayloadSize;
    hide Directory;
    hide Encode;
    hide Decode;
    FieldHolds(raw[8..12], 1);
    FieldHolds(raw[12..16], |metas|);
    FieldHolds(raw[16..20], n);
    FieldHolds(raw[|raw| - 4..], crc(raw[..|raw| - 4]));
    LaidDirectoryParsed(raw, strings, 20, metas);
    BlocksExact(raw, Columns(metas, strings), n, 20 + |Directory(metas)|, map[]);
  }

  lemma ParsedIsGood(crc: RecordIndex.Checksum, strings: Strings, raw: seq<Byte>) returns (metas: seq<Meta>, n: nat)
    requires ParseStats(crc, strings, raw).Some?
    ensures GoodFooter(crc, strings, raw, metas, n)
  {
    hide ParseDirectory;
    hide ParseBlocks;
    var columns := Decode(raw[12..16]);
    n := Decode(raw[16..20]);
    FieldHolds(raw[8..12], 1);
    FieldHolds(raw[12..16], columns);
    FieldHolds(raw[16..20], n);
    FieldHolds(raw[|raw| - 4..], crc(raw[..|raw| - 4]));
    var directory := ParseDirectory(Entries(raw, strings), 20, columns).value;
    DirectoryGrows(raw, strings, 20, columns);
    BlocksExact(raw, directory.0, n, directory.1, map[]);
    metas := DirectoryTaken(raw, strings, 20, columns);
  }

  // ---- the serializer ----

  lemma TailStep(metas: seq<Meta>, c: nat)
    requires c < |metas|
    ensures metas[c..][0] == metas[c] && metas[c..][1..] == metas[c + 1..]
    ensures Directory(metas[c..]) == Entry(metas[c]) + Directory(metas[c + 1..])
    ensures ShortNames(metas[c..]) ==
            (|metas[c].name| < 0x1_0000 && |metas[c].dtype| < 0x1_0000 && ShortNames(metas[c + 1..]))
  {
  }

  /** The directory entries; `struct.pack("<H", ...)` raises on a length over two bytes. */
  method WriteDirectory(head: seq<Byte>, metas: seq<Meta>) returns (r: Option<seq<Byte>>)
    ensures r == if ShortNames(metas) then Some(head + Directory(metas)) else None
  {
    var body := head;
    assert metas[0..] == metas;
    for c := 0 to |metas|
      invariant body + Directory(metas[c..]) == head + Directory(metas)
      invariant ShortNames(metas) == ShortNames(metas[c..])
    {
      TailStep(metas, c);
      if |metas[c].name| >= 0x1_0000 || |metas[c].dtype| >= 0x1_0000 { return None; }
      assert (body + Entry(metas[c])) + Directory(metas[c + 1..])
          == body + (Entry(metas[c]) + Directory(metas[c + 1..]));
      body := body + Entry(metas[c]);
    }
    assert metas[|metas|..] == [] && body + [] == body;
    r := Some(body);
  }

  /** One column's arrays, filled record by record. */
  method WriteBlock(name: seq<Byte>, records: seq<RecordStats>) returns (bytes: seq<Byte>)
    requires forall r :: 0 <= r < |records| ==> name in records[r]
    ensures bytes == Block(name, records)
  {
    var n := |records|;
    var mins, maxes := new Cell[n], new Cell[n];
    var flags := new Byte[n];
    for r := 0 to n
      invariant mins[..r] == Mins(name, records)[..r] && maxes[..r] == Maxes(name, records)[..r]
      invariant flags[..r] == FlagBytes(Prunable(name, records))[..r]
    {
      var stat := records[r][name];
      mins[r] := stat.min;
      maxes[r] := stat.max;
      flags[r] := if stat.prunable then 1 else 0;
    }
    assert mins[..] == mins[..n] == Mins(name, records);
    assert maxes[..] == maxes[..n] == Maxes(name, records);
    assert flags[..] == flags[..n] == FlagBytes(Prunable(name, records));
    bytes := Joined(mins[..]) + Joined(maxes[..]) + flags[..];
  }

  lemma CoveredTail(metas: seq<Meta>, strings: Strings, records: seq<RecordStats>, c: nat)
    requires c < |metas| && AllCovered(metas[c..], strings, records)
    ensures Covered(metas[c], strings, records) && AllCovered(metas[c + 1..], strings, records)
    ensures BlocksOf(metas[c..], strings, records)
         == Block(metas[c].name, records) + BlocksOf(metas[c + 1..], strings, records)
  {
    assert metas[c..][1..] == metas[c + 1..];
  }

  method WriteBlocks(head: seq<Byte>, metas: seq<Meta>, ghost strings: Strings, records: seq<RecordStats>)
    returns (body: seq<Byte>)
    requires AllCovered(metas, strings, records)
    ensures body == head + BlocksOf(metas, strings, records)
  {
    hide Block;
    hide BlocksOf;
    body := head;
    assert metas[0..] == metas;
    for c := 0 to |metas|
      invariant AllCovered(metas[c..], strings, records)
      invariant body + BlocksOf(metas[c..], strings, records) == head + BlocksOf(metas, strings, records)
    {
      CoveredTail(metas, strings, records, c);
      var block := WriteBlock(metas[c].name, records);
      body := body + block;
    }
    NoBlocks(strings, records);
  }

  lemma NoBlocks(strings: Strings, records: seq<RecordStats>)
    ensures AllCovered([], strings, records) && BlocksOf([], strings, records) == []
  {
  }

  /** `serialize_stats`: `None` where `struct.pack` raises. */
  method SerializeStats(crc: RecordIndex.Checksum, metas: seq<Meta>, ghost strings: Strings, records: seq<RecordStats>)
    returns (r: Option<seq<Byte>>)
    requires AllCovered(metas, strings, records)
    ensures r.Some? <==>
            && |metas| < 0x1_0000_0000 && |records| < 0x1_0000_0000
            && forall c :: 0 <= c < |metas| ==> |metas[c].name| < 0x1_0000 && |metas[c].dtype| < 0x1_0000
    ensures r.Some? <==> Packable(metas, |records|)
    ensures r.Some? ==> r.value == FooterBytes(crc, metas, strings, records)
  {
    ShortNamesAll(metas);
    if |metas| >= 0x1_0000_0000 || |records| >= 0x1_0000_0000 { return None; }
    var directory := WriteDirectory(Head(|metas|, |records|), metas);
    if directory.None? { return None; }
    var body := WriteBlocks(directory.value, metas, strings, records);
    r := Some(body + Encode(crc(body), 4));
  }

  // ---- the parser's loops ----

  /** The entries read so far, in front of what the rest of the directory gives. */
  ghost function Following(columns: seq<(seq<Byte>, nat)>, rest: Option<(seq<(seq<Byte>, nat)>, nat)>)
    : Option<(seq<(seq<Byte>, nat)>, nat)>
  {
    match rest case None => None case Some(more) => Some((columns + more.0, more.1))
  }

  method ReadDirectory(raw: seq<Byte>, strings: Strings, n: nat) returns (r: Option<(seq<(seq<Byte>, nat)>, nat)>)
    ensures r == ParseDirectory(Entries(raw, strings), 20, n)
  {
    hide ParseEntry;
    var columns: seq<(seq<Byte>, nat)> := [];
    var offset := 20;
    ghost var read := Entries(raw, strings);
    ghost var whole := ParseDirectory(read, 20, n);
    assert whole.Some? ==> [] + whole.value.0 == whole.value.0;
    for i := 0 to n
      invariant whole == Following(columns, ParseDirectory(read, offset, n - i))
    {
      var entry := ParseEntry(raw, strings, offset);
      assert read(offset) == entry;
      if entry.None? { return None; }
      ghost var rest := ParseDirectory(read, entry.value.1, n - i - 1);
      assert rest.Some? ==> columns + ([entry.value.0] + rest.value.0) == (columns + [entry.value.0]) + rest.value.0;
      columns := columns + [entry.value.0];
      offset := entry.value.1;
    }
    assert columns + [] == columns;
    r := Some((columns, offset));
  }

  method ReadBlocks(raw: seq<Byte>, columns: seq<(seq<Byte>, nat)>, n: nat, start: nat)
    returns (r: Option<Parsed>, end: nat)
    ensures var whole := ParseBlocks(BlockReads(raw, n), columns, n, start, map[]);
            if whole.None? then r.None? else r == Some(whole.value.0) && end == whole.value.1
  {
    hide ParseBlock;
    end := start;
    var result: Parsed := map[];
    ghost var read := BlockReads(raw, n);
    ghost var whole := ParseBlocks(read, columns, n, start, map[]);
    assert columns[0..] == columns;
    for c := 0 to |columns|
      invariant whole == ParseBlocks(read, columns[c..], n, end, result)
    {
      var size := columns[c].1;
      var stats := ParseBlock(raw, size, n, end);
      assert columns[c..][0] == columns[c] && columns[c..][1..] == columns[c + 1..];
      assert read(size, end) == stats;
      if stats.None? { return None, end; }
      end := end + BlockSize(n, size);
      result := result[columns[c].0 := stats.value];
    }
    r := Some(result);
  }

  /** `parse_stats`: never raises; the cursor starts behind the fixed header. */
  method ReadStats(crc: RecordIndex.Checksum, strings: Strings, raw: seq<Byte>) returns (r: Option<Parsed>)
    ensures var whole := ParseStats(crc, strings, raw);
            r == if whole.None? then None else Some(whole.value.0)
    ensures r.Some? <==> exists metas, n :: GoodFooter(crc, strings, raw, metas, n)
    ensures forall metas, n :: GoodFooter(crc, strings, raw, metas, n) ==>
              var at := 20 + |Directory(metas)|;
              r == Some(Blocks(raw, Columns(metas, strings), n, at, map[]))
  {
    hide ParseDirectory;
    hide ParseBlocks;
    hide GoodFooter;
    hide Blocks;
    ParsedExactly(crc, strings, raw);
    if |raw| < |MAGIC| + HEADER_SIZE + 4 { return None; }
    if raw[..|MAGIC|] != MAGIC { return None; }
    if crc(raw[..|raw| - 4]) != Decode(raw[|raw| - 4..]) { return None; }
    if Decode(raw[8..12]) != VERSION { return None; }
    var n := Decode(raw[16..20]);
    var directory := ReadDirectory(raw, strings, Decode(raw[12..16]));
    if directory.None? { return None; }
    var end;
    r, end := ReadBlocks(raw, directory.value.0, n, directory.value.1);
  }

  /** So a written footer gives a reader, for every column, exactly what the writer recorded. */
  lemma FooterRecovered(crc: RecordIndex.Checksum, metas: seq<Meta>, strings: Strings, records: seq<RecordStats>,
                        raw: seq<Byte>, name: seq<Byte>)
    requires AllCovered(metas, strings, records) && Packable(metas, |records|) && Sized(metas, strings, records)
    requires raw == FooterBytes(crc, metas, strings, records)
    ensures ParseStats(crc, strings, raw).Some?
    ensures name in ParseStats(crc, strings, raw).value.0 <==> Named(metas, name)
    ensures Named(metas, name) ==>
              (forall r :: 0 <= r < |records| ==> name in records[r]) &&
              ParseStats(crc, strings, raw).value.0[name] == StatsOf(name, records)
  {
    hide ParseStats;
    FooterRoundTrip(crc, metas, strings, records, raw);
    StoredIs(metas, strings, records, map[], name);
  }
}
