/**
 The record-header walk. A file is a header region followed by records, each a 32-byte
 record header and a body padded to 8 bytes. `Walk` is the meaning of the walk, one
 header at a time on the file's bytes; `ReadRecordIndex` is the native walk, which reads
 the file through one reused sliding buffer.
 */
module RecordIndex {
  import opened Sequences
  import opened LittleEndian
  import opened Files

  type Word32 = w: int | 0 <= w < 0x1_0000_0000

  /** Any checksum function: nothing below depends on its being CRC-32. */
  type Checksum = seq<Byte> -> Word32

  const HEADER_SIZE := 32
  const CRC_COVERAGE := 28
  const MAGIC: seq<Byte> := [0x52, 0x45, 0x43, 0x01]

  /** Round up to 8 as Python does: floor division. */
  function AlignUp(value: int): int { (value + 7) / 8 * 8 }

  /** Round up to 8 as C++ does: division truncates toward zero. */
  function AlignTruncating(value: int): int {
    if value + 7 >= 0 then (value + 7) / 8 * 8 else -(-(value + 7) / 8) * 8
  }

  datatype Fault =
    | Unreadable
    | ShortHeader(offset: int, record: int, available: int)
    | BadMagic(offset: int, record: int)
    | IndexMismatch(offset: int, record: int, stored: int)
    | CrcMismatch(offset: int, record: int, storedCrc: int, actualCrc: int)
    | ShortBody(end: int, record: int, size: int)

  datatype Result<+T> = Ok(value: T) | Err(fault: Fault)

  // ---- one header ----

  /** `record_header_bytes`. */
  function HeaderPrefix(index: int, rows: int): seq<Byte>
    requires FitsSigned(index, 8) && FitsSigned(rows, 8)
  {
    MAGIC + EncodeSigned(index, 8) + EncodeSigned(rows, 8) + EncodeSigned(0, 8)
  }

  function HeaderBytes(crc: Checksum, index: int, rows: int): (h: seq<Byte>)
    requires FitsSigned(index, 8) && FitsSigned(rows, 8)
    ensures |h| == HEADER_SIZE
  {
    HeaderPrefix(index, rows) + Encode(crc(HeaderPrefix(index, rows)), 4)
  }

  /** Validate one full header, in the order magic, index, checksum; return the row count. */
  function CheckHeader(crc: Checksum, header: seq<Byte>, offset: int, record: int): Result<int>
    requires |header| == HEADER_SIZE
  {
    if header[..4] != MAGIC then Err(BadMagic(offset, record))
    else if DecodeSigned(header[4..12]) != record then
      Err(IndexMismatch(offset, record, DecodeSigned(header[4..12])))
    else if crc(header[..CRC_COVERAGE]) != Decode(header[CRC_COVERAGE..]) then
      Err(CrcMismatch(offset, record, Decode(header[CRC_COVERAGE..]), crc(header[..CRC_COVERAGE])))
    else Ok(DecodeSigned(header[12..20]))
  }

  /** A record header, byte by byte: four fields after the magic, the last one over all before it. */
  predicate GoodHeader(crc: Checksum, header: seq<Byte>, record: int, rows: int) {
    && |header| == 32
    && FitsSigned(record, 8) && FitsSigned(rows, 8)
    && header[..4] == [0x52, 0x45, 0x43, 0x01]
    && header[4..12] == EncodeSigned(record, 8)
    && header[12..20] == EncodeSigned(rows, 8)
    && header[28..] == Encode(crc(header[..28]), 4)
  }

  /** The first thing that is wrong with a header, in the order magic, index, checksum. */
  predicate BadHeader(crc: Checksum, header: seq<Byte>, offset: int, record: int, f: Fault) {
    && |header| == 32
    && match f
       case BadMagic(at, r) => at == offset && r == record && header[..4] != [0x52, 0x45, 0x43, 0x01]
       case IndexMismatch(at, r, stored) =>
         && at == offset && r == record && header[..4] == [0x52, 0x45, 0x43, 0x01]
         && FitsSigned(stored, 8) && header[4..12] == EncodeSigned(stored, 8) && stored != record
       case CrcMismatch(at, r, stored, actual) =>
         && at == offset && r == record && header[..4] == [0x52, 0x45, 0x43, 0x01]
         && FitsSigned(record, 8) && header[4..12] == EncodeSigned(record, 8)
         && 0 <= stored < 0x1_0000_0000 && header[28..] == Encode(stored, 4)
         && actual == crc(header[..28]) && actual != stored
       case _ => false
  }

  /** Exactly the good headers are accepted, and exactly the first fault of a bad one is reported. */
  lemma HeaderChecked(crc: Checksum, header: seq<Byte>, offset: int, record: int)
    requires |header| == HEADER_SIZE
    ensures forall rows ::
              CheckHeader(crc, header, offset, record) == Ok(rows) <==> GoodHeader(crc, header, record, rows)
    ensures forall f ::
              CheckHeader(crc, header, offset, record) == Err(f) <==> BadHeader(crc, header, offset, record, f)
  {
    FieldIs(header[4..12]);
    FieldIs(header[12..20]);
    ChecksumIs(header[28..]);
  }

  /** An eight-byte field holds one number. */
  lemma FieldIs(bytes: seq<Byte>)
    requires |bytes| == 8
    ensures FitsSigned(DecodeSigned(bytes), 8)
    ensures forall v :: FitsSigned(v, 8) && bytes == EncodeSigned(v, 8) <==> v == DecodeSigned(bytes)
  {
    EncodeDecodeSigned(bytes);
    forall v | FitsSigned(v, 8) && bytes == EncodeSigned(v, 8) ensures v == DecodeSigned(bytes) {
      DecodeEncodeSigned(v, 8);
    }
  }

  lemma ChecksumIs(bytes: seq<Byte>)
    requires |bytes| == 4
    ensures 0 <= Decode(bytes) < 0x1_0000_0000
    ensures forall v :: 0 <= v < 0x1_0000_0000 && bytes == Encode(v, 4) <==> v == Decode(bytes)
  {
    assert Span(4) == 0x1_0000_0000;
    EncodeDecode(bytes);
    DecodeBound(bytes);
    forall v | 0 <= v < 0x1_0000_0000 && bytes == Encode(v, 4) ensures v == Decode(bytes) {
      DecodeEncode(v, 4);
    }
  }

  lemma ReservedZero()
    ensures forall k :: 0 <= k < 8 ==> EncodeSigned(0, 8)[k] == 0
  {
    forall k | 0 <= k < 8 ensures EncodeSigned(0, 8)[k] == 0 {
      EncodeByte(0, 8, k);
    }
  }

  /** A header that was written is accepted, and gives back its row count; its reserved bytes are zero. */
  lemma WrittenHeaderAccepted(crc: Checksum, index: int, rows: int, offset: int)
    requires FitsSigned(index, 8) && FitsSigned(rows, 8)
    ensures CheckHeader(crc, HeaderBytes(crc, index, rows), offset, index) == Ok(rows)
    ensures forall k :: 20 <= k < 28 ==> HeaderBytes(crc, index, rows)[k] == 0
  {
    ReservedZero();
    var prefix := HeaderPrefix(index, rows);
    var header := HeaderBytes(crc, index, rows);
    DecodeEncodeSigned(index, 8);
    DecodeEncodeSigned(rows, 8);
    assert Span(4) == 0x1_0000_0000;
    DecodeEncode(crc(prefix), 4);
    assert header[..4] == MAGIC;
    assert header[4..12] == EncodeSigned(index, 8);
    assert header[12..20] == EncodeSigned(rows, 8);
    assert header[..28] == prefix;
    assert header[28..] == Encode(crc(prefix), 4);
  }

  /** The header at an offset of the file. */
  function HeaderAt(data: seq<Byte>, crc: Checksum, offset: int, record: int): Result<int> {
    if offset < 0 then Err(Unreadable)
    else
      var header := Cut(data, offset, HEADER_SIZE);
      if |header| < HEADER_SIZE then Err(ShortHeader(offset, record, |header|))
      else CheckHeader(crc, header, offset, record)
  }

  /** The file has a good header there. */
  predicate GoodAt(data: seq<Byte>, crc: Checksum, offset: int, record: int, rows: int) {
    0 <= offset && offset + 32 <= |data| && GoodHeader(crc, data[offset..offset + 32], record, rows)
  }

  /** Why it has none: the offset, the end of the file, or what the header holds. */
  predicate BadAt(data: seq<Byte>, crc: Checksum, offset: int, record: int, f: Fault) {
    if offset < 0 then f == Unreadable
    else if |data| < offset + 32 then f == ShortHeader(offset, record, Max(|data| - offset, 0))
    else BadHeader(crc, data[offset..offset + 32], offset, record, f)
  }

  lemma HeaderFoundExactly(data: seq<Byte>, crc: Checksum, offset: int, record: int)
    ensures forall rows :: HeaderAt(data, crc, offset, record) == Ok(rows) <==> GoodAt(data, crc, offset, record, rows)
    ensures forall f :: HeaderAt(data, crc, offset, record) == Err(f) <==> BadAt(data, crc, offset, record, f)
  {
    hide CheckHeader;
    hide GoodHeader;
    hide BadHeader;
    if 0 <= offset && offset + 32 <= |data| {
      assert Cut(data, offset, HEADER_SIZE) == data[offset..offset + 32];
      HeaderChecked(crc, data[offset..offset + 32], offset, record);
    }
  }

  // ---- the walk ----

  /** The padded size of a record body, as a function of its row count. */
  type BodySize = int -> int

  function NativeSize(width: int): BodySize { (rows: int) => AlignTruncating(rows * width) }

  function FallbackSize(width: int): BodySize { (rows: int) => AlignUp(rows * width) }

  type Index = Result<seq<(int, int)>>

  /**
   Records `record..n` starting at `offset`, each as its body offset and row count. The
   size rule is a parameter: the native walk and its Python fallback differ in it.
   */
  function Walk(data: seq<Byte>, crc: Checksum, size: BodySize, offset: int, record: nat, n: nat): Index
    requires record <= n
    decreases n - record
  {
    if record == n then
      if |data| < offset then Err(ShortBody(offset, n - 1, |data|)) else Ok([])
    else
      match HeaderAt(data, crc, offset, record)
      case Err(fault) => Err(fault)
      case Ok(rows) =>
        Behind(offset + HEADER_SIZE, rows,
               Walk(data, crc, size, offset + HEADER_SIZE + size(rows), record + 1, n))
  }

  function Behind(body: int, rows: int, rest: Index): Index {
    match rest
    case Err(fault) => Err(fault)
    case Ok(records) => Ok([(body, rows)] + records)
  }

  /** What the extension's walk means, and what its fallback means. */
  function NativeIndex(data: seq<Byte>, crc: Checksum, width: int, dataOffset: int, n: nat): Index {
    Walk(data, crc, NativeSize(width), dataOffset, 0, n)
  }

  function FallbackIndex(data: seq<Byte>, crc: Checksum, width: int, dataOffset: int, n: nat): Index {
    Walk(data, crc, FallbackSize(width), dataOffset, 0, n)
  }

  lemma WalkNext(data: seq<Byte>, crc: Checksum, size: BodySize, offset: int, record: nat, n: nat, rows: int, end: int)
    requires record < n && HeaderAt(data, crc, offset, record) == Ok(rows)
    requires end == offset + HEADER_SIZE + size(rows)
    ensures Walk(data, crc, size, offset, record, n) ==
            Behind(offset + HEADER_SIZE, rows, Walk(data, crc, size, end, record + 1, n))
  {
  }

  // ---- the native walk and its fallback ----

  /** Flooring gives the multiple of 8 from `value` on, truncating the one toward zero; they agree exactly here. */
  lemma AlignmentsAgree(value: int)
    ensures AlignUp(value) % 8 == 0 && value <= AlignUp(value) < value + 8
    ensures AlignTruncating(value) % 8 == 0
    ensures if value >= -7 then value <= AlignTruncating(value) < value + 8
            else value + 7 <= AlignTruncating(value) < value + 15
    ensures AlignTruncating(value) == AlignUp(value) <==> value >= -7 || value % 8 == 1
  {
  }

  /** Every header on the walk's path carries a row count for which the two sizes agree. */
  predicate SizesAgree(data: seq<Byte>, crc: Checksum, a: BodySize, b: BodySize, offset: int, record: nat, n: nat)
    requires record <= n
    decreases n - record
  {
    record < n ==>
      match HeaderAt(data, crc, offset, record)
      case Err(_) => true
      case Ok(rows) =>
        a(rows) == b(rows) && SizesAgree(data, crc, a, b, offset + HEADER_SIZE + a(rows), record + 1, n)
  }

  /** Then both walks give the same arrays, or the same first error. */
  lemma {:induction false} WalksAgree(data: seq<Byte>, crc: Checksum, a: BodySize, b: BodySize, offset: int,
                                      record: nat, n: nat)
    requires record <= n && SizesAgree(data, crc, a, b, offset, record, n)
    ensures Walk(data, crc, a, offset, record, n) == Walk(data, crc, b, offset, record, n)
    decreases n - record
  {
    if record < n && HeaderAt(data, crc, offset, record).Ok? {
      var rows := HeaderAt(data, crc, offset, record).value;
      WalksAgree(data, crc, a, b, offset + HEADER_SIZE + a(rows), record + 1, n);
    }
  }

  /** The native size of a row count is the padded body: at least the cells, less than 8 bytes more. */
  lemma NativeSizeOfCount(rows: nat, width: nat)
    ensures var size := NativeSize(width)(rows);
            0 <= rows * width <= size < rows * width + 8 && size % 8 == 0 && size == AlignUp(rows * width)
  {
    assert rows * width >= 0;
  }

  /** No header on the native walk's path has a negative row count. */
  predicate CountsAreCounts(data: seq<Byte>, crc: Checksum, width: nat, offset: int, record: nat, n: nat)
    requires record <= n
    decreases n - record
  {
    record < n ==>
      match HeaderAt(data, crc, offset, record)
      case Err(_) => true
      case Ok(rows) =>
        rows >= 0 && CountsAreCounts(data, crc, width, offset + HEADER_SIZE + NativeSize(width)(rows), record + 1, n)
  }

  /** Row counts that are counts suffice for native walk and fallback to agree, first errors included. */
  lemma {:induction false} CountsAgree(data: seq<Byte>, crc: Checksum, width: nat, offset: int, record: nat, n: nat)
    requires record <= n && CountsAreCounts(data, crc, width, offset, record, n)
    ensures Walk(data, crc, NativeSize(width), offset, record, n)
         == Walk(data, crc, FallbackSize(width), offset, record, n)
    decreases n - record
  {
    if record < n && HeaderAt(data, crc, offset, record).Ok? {
      var rows := HeaderAt(data, crc, offset, record).value;
      NativeSizeOfCount(rows, width);
      CountsAgree(data, crc, width, offset + HEADER_SIZE + NativeSize(width)(rows), record + 1, n);
    }
  }

  /** The two padded sizes of a row count agree; in terms of the count, by `AlignmentsAgree`. */
  predicate SameSize(rows: int, width: nat) { rows * width >= -7 || rows * width % 8 == 1 }

  /** Where they differ, the fallback's is 8 less. */
  lemma SizesDiffer(rows: int, width: nat)
    ensures SameSize(rows, width) ==> FallbackSize(width)(rows) == NativeSize(width)(rows)
    ensures !SameSize(rows, width) ==> FallbackSize(width)(rows) == NativeSize(width)(rows) - 8
  {
    AlignmentsAgree(rows * width);
    DifferByEight(rows * width);
  }

  lemma DifferByEight(value: int)
    ensures AlignUp(value) == AlignTruncating(value) || AlignUp(value) == AlignTruncating(value) - 8
  {
  }

  /** Where a walk ends: at its last record, at a bad header, or before the start of the file. */
  lemma WalkEnds(data: seq<Byte>, crc: Checksum, size: BodySize, offset: int, record: nat, n: nat)
    requires record <= n
    ensures var r := Walk(data, crc, size, offset, record, n);
            && (record == n ==> r == if |data| < offset then Err(ShortBody(offset, n - 1, |data|)) else Ok([]))
            && (record < n && offset < 0 ==> r == Err(Unreadable))
            && (record < n && HeaderAt(data, crc, offset, record).Err? ==>
                  r == Err(HeaderAt(data, crc, offset, record).fault))
  {
  }

  /**
   What a caller can tell from the answer: the fallback returns what the native walk has
   returned exactly if the sizes agree for every record but the last, whose size leads nowhere.
   */
  lemma {:induction false} AcceptedExact(data: seq<Byte>, crc: Checksum, width: nat, offset: int, record: nat, n: nat,
                                         records: seq<(int, int)>)
    requires record <= n && Walk(data, crc, NativeSize(width), offset, record, n) == Ok(records)
    ensures |records| == n - record
    ensures Walk(data, crc, FallbackSize(width), offset, record, n) == Ok(records) <==>
              forall r :: 0 <= r < |records| - 1 ==> SameSize(records[r].1, width)
    decreases n - record
  {
    hide Walk;
    hide HeaderAt;
    hide SameSize;
    hide NativeSize;
    hide FallbackSize;
    hide Behind;
    WalkEnds(data, crc, NativeSize(width), offset, record, n);
    WalkEnds(data, crc, FallbackSize(width), offset, record, n);
    if record < n {
      var rows := HeaderAt(data, crc, offset, record).value;
      var next, shorter := AfterBoth(offset, rows, width);
      AnyBehind(offset + HEADER_SIZE, rows, Walk(data, crc, NativeSize(width), next, record + 1, n));
      WalkNext(data, crc, NativeSize(width), offset, record, n, rows, next);
      WalkNext(data, crc, FallbackSize(width), offset, record, n, rows, shorter);
      WalkEnds(data, crc, NativeSize(width), next, record + 1, n);
      WalkEnds(data, crc, FallbackSize(width), shorter, record + 1, n);
      var rest := Walk(data, crc, NativeSize(width), next, record + 1, n);
      BehindIs(offset + HEADER_SIZE, rows, rest, records);
      BehindIs(offset + HEADER_SIZE, rows, Walk(data, crc, FallbackSize(width), shorter, record + 1, n), records);
      assert records[0].1 == rows && forall r :: 0 <= r < |records| - 1 ==> records[1..][r] == records[r + 1];
      AcceptedExact(data, crc, width, next, record + 1, n, records[1..]);
      if !SameSize(rows, width) && record + 1 < n {
        FirstBody(data, crc, NativeSize(width), next, record + 1, n);
        FirstBody(data, crc, FallbackSize(width), shorter, record + 1, n);
      } else if SameSize(rows, width) {
        TailSizes(records, width);
      }
    }
  }

  lemma AnyBehind(body: int, rows: int, rest: Index)
    ensures Behind(body, rows, rest).Ok? ==> Behind(body, rows, rest).value != []
  {
  }

  /** Where the two walks look for the next header. */
  lemma AfterBoth(offset: int, rows: int, width: nat) returns (next: int, shorter: int)
    ensures next == offset + HEADER_SIZE + NativeSize(width)(rows)
    ensures shorter == offset + HEADER_SIZE + FallbackSize(width)(rows)
    ensures shorter == if SameSize(rows, width) then next else next - 8
  {
    SizesDiffer(rows, width);
    next := offset + HEADER_SIZE + NativeSize(width)(rows);
    shorter := offset + HEADER_SIZE + FallbackSize(width)(rows);
  }

  lemma FirstBody(data: seq<Byte>, crc: Checksum, size: BodySize, offset: int, record: nat, n: nat)
    requires record < n
    ensures Walk(data, crc, size, offset, record, n).Ok? ==>
              var records := Walk(data, crc, size, offset, record, n).value;
              records != [] && records[0].0 == offset + HEADER_SIZE
  {
  }

  lemma TailSizes(records: seq<(int, int)>, width: nat)
    requires records != [] && SameSize(records[0].1, width)
    ensures (forall r :: 0 <= r < |records| - 1 ==> SameSize(records[r].1, width)) <==>
            forall r :: 0 <= r < |records[1..]| - 1 ==> SameSize(records[1..][r].1, width)
  {
    if forall r :: 0 <= r < |records[1..]| - 1 ==> SameSize(records[1..][r].1, width) {
      forall r | 0 <= r < |records| - 1 ensures SameSize(records[r].1, width) {
        if r > 0 {
          assert records[1..][r - 1] == records[r];
        }
      }
    }
  }

  /** So if the native walk returns no negative count, the fallback returns the same. */
  lemma AcceptedCounts(data: seq<Byte>, crc: Checksum, width: nat, offset: int, record: nat, n: nat,
                       records: seq<(int, int)>)
    requires record <= n && Walk(data, crc, NativeSize(width), offset, record, n) == Ok(records)
    requires forall r :: 0 <= r < |records| ==> records[r].1 >= 0
    ensures Walk(data, crc, FallbackSize(width), offset, record, n) == Ok(records)
  {
    AcceptedExact(data, crc, width, offset, record, n, records);
    forall r | 0 <= r < |records| ensures SameSize(records[r].1, width) {
      NativeSizeOfCount(records[r].1, width);
    }
  }

  // ---- the exact condition, errors included ----

  /** A header eight bytes before another can pass for the same record only from this number on. */
  const SHIFTED_RECORD := 0x0143_4552_0000_0000

  /**
   What the native walk meets decides whether the fallback gives the same: wherever the sizes
   of a record differ, it must be the last one and the file must reach to its native end, or
   the fallback must be thrown before the file's start and the native walk end there as well.
   */
  predicate SameOutcome(data: seq<Byte>, crc: Checksum, width: nat, offset: int, record: nat, n: nat)
    requires record <= n
    decreases n - record
  {
    record < n ==>
      match HeaderAt(data, crc, offset, record)
      case Err(_) => true
      case Ok(rows) =>
        var next := offset + HEADER_SIZE + NativeSize(width)(rows);
        if SameSize(rows, width) then SameOutcome(data, crc, width, next, record + 1, n)
        else if record + 1 == n then next <= |data|
        else next < 8 && Walk(data, crc, NativeSize(width), next, record + 1, n) == Err(Unreadable)
  }

  /** Native walk and fallback give the same arrays or the same first error exactly then. */
  lemma {:induction false} WalksAgreeExactly(data: seq<Byte>, crc: Checksum, width: nat, offset: int, record: nat,
                                             n: nat)
    requires record <= n <= SHIFTED_RECORD
    ensures Walk(data, crc, NativeSize(width), offset, record, n)
            == Walk(data, crc, FallbackSize(width), offset, record, n)
            <==> SameOutcome(data, crc, width, offset, record, n)
    decreases n - record
  {
    hide Walk;
    hide HeaderAt;
    hide SameSize;
    hide NativeSize;
    hide FallbackSize;
    WalkEnds(data, crc, NativeSize(width), offset, record, n);
    WalkEnds(data, crc, FallbackSize(width), offset, record, n);
    if record < n && HeaderAt(data, crc, offset, record).Ok? {
      var rows := HeaderAt(data, crc, offset, record).value;
      var next, shorter := AfterBoth(offset, rows, width);
      WalkNext(data, crc, NativeSize(width), offset, record, n, rows, next);
      WalkNext(data, crc, FallbackSize(width), offset, record, n, rows, shorter);
      SameBehind(offset + HEADER_SIZE, rows, Walk(data, crc, NativeSize(width), next, record + 1, n),
                 Walk(data, crc, FallbackSize(width), shorter, record + 1, n));
      if SameSize(rows, width) {
        WalksAgreeExactly(data, crc, width, next, record + 1, n);
      } else {
        WalkEnds(data, crc, NativeSize(width), next, record + 1, n);
        WalkEnds(data, crc, FallbackSize(width), shorter, record + 1, n);
        if record + 1 < n && shorter >= 0 {
          ShiftedDiffer(data, crc, width, next, record + 1, n);
        }
      }
    }
  }

  lemma SameBehind(body: int, rows: int, a: Index, b: Index)
    ensures Behind(body, rows, a) == Behind(body, rows, b) <==> a == b
  {
    if a.Ok? && b.Ok? {
      assert ([(body, rows)] + a.value)[1..] == a.value && ([(body, rows)] + b.value)[1..] == b.value;
    }
  }

  /** The record a fault is about. */
  predicate AboutHeader(f: Fault) { f.ShortHeader? || f.BadMagic? || f.IndexMismatch? || f.CrcMismatch? }

  /** A walk's header fault is about a record it was to visit. */
  lemma {:induction false} FaultAhead(data: seq<Byte>, crc: Checksum, size: BodySize, offset: int, record: nat, n: nat)
    requires record <= n
    ensures var r := Walk(data, crc, size, offset, record, n);
            r.Err? && AboutHeader(r.fault) ==> r.fault.record >= record
    decreases n - record
  {
    if record < n && HeaderAt(data, crc, offset, record).Ok? {
      var rows := HeaderAt(data, crc, offset, record).value;
      FaultAhead(data, crc, size, offset + HEADER_SIZE + size(rows), record + 1, n);
    }
  }

  lemma HeaderFault(data: seq<Byte>, crc: Checksum, offset: int, record: nat)
    requires offset >= 0
    ensures var h := HeaderAt(data, crc, offset, record);
            h.Err? ==> AboutHeader(h.fault) && h.fault.offset == offset && h.fault.record == record
  {
  }

  /** Walks that start eight bytes apart never give the same. */
  lemma ShiftedDiffer(data: seq<Byte>, crc: Checksum, width: nat, offset: int, record: nat, n: nat)
    requires record < n <= SHIFTED_RECORD && offset >= 8
    ensures Walk(data, crc, NativeSize(width), offset, record, n)
         != Walk(data, crc, FallbackSize(width), offset - 8, record, n)
  {
    hide HeaderAt;
    hide CheckHeader;
    var h, g := HeaderAt(data, crc, offset, record), HeaderAt(data, crc, offset - 8, record);
    HeaderFault(data, crc, offset, record);
    HeaderFault(data, crc, offset - 8, record);
    NotBothHeaders(data, crc, offset, record);
    if h.Ok? {
      FaultAhead(data, crc, NativeSize(width), offset + HEADER_SIZE + NativeSize(width)(h.value), record + 1, n);
    }
    if g.Ok? {
      FaultAhead(data, crc, FallbackSize(width), offset - 8 + HEADER_SIZE + FallbackSize(width)(g.value), record + 1,
                 n);
    }
  }

  /** The magic of the one would lie in the index of the other. */
  lemma NotBothHeaders(data: seq<Byte>, crc: Checksum, offset: int, record: nat)
    requires record < SHIFTED_RECORD && offset >= 8
    ensures !(HeaderAt(data, crc, offset, record).Ok? && HeaderAt(data, crc, offset - 8, record).Ok?)
  {
    var h, g := Cut(data, offset, HEADER_SIZE), Cut(data, offset - 8, HEADER_SIZE);
    if |h| == HEADER_SIZE && |g| == HEADER_SIZE && h[..4] == MAGIC {
      var index := g[4..12];
      assert |index[4..]| == 4;
      forall k | 0 <= k < 4 ensures index[4..][k] == h[..4][k] {
        assert index[4..][k] == g[8 + k] == data[offset + k];
      }
      assert index[4..] == h[..4];
      DecodeMagic();
      DecodeSplit(index, 4);
      assert Span(4) == 0x1_0000_0000 && Span(8) == 0x1_0000_0000_0000_0000;
      DecodeBound(index[..4]);
    }
  }

  lemma DecodeMagic()
    ensures Decode(MAGIC) == 0x0143_4552
  {
    assert MAGIC[1..] == [0x45, 0x43, 0x01] && MAGIC[1..][1..] == [0x43, 0x01];
    assert Decode([0x01]) == 1 && Decode([0x43, 0x01]) == 0x143 && Decode([0x45, 0x43, 0x01]) == 0x1_4345;
  }

  /**
   Two checksummed headers, the first with a negative row count: the native walk accepts
   what the fallback rejects.
   */
  lemma WalksDisagree(crc: Checksum)
    ensures var data := HeaderBytes(crc, 0, -1) + HeaderBytes(crc, 1, 0);
            && NativeIndex(data, crc, 9, 0, 2) == Ok([(32, -1), (64, 0)])
            && FallbackIndex(data, crc, 9, 0, 2) == Err(BadMagic(24, 1))
  {
    var first, second := HeaderBytes(crc, 0, -1), HeaderBytes(crc, 1, 0);
    var data := first + second;
    WrittenHeaderAccepted(crc, 0, -1, 0);
    WrittenHeaderAccepted(crc, 1, 0, 32);
    assert Cut(data, 0, 32) == first && Cut(data, 32, 32) == second;
    assert HeaderAt(data, crc, 0, 0) == Ok(-1) && HeaderAt(data, crc, 32, 1) == Ok(0);
    WalkNext(data, crc, NativeSize(9), 0, 0, 2, -1, 32);
    WalkNext(data, crc, NativeSize(9), 32, 1, 2, 0, 64);
    WalkNext(data, crc, FallbackSize(9), 0, 0, 2, -1, 24);
    assert [(64, 0)] + [] == [(64, 0)] && [(32, -1)] + [(64, 0)] == [(32, -1), (64, 0)];
    assert Cut(data, 24, 32)[0] == first[24] == EncodeSigned(0, 8)[4] == 0;
    assert HeaderAt(data, crc, 24, 1) == Err(BadMagic(24, 1));
  }

  // ---- the sliding buffer ----

  /** What one `pread` may return: any non-empty prefix of what is there, nothing only at the end of the file. */
  method Pread(data: seq<Byte>, offset: nat, count: nat) returns (chunk: seq<Byte>)
    ensures chunk <= Cut(data, offset, count)
    ensures chunk == [] ==> Cut(data, offset, count) == []
  {
    chunk := Cut(data, offset, count);
  }

  /** `read_at`: repeat short reads until `count` bytes or the end of the file. */
  method ReadAt(data: seq<Byte>, dst: array<Byte>, count: nat, offset: int) returns (total: int)
    requires count <= dst.Length
    modifies dst
    ensures offset < 0 ==> total == -1
    ensures offset >= 0 ==> total == |Cut(data, offset, count)| && dst[..total] == Cut(data, offset, count)
  {
    if offset < 0 { return -1; }
    total := 0;
    while total < count
      invariant 0 <= total <= |Cut(data, offset, count)|
      invariant dst[..total] == Cut(data, offset, count)[..total]
      decreases count - total
    {
      var chunk := Pread(data, offset + total, count - total);
      if chunk == [] { break; }
      assert Cut(data, offset + total, count - total) == Cut(data, offset, count)[total..];
      forall k | 0 <= k < |chunk| {
        dst[total + k] := chunk[k];
      }
      total := total + |chunk|;
    }
  }

  /** The buffer holds the file's bytes from `start` on. */
  ghost predicate Buffered(data: seq<Byte>, buffer: seq<Byte>, start: int, len: int) {
    && 0 <= start && 0 <= len <= |buffer|
    && buffer[..len] == Cut(data, start, len)
  }

  /** The header as the buffer shows it: `None` when the file ends inside it. */
  method BufferedHeader(data: seq<Byte>, buffer: array<Byte>, start: int, len: int, offset: int)
    returns (readable: bool, newStart: int, newLen: int)
    requires buffer.Length >= HEADER_SIZE && Buffered(data, buffer[..], start, len)
    modifies buffer
    ensures readable == (offset >= 0)
    ensures readable ==> Buffered(data, buffer[..], newStart, newLen) && newStart <= offset
    ensures readable ==> var header := Cut(data, offset, HEADER_SIZE);
                         if offset + HEADER_SIZE <= newStart + newLen
                         then header == buffer[offset - newStart..offset - newStart + HEADER_SIZE]
                         else |header| < HEADER_SIZE && newStart + newLen - offset == |header|
  {
    newStart, newLen := start, len;
    if offset < newStart || offset + HEADER_SIZE > newStart + newLen {
      var got := ReadAt(data, buffer, buffer.Length, offset);
      if got < 0 { return false, newStart, newLen; }
      newStart, newLen := offset, got;
    }
    readable := true;
    if offset + HEADER_SIZE <= newStart + newLen {
      HeaderInBuffer(data, buffer[..], newStart, newLen, offset);
    }
  }

  lemma HeaderInBuffer(data: seq<Byte>, buffer: seq<Byte>, start: int, len: int, offset: int)
    requires Buffered(data, buffer, start, len) && start <= offset && offset + HEADER_SIZE <= start + len
    ensures Cut(data, offset, HEADER_SIZE) == buffer[offset - start..offset - start + HEADER_SIZE]
  {
    var at := offset - start;
    assert buffer[..len][at..at + HEADER_SIZE] == buffer[at..at + HEADER_SIZE];
    CutWithin(data, start, len, at, at + HEADER_SIZE);
  }

  /** The walk so far: `records` found, `offset` next. */
  ghost predicate Walking(data: seq<Byte>, crc: Checksum, size: BodySize, whole: Index, n: nat,
                          records: seq<(int, int)>, offset: int) {
    && |records| <= n
    && whole == After(records, Walk(data, crc, size, offset, |records|, n))
  }

  ghost function After(records: seq<(int, int)>, rest: Index): Index {
    match rest case Err(fault) => Err(fault) case Ok(more) => Ok(records + more)
  }

  lemma WalkingStep(data: seq<Byte>, crc: Checksum, size: BodySize, whole: Index, n: nat,
                    records: seq<(int, int)>, offset: int)
    requires Walking(data, crc, size, whole, n, records, offset) && |records| < n
    ensures var h := HeaderAt(data, crc, offset, |records|);
            if h.Err? then whole == Err(h.fault)
            else Walking(data, crc, size, whole, n, records + [(offset + HEADER_SIZE, h.value)],
                         offset + HEADER_SIZE + size(h.value))
  {
    var h := HeaderAt(data, crc, offset, |records|);
    if h.Ok? {
      var one := (offset + HEADER_SIZE, h.value);
      var rest := Walk(data, crc, size, offset + HEADER_SIZE + size(h.value), |records| + 1, n);
      if rest.Ok? {
        assert records + ([one] + rest.value) == (records + [one]) + rest.value;
      }
    }
  }

  lemma WalkingDone(data: seq<Byte>, crc: Checksum, size: BodySize, whole: Index, n: nat,
                    records: seq<(int, int)>, offset: int)
    requires Walking(data, crc, size, whole, n, records, offset) && |records| == n
    ensures whole == if |data| < offset then Err(ShortBody(offset, n - 1, |data|)) else Ok(records)
  {
    assert records + [] == records;
  }

  /** The three output arrays hold these records. */
  ghost predicate Arrays(records: seq<(int, int)>, rows: seq<int>, bodies: seq<int>, counts: seq<int>) {
    && |records| <= |bodies| && |records| <= |counts| && |records| < |rows|
    && rows[0] == 0
    && forall k :: 0 <= k < |records| ==>
         bodies[k] == records[k].0 && counts[k] == records[k].1 && rows[k + 1] == rows[k] + records[k].1
  }

  /** One record's entries, and the running row count behind them. */
  method StoreRecord(ghost records: seq<(int, int)>, record: nat, body: int, count: int,
                     rows: array<int>, bodies: array<int>, counts: array<int>)
    requires rows != bodies && rows != counts && bodies != counts
    requires record < bodies.Length && record < counts.Length && record + 1 < rows.Length
    requires |records| == record && Arrays(records, rows[..], bodies[..], counts[..])
    modifies rows, bodies, counts
    ensures Arrays(records + [(body, count)], rows[..], bodies[..], counts[..])
  {
    bodies[record] := body;
    counts[record] := count;
    rows[record + 1] := rows[record] + count;
  }

  /** Refill if needed, then validate the header at `offset`. */
  method NextHeader(data: seq<Byte>, crc: Checksum, buffer: array<Byte>, start: int, len: int, offset: int, record: nat)
    returns (h: Result<int>, newStart: int, newLen: int)
    requires buffer.Length >= HEADER_SIZE && Buffered(data, buffer[..], start, len)
    modifies buffer
    ensures h == HeaderAt(data, crc, offset, record)
    ensures h.Ok? ==> Buffered(data, buffer[..], newStart, newLen)
  {
    var readable;
    readable, newStart, newLen := BufferedHeader(data, buffer, start, len, offset);
    if !readable { return Err(Unreadable), newStart, newLen; }
    if offset + HEADER_SIZE > newStart + newLen {
      return Err(ShortHeader(offset, record, newStart + newLen - offset)), newStart, newLen;
    }
    h := CheckHeader(crc, buffer[offset - newStart..offset - newStart + HEADER_SIZE], offset, record);
  }

  /** One iteration: the header at `offset`, its entries, and where the next header is. */
  method WalkRecord(data: seq<Byte>, crc: Checksum, buffer: array<Byte>, start: int, len: int, width: int,
                    offset: int, record: nat, rows: array<int>, bodies: array<int>, counts: array<int>,
                    ghost whole: Index, ghost n: nat, ghost records: seq<(int, int)>)
    returns (fault: Option<Fault>, newStart: int, newLen: int, next: int, ghost found: seq<(int, int)>)
    requires buffer.Length >= HEADER_SIZE && Buffered(data, buffer[..], start, len)
    requires rows != bodies && rows != counts && bodies != counts
    requires buffer as object !in {rows, bodies, counts}
    requires record < n && bodies.Length == n && counts.Length == n && rows.Length == n + 1
    requires |records| == record && Arrays(records, rows[..], bodies[..], counts[..])
    requires Walking(data, crc, NativeSize(width), whole, n, records, offset)
    modifies buffer, rows, bodies, counts
    ensures fault.Some? ==> whole == Err(fault.value)
    ensures fault.None? ==> Buffered(data, buffer[..], newStart, newLen)
    ensures fault.None? ==> |found| == record + 1 && Arrays(found, rows[..], bodies[..], counts[..])
    ensures fault.None? ==> Walking(data, crc, NativeSize(width), whole, n, found, next)
  {
    var h;
    h, newStart, newLen := NextHeader(data, crc, buffer, start, len, offset, record);
    WalkingStep(data, crc, NativeSize(width), whole, n, records, offset);
    next, found := offset, records;
    if h.Err? { return Some(h.fault), newStart, newLen, next, found; }
    StoreRecord(records, record, offset + HEADER_SIZE, h.value, rows, bodies, counts);
    found := records + [(offset + HEADER_SIZE, h.value)];
    next := offset + HEADER_SIZE + AlignTruncating(h.value * width);
    fault := None;
  }

  /**
   `colstore_read_record_index`: whatever the buffer size and however reads are cut short,
   the arrays and the first error are those of the header-by-header walk.
   */
  method ReadRecordIndex(data: seq<Byte>, crc: Checksum, dataOffset: int, n: nat, width: int, readChunk: int,
                         rows: array<int>, bodies: array<int>, counts: array<int>) returns (fault: Option<Fault>)
    requires rows.Length == n + 1 && bodies.Length == n && counts.Length == n
    requires rows != bodies && rows != counts && bodies != counts
    modifies rows, bodies, counts
    ensures var whole := NativeIndex(data, crc, width, dataOffset, n);
            if whole.Err? then fault == Some(whole.fault)
            else fault == None && |whole.value| == n && Arrays(whole.value, rows[..], bodies[..], counts[..])
    ensures match fault
            case None => exists records ::
              && |records| == n && Chain(data, crc, NativeSize(width), dataOffset, 0, records)
              && Arrays(records, rows[..], bodies[..], counts[..])
            case Some(f) => exists good, end ::
              FirstFault(data, crc, NativeSize(width), dataOffset, 0, n, good, end, f)
  {
    var buffer := new Byte[Max(readChunk, HEADER_SIZE)](_ => 0);
    var start, len := 0, 0;
    rows[0] := 0;
    var offset := dataOffset;
    ghost var whole := NativeIndex(data, crc, width, dataOffset, n);
    ghost var records: seq<(int, int)> := [];
    assert whole.Ok? ==> [] + whole.value == whole.value;
    for record := 0 to n
      invariant Buffered(data, buffer[..], start, len)
      invariant |records| == record && Arrays(records, rows[..], bodies[..], counts[..])
      invariant Walking(data, crc, NativeSize(width), whole, n, records, offset)
    {
      fault, start, len, offset, records :=
        WalkRecord(data, crc, buffer, start, len, width, offset, record, rows, bodies, counts, whole, n, records);
      if fault.Some? {
        WalkIffFault(data, crc, NativeSize(width), dataOffset, 0, n, fault.value);
        return;
      }
    }
    WalkingDone(data, crc, NativeSize(width), whole, n, records, offset);
    if |data| < offset {
      WalkIffFault(data, crc, NativeSize(width), dataOffset, 0, n, ShortBody(offset, n - 1, |data|));
      return Some(ShortBody(offset, n - 1, |data|));
    }
    WalkIffChain(data, crc, NativeSize(width), dataOffset, 0, n, records);
    fault := None;
  }

  // ---- what the walk recovers ----

  /** One record as it is written. */
  datatype Block = Block(rows: nat, header: seq<Byte>, body: seq<Byte>)

  function BlockBytes(blocks: seq<Block>): seq<Byte> {
    if blocks == [] then [] else blocks[0].header + blocks[0].body + BlockBytes(blocks[1..])
  }

  /** Block `index` of a file: its header is the one the writer packs, its body is padded. */
  ghost predicate WrittenBlock(crc: Checksum, size: BodySize, block: Block, index: nat) {
    && index <= INT64_MAX && block.rows <= INT64_MAX
    && (SignedRange(index); SignedRange(block.rows); block.header == HeaderBytes(crc, index, block.rows))
    && |block.body| == size(block.rows)
  }

  ghost predicate Written(crc: Checksum, size: BodySize, blocks: seq<Block>, first: nat) {
    blocks == [] || (WrittenBlock(crc, size, blocks[0], first) && Written(crc, size, blocks[1..], first + 1))
  }

  lemma SignedRange(v: nat)
    requires v <= INT64_MAX
    ensures FitsSigned(v, 8)
  {
    assert Span(8) == 2 * (INT64_MAX + 1);
  }

  /** Where the records of a well-formed file are. */
  function Layout(blocks: seq<Block>, offset: nat): seq<(int, int)> {
    if blocks == [] then []
    else [(offset + HEADER_SIZE, blocks[0].rows)] + Layout(blocks[1..], offset + HEADER_SIZE + |blocks[0].body|)
  }

  /** From `offset` on, the file holds these records and then anything. */
  ghost predicate HoldsAt(data: seq<Byte>, offset: nat, blocks: seq<Block>) {
    offset <= |data| && BlockBytes(blocks) <= data[offset..]
  }

  /** Headers chained through the file: each record's header is valid, and the next one starts behind its body. */
  ghost predicate Chain(data: seq<Byte>, crc: Checksum, size: BodySize, offset: int, record: nat,
                        records: seq<(int, int)>)
    decreases |records|
  {
    if records == [] then offset <= |data|
    else
      && GoodAt(data, crc, offset, record, records[0].1)
      && records[0].0 == offset + HEADER_SIZE
      && Chain(data, crc, size, offset + HEADER_SIZE + size(records[0].1), record + 1, records[1..])
  }

  lemma {:induction false} WalkLength(data: seq<Byte>, crc: Checksum, size: BodySize, offset: int, record: nat, n: nat)
    requires record <= n && Walk(data, crc, size, offset, record, n).Ok?
    ensures |Walk(data, crc, size, offset, record, n).value| == n - record
    decreases n - record
  {
    if record < n {
      var rows := HeaderAt(data, crc, offset, record).value;
      WalkLength(data, crc, size, offset + HEADER_SIZE + size(rows), record + 1, n);
    }
  }

  lemma BehindIs(body: int, rows: int, rest: Index, records: seq<(int, int)>)
    requires records != []
    ensures Behind(body, rows, rest) == Ok(records) <==> records[0] == (body, rows) && rest == Ok(records[1..])
  {
    assert records == [records[0]] + records[1..];
    if rest.Ok? {
      assert ([(body, rows)] + rest.value)[1..] == rest.value;
    }
  }

  /** The walk succeeds exactly on the chains of `n` headers. */
  lemma {:induction false} WalkIffChain(data: seq<Byte>, crc: Checksum, size: BodySize, offset: int, record: nat,
                                        n: nat, records: seq<(int, int)>)
    requires record <= n && |records| == n - record
    ensures Walk(data, crc, size, offset, record, n) == Ok(records) <==>
            Chain(data, crc, size, offset, record, records)
    decreases n - record
  {
    hide GoodAt;
    hide HeaderAt;
    if record < n {
      var h := HeaderAt(data, crc, offset, record);
      HeaderFoundExactly(data, crc, offset, record);
      if h.Ok? {
        var next := offset + HEADER_SIZE + size(h.value);
        WalkNext(data, crc, size, offset, record, n, h.value, next);
        WalkIffChain(data, crc, size, next, record + 1, n, records[1..]);
        BehindIs(offset + HEADER_SIZE, h.value, Walk(data, crc, size, next, record + 1, n), records);
      }
    }
  }

  /** Good headers chained through the file, as far as `end`; nothing is said of what is there. */
  ghost predicate Reaching(data: seq<Byte>, crc: Checksum, size: BodySize, offset: int, record: nat,
                           records: seq<(int, int)>, end: int)
    decreases |records|
  {
    if records == [] then end == offset
    else
      && GoodAt(data, crc, offset, record, records[0].1)
      && records[0].0 == offset + HEADER_SIZE
      && Reaching(data, crc, size, offset + HEADER_SIZE + size(records[0].1), record + 1, records[1..], end)
  }

  /** The walk's first fault: good headers up to it, and then it. */
  ghost predicate FirstFault(data: seq<Byte>, crc: Checksum, size: BodySize, offset: int, record: nat, n: nat,
                             good: seq<(int, int)>, end: int, f: Fault) {
    && record + |good| <= n && Reaching(data, crc, size, offset, record, good, end)
    && if record + |good| < n then BadAt(data, crc, end, record + |good|, f)
       else |data| < end && f == ShortBody(end, n - 1, |data|)
  }

  /** The walk fails exactly with its first fault. */
  lemma WalkIffFault(data: seq<Byte>, crc: Checksum, size: BodySize, offset: int, record: nat, n: nat, f: Fault)
    requires record <= n
    ensures Walk(data, crc, size, offset, record, n) == Err(f) <==>
            exists good, end :: FirstFault(data, crc, size, offset, record, n, good, end, f)
  {
    hide *;
    if Walk(data, crc, size, offset, record, n) == Err(f) {
      var good, end := FaultMet(data, crc, size, offset, record, n, f);
    }
    if good, end :| FirstFault(data, crc, size, offset, record, n, good, end, f) {
      FaultEnds(data, crc, size, offset, record, n, good, end, f);
    }
  }

  lemma {:induction false} FaultMet(data: seq<Byte>, crc: Checksum, size: BodySize, offset: int, record: nat,
                                    n: nat, f: Fault) returns (good: seq<(int, int)>, end: int)
    requires record <= n && Walk(data, crc, size, offset, record, n) == Err(f)
    ensures FirstFault(data, crc, size, offset, record, n, good, end, f)
    decreases n - record
  {
    hide GoodAt;
    hide BadAt;
    hide HeaderAt;
    HeaderFoundExactly(data, crc, offset, record);
    good, end := [], offset;
    if record < n && HeaderAt(data, crc, offset, record).Ok? {
      var rows := HeaderAt(data, crc, offset, record).value;
      var next := offset + HEADER_SIZE + size(rows);
      WalkNext(data, crc, size, offset, record, n, rows, next);
      var rest, last := FaultMet(data, crc, size, next, record + 1, n, f);
      good, end := [(offset + HEADER_SIZE, rows)] + rest, last;
      assert good[1..] == rest;
    }
  }

  lemma {:induction false} FaultEnds(data: seq<Byte>, crc: Checksum, size: BodySize, offset: int, record: nat,
                                     n: nat, good: seq<(int, int)>, end: int, f: Fault)
    requires record <= n && FirstFault(data, crc, size, offset, record, n, good, end, f)
    ensures Walk(data, crc, size, offset, record, n) == Err(f)
    decreases |good|
  {
    hide GoodAt;
    hide BadAt;
    hide HeaderAt;
    HeaderFoundExactly(data, crc, offset, record);
    if good != [] {
      var rows := good[0].1;
      var next := offset + HEADER_SIZE + size(rows);
      WalkNext(data, crc, size, offset, record, n, rows, next);
      FaultEnds(data, crc, size, next, record + 1, n, good[1..], end, f);
    }
  }

  /** A file of records is chained as laid out, whatever precedes and follows the records. */
  lemma {:induction false} BlocksChained(data: seq<Byte>, crc: Checksum, size: BodySize, offset: nat,
                                         blocks: seq<Block>, first: nat)
    requires HoldsAt(data, offset, blocks) && Written(crc, size, blocks, first)
    ensures |Layout(blocks, offset)| == |blocks|
    ensures Chain(data, crc, size, offset, first, Layout(blocks, offset))
    decreases |blocks|
  {
    if blocks == [] { return; }
    hide *;
    FirstBlock(data, crc, size, offset, blocks, first);
    var next := offset + HEADER_SIZE + |blocks[0].body|;
    BlocksChained(data, crc, size, next, blocks[1..], first + 1);
    LayoutStep(blocks, offset, next);
    ChainStep(data, crc, size, offset, first, blocks[0].rows, next, Layout(blocks[1..], next));
  }

  lemma LayoutStep(blocks: seq<Block>, offset: nat, next: nat)
    requires blocks != [] && next == offset + HEADER_SIZE + |blocks[0].body|
    ensures Layout(blocks, offset) == [(offset + HEADER_SIZE, blocks[0].rows)] + Layout(blocks[1..], next)
  {
  }

  lemma ChainStep(data: seq<Byte>, crc: Checksum, size: BodySize, offset: int, record: nat, rows: int, next: int,
                  rest: seq<(int, int)>)
    requires HeaderAt(data, crc, offset, record) == Ok(rows) && next == offset + HEADER_SIZE + size(rows)
    requires Chain(data, crc, size, next, record + 1, rest)
    ensures Chain(data, crc, size, offset, record, [(offset + HEADER_SIZE, rows)] + rest)
  {
    hide HeaderAt;
    hide GoodAt;
    HeaderFoundExactly(data, crc, offset, record);
    var all := [(offset + HEADER_SIZE, rows)] + rest;
    assert all[1..] == rest;
  }

  /** So the walk recovers cumulative rows, body offsets and row counts. */
  lemma WalkRecovers(data: seq<Byte>, crc: Checksum, size: BodySize, offset: nat, blocks: seq<Block>)
    requires HoldsAt(data, offset, blocks) && Written(crc, size, blocks, 0)
    ensures Walk(data, crc, size, offset, 0, |blocks|) == Ok(Layout(blocks, offset))
  {
    BlocksChained(data, crc, size, offset, blocks, 0);
    WalkIffChain(data, crc, size, offset, 0, |blocks|, Layout(blocks, offset));
  }

  lemma FirstBlock(data: seq<Byte>, crc: Checksum, size: BodySize, offset: nat, blocks: seq<Block>, index: nat)
    requires HoldsAt(data, offset, blocks) && blocks != [] && Written(crc, size, blocks, index)
    ensures |blocks[0].body| == size(blocks[0].rows) && Written(crc, size, blocks[1..], index + 1)
    ensures HeaderAt(data, crc, offset, index) == Ok(blocks[0].rows)
    ensures HoldsAt(data, offset + HEADER_SIZE + |blocks[0].body|, blocks[1..])
  {
    hide HeaderAt;
    hide HeaderBytes;
    var b := blocks[0];
    WrittenHeader(crc, size, b, index);
    PiecesInPlace(data, offset, b.header, b.body, BlockBytes(blocks[1..]));
    HeaderFound(data, crc, offset, b, index);
  }

  lemma WrittenHeader(crc: Checksum, size: BodySize, b: Block, index: nat)
    requires WrittenBlock(crc, size, b, index)
    ensures |b.header| == HEADER_SIZE && CheckHeader(crc, b.header, 0, index) == Ok(b.rows)
  {
    SignedRange(index);
    SignedRange(b.rows);
    WrittenHeaderAccepted(crc, index, b.rows, 0);
  }

  lemma HeaderFound(data: seq<Byte>, crc: Checksum, offset: nat, b: Block, index: nat)
    requires |b.header| == HEADER_SIZE && CheckHeader(crc, b.header, 0, index) == Ok(b.rows)
    requires Cut(data, offset, HEADER_SIZE) == b.header
    ensures HeaderAt(data, crc, offset, index) == Ok(b.rows)
  {
  }

  lemma PiecesInPlace(data: seq<Byte>, offset: nat, a: seq<Byte>, b: seq<Byte>, c: seq<Byte>)
    requires offset <= |data| && a + b + c <= data[offset..]
    ensures Cut(data, offset, |a|) == a
    ensures offset + |a| + |b| <= |data| && c <= data[offset + |a| + |b|..]
  {
    var tail := data[offset..];
    var all := a + b + c;
    assert tail[..|all|] == all;
    assert tail[..|a|] == all[..|a|] == a;
    assert tail[|a| + |b|..|all|] == all[|a| + |b|..] == c;
    assert tail[|a| + |b|..] == data[offset + |a| + |b|..];
    assert data[offset + |a| + |b|..][..|c|] == tail[|a| + |b|..|all|];
  }

  /** Any two records of a chain are apart, header included, and every body lies inside the file. */
  lemma {:induction false} RecordsApart(data: seq<Byte>, crc: Checksum, size: BodySize, offset: int, record: nat,
                                        records: seq<(int, int)>, r: nat)
    requires Chain(data, crc, size, offset, record, records) && r < |records|
    requires forall k :: 0 <= k < |records| ==> size(records[k].1) >= 0
    ensures offset + HEADER_SIZE <= records[r].0
    ensures records[r].0 + size(records[r].1) <= |data|
    ensures forall q :: r < q < |records| ==> records[r].0 + size(records[r].1) + HEADER_SIZE <= records[q].0
    decreases |records|
  {
    var next := offset + HEADER_SIZE + size(records[0].1);
    var rest := records[1..];
    if r > 0 {
      RecordsApart(data, crc, size, next, record + 1, rest, r - 1);
      assert records[r] == rest[r - 1];
    } else if rest != [] {
      RecordsApart(data, crc, size, next, record + 1, rest, 0);
      assert records[0].0 + size(records[0].1) + HEADER_SIZE <= rest[0].0 <= |data|;
    }
    forall q | r < q < |records| ensures records[r].0 + size(records[r].1) + HEADER_SIZE <= records[q].0 {
      RecordsApart(data, crc, size, next, record + 1, rest, q - 1);
      assert records[q] == rest[q - 1];
    }
  }
}
