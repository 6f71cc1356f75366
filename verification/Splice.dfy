/**
 Writing the compacted file: byte ranges of the source are spliced into the output, on
 Linux by `sendfile` and elsewhere through a bounded reader. Either way the system may
 move fewer bytes than asked for, in any pattern.
 */
module Splice {
  import opened Sequences
  import opened LittleEndian
  import opened Files
  import opened Compaction
  import RecordIndex

  class SourceFile {
    const bytes: seq<Byte>
    var position: nat

    constructor (bytes: seq<Byte>)
      ensures this.bytes == bytes
    {
      this.bytes := bytes;
      position := 0;
    }

    method Seek(offset: nat)
      modifies this
      ensures position == offset
    {
      position := offset;
    }

    /** At most `count` bytes from the current position; nothing only at the end or when nothing is asked for. */
    method Read(count: nat) returns (chunk: seq<Byte>)
      modifies this
      ensures chunk <= Cut(bytes, old(position), count)
      ensures chunk == [] ==> Cut(bytes, old(position), count) == []
      ensures position == old(position) + |chunk|
    {
      chunk := Cut(bytes, position, count);
      position := position + |chunk|;
    }
  }

  /** `pending` is Python's buffer, `written` is what the descriptor has received, `durable` what has been synced. */
  class OutputFile {
    var written: seq<Byte>
    var pending: seq<Byte>
    var durable: seq<Byte>

    constructor ()
      ensures written == [] && pending == [] && durable == []
    {
      written, pending, durable := [], [], [];
    }

    function Contents(): seq<Byte>
      reads this
    {
      written + pending
    }

    method Write(bytes: seq<Byte>)
      modifies this
      ensures Contents() == old(Contents()) + bytes && durable == old(durable)
    {
      pending := pending + bytes;
    }

    method Flush()
      modifies this
      ensures written == old(Contents()) && pending == [] && durable == old(durable)
    {
      written, pending := written + pending, [];
    }

    method Sync()
      modifies this
      ensures durable == written && written == old(written) && pending == old(pending)
    {
      durable := written;
    }
  }

  /** `os.sendfile`: a kernel copy straight to the descriptor, possibly short, 0 only at the end of the source. */
  method Sendfile(dst: OutputFile, src: SourceFile, offset: nat, count: nat) returns (sent: nat)
    modifies dst
    ensures sent <= |Cut(src.bytes, offset, count)|
    ensures sent == 0 ==> Cut(src.bytes, offset, count) == []
    ensures dst.written == old(dst.written) + Cut(src.bytes, offset, count)[..sent]
    ensures dst.pending == old(dst.pending) && dst.durable == old(dst.durable)
  {
    sent := |Cut(src.bytes, offset, count)|;
    dst.written := dst.written + Cut(src.bytes, offset, count)[..sent];
  }

  /** Restrict a source to its next `remaining` bytes. */
  class BoundedReader {
    const src: SourceFile
    var remaining: int

    constructor (src: SourceFile, n: int)
      ensures this.src == src && remaining == n
    {
      this.src := src;
      remaining := n;
    }

    method Read(size: int) returns (chunk: seq<Byte>)
      requires size != 0
      modifies this, src
      ensures chunk <= Cut(src.bytes, old(src.position), Max(0, old(remaining)))
      ensures chunk == [] ==> Cut(src.bytes, old(src.position), Max(0, old(remaining))) == []
      ensures remaining == old(remaining) - |chunk| && src.position == old(src.position) + |chunk|
    {
      if remaining <= 0 { return []; }
      var request := if size < 0 then remaining else Min(size, remaining);
      chunk := src.Read(request);
      remaining := remaining - |chunk|;
    }
  }

  lemma Extend(before: seq<Byte>, all: seq<Byte>, done: nat, chunk: seq<Byte>)
    requires done <= |all| && chunk <= all[done..]
    ensures done + |chunk| <= |all|
    ensures (before + all[..done]) + chunk == before + all[..done + |chunk|]
  {
    assert all[done..][..|chunk|] == chunk;
  }

  lemma CutSplit(data: seq<Byte>, at: nat, count: nat, done: nat)
    requires done <= |Cut(data, at, count)|
    ensures done <= count && Cut(data, at + done, count - done) == Cut(data, at, count)[done..]
  {
  }

  /** `shutil.copyfileobj`: read and write until a read comes back empty. */
  method CopyFileObj(reader: BoundedReader, dst: OutputFile, bufSize: nat)
    requires bufSize > 0
    modifies reader, reader.src, dst
    ensures dst.Contents() ==
            old(dst.Contents()) + Cut(reader.src.bytes, old(reader.src.position), Max(0, old(reader.remaining)))
    ensures dst.durable == old(dst.durable)
  {
    ghost var at := reader.src.position;
    ghost var count := Max(0, reader.remaining);
    ghost var all := Cut(reader.src.bytes, at, count);
    ghost var done: nat := 0;
    ghost var before := dst.Contents();
    while true
      invariant done <= |all| && reader.src.position == at + done && Max(0, reader.remaining) == count - done
      invariant dst.Contents() == before + all[..done] && dst.durable == old(dst.durable)
      decreases |all| - done
    {
      var chunk := reader.Read(bufSize);
      CutSplit(reader.src.bytes, at, count, done);
      if chunk == [] { return; }
      dst.Write(chunk);
      Extend(before, all, done, chunk);
      done := done + |chunk|;
    }
  }

  /**
   `_copy_range`. Both paths append the same bytes, exactly those of the range that the
   source has; only the `sendfile` path reports a source that ends early.
   */
  method CopyRange(sendfile: bool, src: SourceFile, dst: OutputFile, offset: nat, count: int, bufSize: nat)
    returns (ok: bool)
    requires bufSize > 0
    modifies src, dst
    ensures dst.Contents() == old(dst.Contents()) + Cut(src.bytes, offset, Max(0, count))
    ensures dst.durable == old(dst.durable)
    ensures ok <==> !sendfile || count <= 0 || offset + count <= |src.bytes|
  {
    if count == 0 { return true; }
    if sendfile {
      ok := SendRange(src, dst, offset, count);
    } else {
      src.Seek(offset);
      var reader := new BoundedReader(src, count);
      CopyFileObj(reader, dst, bufSize);
      ok := true;
    }
  }

  method SendRange(src: SourceFile, dst: OutputFile, offset: nat, count: int) returns (ok: bool)
    modifies dst
    ensures dst.Contents() == old(dst.Contents()) + Cut(src.bytes, offset, Max(0, count))
    ensures dst.durable == old(dst.durable)
    ensures ok <==> count <= 0 || offset + count <= |src.bytes|
  {
    ghost var all := Cut(src.bytes, offset, Max(0, count));
    ghost var before := dst.Contents();
    dst.Flush();
    ghost var done: nat := 0;
    var remaining := count;
    var current := offset;
    while remaining > 0
      invariant current == offset + done && remaining == count - done && done <= |all|
      invariant dst.pending == [] && dst.written == before + all[..done] && dst.durable == old(dst.durable)
    {
      CutSplit(src.bytes, offset, count, done);
      var sent := Sendfile(dst, src, current, remaining);
      if sent == 0 {
        assert all[..done] == all;
        return false;
      }
      Extend(before, all, done, all[done..][..sent]);
      done := done + sent;
      current := current + sent;
      remaining := remaining - sent;
    }
    assert all[..done] == all;
    ok := true;
  }

  // ---- the splice ----

  lemma BlockIsCut(bytes: seq<Byte>, f: File, c: nat, r: nat)
    requires c < |f.columns| && r < |f.records| && f.base == 0 && BodiesInside(f, |bytes|)
    ensures var count := f.records[r].rows * f.columns[c].dtype.itemsize;
            && 0 <= BlockAddress(f, c, r) && BlockAddress(f, c, r) + count <= |bytes|
            && BlockBytes(FileMemory(bytes), f, c, r) == Cut(bytes, BlockAddress(f, c, r), count)
  {
    var rows := f.records[r].rows;
    PrefixWithin(f.columns, c, rows);
    assert 0 <= f.records[r].body && f.records[r].body + rows * Width(f.columns) <= |bytes|;
  }

  lemma {:induction false} PrefixMonotone(columns: seq<Column>, c: nat, d: nat)
    requires c <= d <= |columns|
    ensures Prefix(columns, c) <= Prefix(columns, d)
    decreases d
  {
    if c < d {
      PrefixMonotone(columns, c, d - 1);
    }
  }

  lemma PrefixWithin(columns: seq<Column>, c: nat, rows: nat)
    requires c < |columns|
    ensures 0 <= Prefix(columns, c) * rows
    ensures Prefix(columns, c) * rows + rows * columns[c].dtype.itemsize <= rows * Width(columns)
  {
    PrefixMonotone(columns, c + 1, |columns|);
    ProductWithin(Prefix(columns, c), columns[c].dtype.itemsize, Width(columns), rows);
  }

  lemma ProductWithin(a: nat, b: nat, total: nat, rows: nat)
    requires a + b <= total
    ensures 0 <= a * rows && a * rows + rows * b <= rows * total
  {
    assert rows * total == rows * a + rows * b + rows * (total - a - b);
  }

  /** Appending part `k` behind the parts before it. */
  lemma FlatUpTo<T>(before: seq<T>, parts: seq<seq<T>>, k: nat)
    requires k < |parts|
    ensures (before + Flat(parts[..k])) + parts[k] == before + Flat(parts[..k + 1])
    ensures |Flat(parts[..k + 1])| == |Flat(parts[..k])| + |parts[k]|
  {
    assert parts[..k + 1][..k] == parts[..k];
    assert Flat(parts[..k + 1]) == Flat(parts[..k]) + parts[k];
  }

  /** One output column: every record's block, in record order; empty records are skipped. */
  method SpliceColumn(sendfile: bool, src: SourceFile, dst: OutputFile, f: File, c: nat, bufSize: nat)
    returns (ok: bool, copied: int)
    requires bufSize > 0 && f.base == 0 && c < |f.columns| && BodiesInside(f, |src.bytes|)
    modifies src, dst
    ensures ok
    ensures dst.Contents() == old(dst.Contents()) + ColumnRun(FileMemory(src.bytes), f, c)
    ensures copied == |ColumnRun(FileMemory(src.bytes), f, c)| && dst.durable == old(dst.durable)
  {
    ghost var blocks := Blocks(FileMemory(src.bytes), f, c);
    ghost var before := dst.Contents();
    copied := 0;
    for r := 0 to |f.records|
      invariant dst.Contents() == before + Flat(blocks[..r])
      invariant copied == |Flat(blocks[..r])| && dst.durable == old(dst.durable)
    {
      FlatUpTo(before, blocks, r);
      var rows := f.records[r].rows;
      if rows == 0 { continue; }
      BlockIsCut(src.bytes, f, c, r);
      var count := rows * f.columns[c].dtype.itemsize;
      var done := CopyRange(sendfile, src, dst, BlockAddress(f, c, r), count, bufSize);
      if !done { return false, copied; }
      copied := copied + count;
    }
    assert blocks[..|f.records|] == blocks;
    ok := true;
  }

  /** The whole body, column by column. */
  method SpliceBody(sendfile: bool, src: SourceFile, dst: OutputFile, f: File, bufSize: nat)
    returns (ok: bool, copied: int)
    requires bufSize > 0 && f.base == 0 && BodiesInside(f, |src.bytes|)
    modifies src, dst
    ensures ok
    ensures dst.Contents() == old(dst.Contents()) + Body(FileMemory(src.bytes), f)
    ensures copied == |Body(FileMemory(src.bytes), f)| && dst.durable == old(dst.durable)
  {
    ghost var runs := ColumnRuns(FileMemory(src.bytes), f);
    ghost var before := dst.Contents();
    copied := 0;
    for c := 0 to |f.columns|
      invariant dst.Contents() == before + Flat(runs[..c])
      invariant copied == |Flat(runs[..c])| && dst.durable == old(dst.durable)
    {
      FlatUpTo(before, runs, c);
      var done, more := SpliceColumn(sendfile, src, dst, f, c, bufSize);
      if !done { return false, copied; }
      copied := copied + more;
    }
    assert runs[..|f.columns|] == runs;
    ok := true;
  }

  /** `_write_compacted`: it never fails on a file whose headers have been walked, and what it wrote is synced. */
  method WriteCompacted(sendfile: bool, src: SourceFile, dst: OutputFile, header: seq<Byte>, crc: RecordIndex.Checksum,
                        f: File, committed: nat, bufSize: nat) returns (ok: bool)
    requires bufSize > 0 && f.base == 0 && BodiesInside(f, |src.bytes|) && committed <= INT64_MAX
    requires dst.Contents() == []
    modifies src, dst
    ensures ok
    ensures dst.durable == dst.written == CompactedBytes(header, crc, committed, src.bytes, f) && dst.pending == []
  {
    dst.Write(header);
    dst.Write(RecordHeader(crc, committed));
    assert dst.Contents() == header + RecordHeader(crc, committed);
    var done, copied := SpliceBody(sendfile, src, dst, f, bufSize);
    if !done { return false; }
    var pad := BodySize(committed, f.columns) - copied;
    if pad != 0 {
      dst.Write(Zeros(pad));
    }
    dst.Flush();
    dst.Sync();
    ok := true;
  }
}
