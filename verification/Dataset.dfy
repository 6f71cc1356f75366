/**
 The dataset handle: child readers in order, their row offsets, the exposed schema, and
 two memos (segment tables per column, one uniform-grid test). Every read is proved to
 return what indexing the concatenated column returns, whichever route it takes, or to
 fail with exactly the error its state and arguments call for.
 */
module Dataset {
  import opened Sequences
  import opened Schedule
  import opened Segments
  import opened MaskKernel
  import opened Selectors
  import opened Decompose
  import opened FillJobs
  import opened SortOnce
  import opened Files
  import opened FileReads
  import opened ContiguousFill
  import opened Mappings
  import opened ReaderColumns
  import opened Schemas

  class Reader {
    const file: StoredFile
    var closed: bool

    constructor (file: StoredFile)
      ensures this.file == file && !closed
    {
      this.file := file;
      closed := false;
    }

    method Close()
      modifies `closed
      ensures closed
    {
      closed := true;
    }
  }

  datatype Mode = Strict | Drop

  /** What `append` accepts: paths that each open to a file or fail, a reader, or a dataset (its children). */
  datatype Source =
    | Paths(files: seq<Option<StoredFile>>)
    | Borrowed(reader: Reader)
    | Nested(readers: seq<Reader>)
    | Unsupported

  function FilesOf(readers: seq<Reader>): seq<File> {
    seq(|readers|, k requires 0 <= k < |readers| => readers[k].file)
  }

  function SchemasOf(readers: seq<Reader>): seq<Schema> {
    seq(|readers|, k requires 0 <= k < |readers| => readers[k].file.columns)
  }

  lemma SchemasDistinct(readers: seq<Reader>)
    ensures forall r :: 0 <= r < |SchemasOf(readers)| ==> DistinctNames(SchemasOf(readers)[r])
    ensures forall r :: 0 <= r < |SchemasOf(readers)| ==> SchemasOf(readers)[r] != []
  {
  }

  /** Every exposed column is in every file, under one dtype. */
  lemma ExposedEverywhere(readers: seq<Reader>, schema: Schema, name: string)
    requires AllExpose(SchemasOf(readers), schema) && HasColumn(schema, name)
    ensures SharedColumn(FilesOf(readers), name, DtypeOf(schema, name))
  {
    forall k | 0 <= k < |readers|
      ensures HasColumn(readers[k].file.columns, name)
      ensures DtypeOf(readers[k].file.columns, name) == DtypeOf(schema, name)
    {
      assert Exposes(SchemasOf(readers)[k], schema);
      ExposedColumn(readers[k].file.columns, schema, name);
    }
  }

  // ---- ownership ----

  /** The readers flagged as owned are exactly those in `targets`. */
  ghost predicate FlagsSound(readers: seq<Reader>, flags: seq<bool>, targets: set<Reader>) {
    && |flags| == |readers|
    && (forall k :: 0 <= k < |readers| && flags[k] ==> readers[k] in targets)
    && forall r :: r in targets ==> OwnedAt(readers, flags, r)
  }

  ghost predicate OwnedAt(readers: seq<Reader>, flags: seq<bool>, r: Reader)
    requires |flags| == |readers|
  {
    exists k :: 0 <= k < |readers| && flags[k] && readers[k] == r
  }

  lemma FlagsNext(readers: seq<Reader>, flags: seq<bool>, targets: set<Reader>, r: Reader, flag: bool)
    requires FlagsSound(readers, flags, targets)
    ensures FlagsSound(readers + [r], flags + [flag], if flag then targets + {r} else targets)
  {
    var next, nextFlags := readers + [r], flags + [flag];
    forall q | q in targets ensures OwnedAt(next, nextFlags, q) {
      assert OwnedAt(readers, flags, q);
      var k :| 0 <= k < |readers| && flags[k] && readers[k] == q;
      assert nextFlags[k] && next[k] == q;
    }
    if flag {
      assert nextFlags[|readers|] && next[|readers|] == r;
      assert OwnedAt(next, nextFlags, r);
    }
  }

  lemma {:induction false} FlagsBorrow(readers: seq<Reader>, flags: seq<bool>, targets: set<Reader>, more: seq<Reader>)
    requires FlagsSound(readers, flags, targets)
    ensures FlagsSound(readers + more, flags + seq(|more|, _ => false), targets)
    decreases |more|
  {
    if more == [] {
      assert readers + more == readers;
      assert flags + seq(|more|, _ => false) == flags;
    } else {
      var n := |more| - 1;
      FlagsBorrow(readers, flags, targets, more[..n]);
      FlagsNext(readers + more[..n], flags + seq(n, _ => false), targets, more[n], false);
      assert readers + more[..n] + [more[n]] == readers + more;
      assert flags + seq(n, _ => false) + [false] == flags + seq(|more|, _ => false);
    }
  }

  lemma OwnedGrows(children: seq<Reader>, owned: seq<bool>, readers: seq<Reader>, flags: seq<bool>,
                   opening: set<Reader>)
    requires |owned| == |children| && FlagsSound(readers, flags, opening)
    ensures forall targets :: FlagsSound(children, owned, targets) ==>
              FlagsSound(children + readers, owned + flags, targets + opening)
  {
    var all, allFlags := children + readers, owned + flags;
    forall targets | FlagsSound(children, owned, targets) ensures FlagsSound(all, allFlags, targets + opening) {
      forall k | 0 <= k < |all| && allFlags[k] ensures all[k] in targets + opening {
        if k >= |children| {
          assert flags[k - |children|];
        }
      }
      forall r | r in targets + opening ensures OwnedAt(all, allFlags, r) {
        if r in targets {
          assert OwnedAt(children, owned, r);
          var k :| 0 <= k < |children| && owned[k] && children[k] == r;
          assert allFlags[k] && all[k] == r;
        } else {
          assert OwnedAt(readers, flags, r);
          var k :| 0 <= k < |readers| && flags[k] && readers[k] == r;
          assert allFlags[|children| + k] && all[|children| + k] == r;
        }
      }
    }
  }

  // ---- resolving sources ----

  /** One child to be: a file this call opens, or a reader the caller handed in. */
  datatype Slot = Opens(file: StoredFile) | Borrows(reader: Reader)

  function PathSlots(files: seq<Option<StoredFile>>): seq<Slot>
    requires forall k :: 0 <= k < |files| ==> files[k].Some?
  {
    seq(|files|, k requires 0 <= k < |files| => Opens(files[k].value))
  }

  function ReaderSlots(readers: seq<Reader>): seq<Slot> {
    seq(|readers|, k requires 0 <= k < |readers| => Borrows(readers[k]))
  }

  predicate Resolvable(source: Source) {
    match source
    case Paths(files) => forall k :: 0 <= k < |files| ==> files[k].Some?
    case Borrowed(_) => true
    case Nested(_) => true
    case Unsupported => false
  }

  predicate AllResolvable(sources: seq<Source>) {
    forall i :: 0 <= i < |sources| ==> Resolvable(sources[i])
  }

  function SlotsOf(source: Source): seq<Slot>
    requires Resolvable(source)
  {
    match source
    case Paths(files) => PathSlots(files)
    case Borrowed(reader) => [Borrows(reader)]
    case Nested(readers) => ReaderSlots(readers)
  }

  /** The children a list of sources stands for, in order; datasets are flattened. */
  function Resolve(sources: seq<Source>): seq<Slot>
    requires AllResolvable(sources)
  {
    if sources == [] then []
    else Resolve(sources[..|sources| - 1]) + SlotsOf(sources[|sources| - 1])
  }

  ghost predicate Fits(slots: seq<Slot>, readers: seq<Reader>, flags: seq<bool>) {
    && |readers| == |flags| == |slots|
    && forall k :: 0 <= k < |slots| ==> match slots[k]
         case Opens(file) => readers[k].file == file && flags[k]
         case Borrows(reader) => readers[k] == reader && !flags[k]
  }

  function Counts(sources: seq<Source>): seq<nat> {
    seq(|sources|, i requires 0 <= i < |sources| =>
      match sources[i]
      case Paths(files) => |files|
      case Borrowed(_) => 1
      case Nested(readers) => |readers|
      case Unsupported => 0)
  }

  /** The children from `at` on are this source's own, in its own order, owned exactly if opened here. */
  ghost predicate StandsAt(source: Source, readers: seq<Reader>, flags: seq<bool>, at: int)
    requires |flags| == |readers|
  {
    match source
    case Paths(files) =>
      && 0 <= at && at + |files| <= |readers|
      && forall k :: 0 <= k < |files| ==>
           files[k].Some? && readers[at + k].file == files[k].value && flags[at + k]
    case Borrowed(reader) => 0 <= at < |readers| && readers[at] == reader && !flags[at]
    case Nested(more) =>
      && 0 <= at && at + |more| <= |readers|
      && forall k :: 0 <= k < |more| ==> readers[at + k] == more[k] && !flags[at + k]
    case Unsupported => false
  }

  /** The sources stand one behind the other, in the order in which they were given, and nothing else does. */
  ghost predicate InOrder(sources: seq<Source>, readers: seq<Reader>, flags: seq<bool>) {
    && |flags| == |readers|
    && forall bounds :: PrefixSums(bounds, Counts(sources)) ==>
         && |readers| == bounds[|sources|]
         && forall i :: 0 <= i < |sources| ==> StandsAt(sources[i], readers, flags, bounds[i])
  }

  lemma FitsInOrder(sources: seq<Source>, readers: seq<Reader>, flags: seq<bool>)
    requires AllResolvable(sources) && Fits(Resolve(sources), readers, flags)
    ensures InOrder(sources, readers, flags)
  {
    hide Fits;
    hide Resolve;
    hide StandsAt;
    FitsLengths(sources, readers, flags);
    forall bounds | PrefixSums(bounds, Counts(sources))
      ensures |readers| == bounds[|sources|]
      ensures forall i :: 0 <= i < |sources| ==> StandsAt(sources[i], readers, flags, bounds[i])
    {
      SlotCount(sources, bounds);
      forall i | 0 <= i < |sources| ensures StandsAt(sources[i], readers, flags, bounds[i]) {
        SourceStands(sources, bounds, readers, flags, i);
      }
    }
  }

  lemma FitsLengths(sources: seq<Source>, readers: seq<Reader>, flags: seq<bool>)
    requires AllResolvable(sources) && Fits(Resolve(sources), readers, flags)
    ensures |flags| == |readers| == |Resolve(sources)|
  {
  }

  lemma {:induction false} SlotCount(sources: seq<Source>, bounds: seq<int>)
    requires AllResolvable(sources) && PrefixSums(bounds, Counts(sources))
    ensures |Resolve(sources)| == bounds[|sources|]
  {
    if sources != [] {
      var n := |sources| - 1;
      assert bounds[n + 1] == bounds[n] + Counts(sources)[n];
      PrefixBounds(sources, bounds, n);
      SlotCount(sources[..n], bounds[..n + 1]);
    }
  }

  lemma PrefixBounds(sources: seq<Source>, bounds: seq<int>, n: nat)
    requires AllResolvable(sources) && PrefixSums(bounds, Counts(sources)) && n <= |sources|
    ensures AllResolvable(sources[..n]) && PrefixSums(bounds[..n + 1], Counts(sources[..n]))
  {
  }

  lemma {:induction false} SourceStands(sources: seq<Source>, bounds: seq<int>, readers: seq<Reader>,
                                        flags: seq<bool>, i: nat)
    requires AllResolvable(sources) && PrefixSums(bounds, Counts(sources)) && i < |sources|
    requires |flags| == |readers| && Fits(Resolve(sources), readers, flags)
    ensures StandsAt(sources[i], readers, flags, bounds[i])
  {
    var n := |sources| - 1;
    PrefixBounds(sources, bounds, n);
    SlotCount(sources[..n], bounds[..n + 1]);
    var before := Resolve(sources[..n]);
    assert Resolve(sources) == before + SlotsOf(sources[n]) && |before| == bounds[n];
    if i < n {
      FitsFirst(before, SlotsOf(sources[n]), readers, flags);
      SourceStands(sources[..n], bounds[..n + 1], readers[..|before|], flags[..|before|], i);
      StandsLonger(sources[i], readers, flags, bounds[i], |before|);
    } else {
      LastStands(sources[n], before, readers, flags);
    }
  }

  lemma FitsFirst(before: seq<Slot>, more: seq<Slot>, readers: seq<Reader>, flags: seq<bool>)
    requires Fits(before + more, readers, flags)
    ensures Fits(before, readers[..|before|], flags[..|before|])
  {
    forall k | 0 <= k < |before| ensures match before[k]
                                         case Opens(file) => readers[k].file == file && flags[k]
                                         case Borrows(reader) => readers[k] == reader && !flags[k]
    {
      assert (before + more)[k] == before[k];
    }
  }

  lemma LastStands(source: Source, before: seq<Slot>, readers: seq<Reader>, flags: seq<bool>)
    requires Resolvable(source) && Fits(before + SlotsOf(source), readers, flags) && |flags| == |readers|
    ensures StandsAt(source, readers, flags, |before|)
  {
    var own := SlotsOf(source);
    forall k | 0 <= k < |own| ensures match own[k]
                                      case Opens(file) => readers[|before| + k].file == file && flags[|before| + k]
                                      case Borrows(reader) => readers[|before| + k] == reader && !flags[|before| + k]
    {
      assert (before + own)[|before| + k] == own[k];
    }
  }

  lemma StandsLonger(source: Source, readers: seq<Reader>, flags: seq<bool>, at: int, n: nat)
    requires |flags| == |readers| && n <= |readers| && StandsAt(source, readers[..n], flags[..n], at)
    ensures StandsAt(source, readers, flags, at)
  {
  }

  /** A single path: its files, as listed. */
  lemma OnePathInOrder(files: seq<Option<StoredFile>>, readers: seq<Reader>, flags: seq<bool>)
    requires InOrder([Paths(files)], readers, flags)
    ensures |readers| == |files|
    ensures forall k :: 0 <= k < |files| ==> files[k].Some? && readers[k].file == files[k].value && flags[k]
  {
    assert PrefixSums([0, |files|], Counts([Paths(files)]));
    assert StandsAt([Paths(files)][0], readers, flags, 0);
    assert forall k :: 0 <= k < |files| ==> readers[0 + k] == readers[k] && flags[0 + k] == flags[k];
  }

  /** The schemas the sources bring, known before anything is opened. */
  function SlotSchemas(slots: seq<Slot>): seq<Schema> {
    seq(|slots|, k requires 0 <= k < |slots| =>
      match slots[k] case Opens(file) => file.columns case Borrows(reader) => reader.file.columns)
  }

  lemma FitsSchemas(slots: seq<Slot>, readers: seq<Reader>, flags: seq<bool>)
    requires Fits(slots, readers, flags)
    ensures SchemasOf(readers) == SlotSchemas(slots)
  {
  }

  /** An append of files is accepted exactly if they have the reference's columns, or all have one in common. */
  lemma AcceptsExactly(mode: Mode, schema: Schema, before: seq<Schema>, more: seq<Schema>)
    requires DistinctNames(schema) && forall r :: 0 <= r < |before + more| ==> DistinctNames((before + more)[r])
    ensures Accepts(mode, schema, before, more) <==>
            match mode
            case Strict => forall r :: 0 <= r < |more| ==>
                             SameColumns(more[r], if schema == [] then more[0] else schema)
            case Drop => before + more == [] || exists c :: InAll(c, before + more)
  {
    assert forall r :: 0 <= r < |more| ==> more[r] == (before + more)[|before| + r];
    StrictExact(schema, more);
    DropExact(before + more);
  }

  /** Whether the new files' schemas can join the ones exposed so far. */
  predicate Accepts(mode: Mode, schema: Schema, before: seq<Schema>, more: seq<Schema>) {
    match mode
    case Strict => Reconcile(Reference(schema), more)
    case Drop => DropAccepts(before + more)
  }

  /** What a strict append of these readers leaves exposed, and that they all have it. */
  lemma StrictAdded(schema: Schema, readers: seq<Reader>)
    requires DistinctNames(schema) && Reconcile(Reference(schema), SchemasOf(readers))
    ensures var next := StrictSchema(schema, SchemasOf(readers));
            && next == (if schema == [] && readers != [] then readers[0].file.columns else schema)
            && forall k :: 0 <= k < |readers| ==> SameColumns(readers[k].file.columns, next)
  {
    hide SameColumns;
    hide Reconcile;
    SchemasDistinct(readers);
    StrictExact(schema, SchemasOf(readers));
    assert forall k :: 0 <= k < |readers| ==> SchemasOf(readers)[k] == readers[k].file.columns;
  }

  lemma FitsNext(slots: seq<Slot>, readers: seq<Reader>, flags: seq<bool>, slot: Slot, r: Reader, flag: bool)
    requires Fits(slots, readers, flags)
    requires match slot case Opens(file) => r.file == file && flag case Borrows(reader) => r == reader && !flag
    ensures Fits(slots + [slot], readers + [r], flags + [flag])
  {
  }

  lemma FitsBorrow(slots: seq<Slot>, readers: seq<Reader>, flags: seq<bool>, more: seq<Reader>)
    requires Fits(slots, readers, flags)
    ensures Fits(slots + ReaderSlots(more), readers + more, flags + seq(|more|, _ => false))
  {
  }

  // ---- the memos ----

  ghost predicate IsStitch(files: seq<File>, c: Column, t: Option<Table>) {
    && (forall k :: 0 <= k < |files| ==> HasColumn(files[k].columns, c.name))
    && t == Stitch(files, c.name, c.dtype.itemsize)
  }

  /**
   Each remembered table is what stitching the current files gives. That there is none may
   have been remembered because a reader was closed, so it binds only while all are `live`.
   */
  ghost predicate CacheCoherent(files: seq<File>, schema: Schema, cache: map<string, Option<Table>>, live: bool) {
    forall name :: name in cache ==>
      && HasColumn(schema, name)
      && (cache[name].Some? || live ==> IsStitch(files, Column(name, DtypeOf(schema, name)), cache[name]))
  }

  /** The one remembered grid value is what the test would give on this column's table. */
  ghost predicate GridAgrees(files: seq<File>, c: Column, rows: Option<int>) {
    forall t :: IsStitch(files, c, Some(t)) ==> t.starts != [] && rows == UniformSegmentRows(t.starts)
  }

  ghost predicate GridCoherent(files: seq<File>, schema: Schema, known: bool, rows: Option<int>) {
    known ==> forall name :: HasColumn(schema, name) ==> GridAgrees(files, Column(name, DtypeOf(schema, name)), rows)
  }

  /** A grid value computed from one column's boundaries is right for every column. */
  lemma GridForAll(files: seq<File>, schema: Schema, c: Column, t: Table, rows: Option<int>)
    requires IsStitch(files, c, Some(t)) && t.starts != [] && rows == UniformSegmentRows(t.starts)
    ensures GridCoherent(files, schema, true, rows)
  {
    forall name, u | HasColumn(schema, name) && IsStitch(files, Column(name, DtypeOf(schema, name)), Some(u))
      ensures u.starts != [] && rows == UniformSegmentRows(u.starts)
    {
      StitchStartsShared(files, c.name, name, c.dtype.itemsize, DtypeOf(schema, name).itemsize);
    }
  }

  /** A stitched table stands for the dataset's column. */
  lemma StitchedColumn(mem: Memory, files: seq<File>, c: Column, t: Table)
    requires SharedColumn(files, c.name, c.dtype) && IsStitch(files, c, Some(t))
    ensures Represents(mem, t, c.dtype.itemsize, Flat(FileColumns(mem, files, c.name)))
  {
    StitchRepresents(mem, files, c.name, c.dtype);
  }

  /** `cells` is what indexing the concatenated column with `sel` gives. */
  ghost predicate IsRead(mem: Memory, files: seq<File>, name: string, sel: Selector, cells: seq<Cell>) {
    && (forall k :: 0 <= k < |files| ==> HasColumn(files[k].columns, name))
    && var column := Flat(FileColumns(mem, files, name));
       ValidSelector(sel, |column|) && cells == Read(column, sel)
  }

  /** Row `k` of record `r` of file `a`, among the rows of all files. */
  ghost predicate RowStands(files: seq<File>, offsets: seq<int>, starts: seq<int>, a: nat, r: nat, k: nat, row: int) {
    && PrefixSums(offsets, FileRows(files)) && a < |files|
    && PrefixSums(starts, RecordRows(files[a].records)) && r < |files[a].records| && k < files[a].records[r].rows
    && row == offsets[a] + starts[r] + k
  }

  /**
   Down to the bytes: element `i` of a read is the row the selector asks for in that place,
   and its bytes are the mapped ones of that row, found by file, record and column.
   */
  lemma ReadBytes(mem: Memory, files: seq<File>, name: string, sel: Selector, cells: seq<Cell>, n: nat,
                  rows: seq<int>, i: nat, offsets: seq<int>, starts: seq<int>, a: nat, r: nat, k: nat,
                  prefixes: seq<int>, c: nat, j: nat)
    requires IsRead(mem, files, name, sel, cells)
    requires PrefixSums(offsets, FileRows(files)) && n == offsets[|files|] && ValidSelector(sel, n)
    requires Asks(sel, n, rows) && i < |rows| && RowStands(files, offsets, starts, a, r, k, rows[i])
    requires c < |files[a].columns| && files[a].columns[c].name == name && OnlyOneNamed(files[a].columns, c)
    requires PrefixSums(prefixes, ItemSizes(files[a].columns))
    requires var dtype := files[a].columns[c].dtype;
             dtype.unit > 0 && dtype.itemsize % dtype.unit == 0 && j < dtype.itemsize
    ensures var f, dtype := files[a], files[a].columns[c].dtype;
            && |cells| == |rows| && |cells[i]| == dtype.itemsize
            && cells[i][j] == mem(f.base + f.records[r].body + prefixes[c] * f.records[r].rows
                                  + k * dtype.itemsize + HostByte(dtype, j))
  {
    var columns := FileColumns(mem, files, name);
    FileColumnLengths(mem, files, name);
    FlatLength(columns, offsets);
    ReadExactly(Flat(columns), sel, rows);
    CellByte(mem, files[a], c, prefixes, starts, r, k, j);
    hide *;
    assert columns[a] == ColumnCells(mem, files[a], name) by {
      FileColumnIs(mem, files, name, a);
    }
    FlatAt(columns, offsets, a, starts[r] + k);
  }

  lemma FileColumnIs(mem: Memory, files: seq<File>, name: string, a: nat)
    requires a < |files| && forall k :: 0 <= k < |files| ==> HasColumn(files[k].columns, name)
    ensures FileColumns(mem, files, name)[a] == ColumnCells(mem, files[a], name)
  {
  }

  /** A multi-column answer: exactly the requested names, each with its reference read. */
  ghost predicate Answers(mem: Memory, files: seq<File>, result: map<string, seq<Cell>>, names: seq<string>,
                          sel: Selector) {
    && (forall name :: name in result <==> name in names)
    && forall name :: name in result ==> IsRead(mem, files, name, sel, result[name])
  }

  lemma AnswersNext(mem: Memory, files: seq<File>, result: map<string, seq<Cell>>, names: seq<string>, k: nat,
                    sel: Selector, cells: seq<Cell>)
    requires k < |names| && Answers(mem, files, result, names[..k], sel)
    requires IsRead(mem, files, names[k], sel, cells)
    ensures Answers(mem, files, result[names[k] := cells], names[..k + 1], sel)
  {
    assert names[..k + 1] == names[..k] + [names[k]];
  }

  /** The bytes of regions that select `sel`'s rows are, as elements, the read of `sel`. */
  lemma FilledIsRead(mem: Memory, files: seq<File>, name: string, dtype: Dtype, regions: seq<Region>,
                     offsets: seq<int>, sel: Selector, n: nat)
    requires SharedColumn(files, name, dtype) && PrefixSums(offsets, FileRows(files))
    requires RegionsTile(regions, FileRows(files)) && ValidParts(RegionParts(regions), FileRows(files))
    requires |Flat(FileColumns(mem, files, name))| == n && ValidSelector(sel, n)
    requires AllRows(RegionParts(regions), offsets, FileRows(files)) == Rows(sel, n)
    ensures var total := RegionBounds(regions)[|regions|];
            var bytes := Flat(JobData(RegionJobs(mem, files, name, dtype.itemsize, regions)));
            total >= 0 && total * dtype.itemsize == |bytes| &&
            IsRead(mem, files, name, sel, Elements(bytes, dtype.itemsize, total))
  {
    RegionsRead(mem, files, name, dtype, regions, offsets);
    ElementsOfFlat(Pick(Flat(FileColumns(mem, files, name)), Rows(sel, n)), dtype.itemsize);
  }

  /** One row of one file is one row of the dataset. */
  lemma ScalarRow(mem: Memory, files: seq<File>, name: string, offsets: seq<int>, file: nat, local: nat)
    requires PrefixSums(offsets, FileRows(files)) && file < |files| && local < RowCount(files[file])
    requires forall k :: 0 <= k < |files| ==> HasColumn(files[k].columns, name)
    ensures |ColumnCells(mem, files[file], name)| == RowCount(files[file])
    ensures IsRead(mem, files, name, Scalar(offsets[file] + local),
                   Read(ColumnCells(mem, files[file], name), Scalar(local)))
  {
    hide ColumnCells;
    hide RowCount;
    var columns := FileColumns(mem, files, name);
    FileColumnLengths(mem, files, name);
    ColumnLength(mem, files[file], name);
    assert columns[file] == ColumnCells(mem, files[file], name);
    FlatAt(columns, offsets, file, local);
    assert Rows(Scalar(local), |columns[file]|) == [local];
    assert Rows(Scalar(offsets[file] + local), |Flat(columns)|) == [offsets[file] + local];
  }

  /** The regions' files, in order, meet the same first trouble as a scan over the reached files. */
  lemma FirstOfRegions<T>(options: seq<Option<T>>, regions: seq<Region>, offsets: seq<int>, lengths: seq<nat>,
                          chosen: seq<bool>)
    requires PrefixSums(offsets, lengths) && RegionsTile(regions, lengths)
    requires ValidParts(RegionParts(regions), lengths) && PartsAscend(RegionParts(regions), lengths, |lengths|)
    requires |options| == |chosen| == |lengths|
    requires forall f :: 0 <= f < |lengths| ==>
               (chosen[f] <==> Reaches(AllRows(RegionParts(regions), offsets, lengths), offsets[f], offsets[f + 1]))
    ensures InRange(RegionFiles(regions), |options|)
    ensures First(Pick(options, RegionFiles(regions))) == First(Only(options, chosen))
  {
    RegionFilesInRange(regions, lengths);
    forall f | 0 <= f < |lengths| ensures chosen[f] <==> f in RegionFiles(regions) {
      PartsReach(RegionParts(regions), offsets, lengths, f);
    }
    FirstOfListed(options, RegionFiles(regions), chosen);
  }

  /** The same for the blocks of one sort. */
  lemma FirstOfBlocks<T>(options: seq<Option<T>>, order: seq<int>, blocks: seq<Block>, bounds: seq<int>,
                         indices: seq<int>, offsets: seq<int>, lengths: seq<nat>, chosen: seq<bool>)
    requires PrefixSums(offsets, lengths) && IsArgsort(order, indices) && FilesAscend(blocks, |lengths|)
    requires BlocksTile(blocks, bounds, Pick(indices, order), offsets, lengths) && bounds[|blocks|] == |indices|
    requires |options| == |chosen| == |lengths|
    requires forall f :: 0 <= f < |lengths| ==> (chosen[f] <==> Reaches(indices, offsets[f], offsets[f + 1]))
    ensures InRange(BlockFiles(blocks), |options|)
    ensures First(Pick(options, BlockFiles(blocks))) == First(Only(options, chosen))
  {
    forall f | 0 <= f < |lengths| ensures chosen[f] <==> f in BlockFiles(blocks) {
      BlocksReach(order, blocks, bounds, indices, offsets, lengths, f);
    }
    FirstOfListed(options, BlockFiles(blocks), chosen);
  }

  /** One row reaches one file. */
  lemma FirstOfRow<T>(options: seq<Option<T>>, row: int, file: nat, offsets: seq<int>, lengths: seq<nat>,
                      chosen: seq<bool>)
    requires PrefixSums(offsets, lengths) && |options| == |chosen| == |lengths|
    requires file < |lengths| && offsets[file] <= row < offsets[file + 1]
    requires forall f :: 0 <= f < |lengths| ==> (chosen[f] <==> Reaches([row], offsets[f], offsets[f + 1]))
    ensures First(Only(options, chosen)) == options[file]
  {
    forall f | 0 <= f < |lengths| ensures chosen[f] <==> f == file {
      var rows := [row];
      assert rows[0] == row;
      if chosen[f] {
        assert Reaches(rows, offsets[f], offsets[f + 1]);
        var i :| 0 <= i < |rows| && offsets[f] <= rows[i] < offsets[f + 1];
        assert rows[i] == row;
        SameWindow(offsets, lengths, f, file, row);
      }
    }
    FirstOfListed(options, [file], chosen);
    assert Pick(options, [file]) == [options[file]];
  }

  /** Two address spaces that agree on the file of a row agree on the row. */
  lemma SameAt(a: Memory, b: Memory, files: seq<File>, name: string, offsets: seq<int>, row: int)
    requires PrefixSums(offsets, FileRows(files)) && 0 <= row < offsets[|files|]
    requires forall k :: 0 <= k < |files| ==> HasColumn(files[k].columns, name)
    requires forall k :: 0 <= k < |files| && offsets[k] <= row < offsets[k + 1] ==> SameFile(a, b, files[k])
    ensures |Flat(FileColumns(a, files, name))| == |Flat(FileColumns(b, files, name))| == offsets[|files|]
    ensures Flat(FileColumns(a, files, name))[row] == Flat(FileColumns(b, files, name))[row]
  {
    var xs, ys := FileColumns(a, files, name), FileColumns(b, files, name);
    hide *;
    FileColumnLengths(a, files, name);
    FileColumnLengths(b, files, name);
    FlatLength(xs, offsets);
    FlatLength(ys, offsets);
    var k := FlatLocate(xs, offsets, row);
    FileColumnCount(a, files, name);
    SameCells(a, b, files[k], name);
    FileColumnIs(a, files, name, k);
    FileColumnIs(b, files, name, k);
    FlatAt(ys, offsets, k, row - offsets[k]);
  }

  lemma FileColumnCount(mem: Memory, files: seq<File>, name: string)
    requires forall k :: 0 <= k < |files| ==> HasColumn(files[k].columns, name)
    ensures |FileColumns(mem, files, name)| == |files|
  {
  }

  class Dataset {
    const mode: Mode
    /** The address space at the moment of a call; nothing is promised of a mapping given up. */
    var mem: Memory
    /** What the files contain. */
    ghost const disk: Memory
    var children: seq<Reader>
    var owned: seq<bool>
    var schema: Schema
    var offsets: seq<int>
    var nRows: nat
    var segmentTableCache: map<string, Option<Table>>
    var uniformGridRows: Option<int>
    var uniformGridKnown: bool
    var closed: bool
    /** Every reader a successful append of this dataset opened. */
    ghost var openedHere: set<Reader>

    function Files(): seq<File>
      reads `children
    {
      FilesOf(children)
    }

    function ClosedFlags(): seq<bool>
      reads `children, children
    {
      var readers := children;
      seq(|readers|, k requires 0 <= k < |readers| reads readers => readers[k].closed)
    }

    /** No child with rows has been closed. */
    predicate AllOpen()
      reads `children, children
    {
      forall k :: 0 <= k < |children| && RowCount(children[k].file) != 0 ==> !children[k].closed
    }

    ghost predicate Valid()
      reads this, children
    {
      && FlagsSound(children, owned, openedHere)
      && PrefixSums(offsets, FileRows(Files())) && nRows == offsets[|children|]
      && AllExpose(SchemasOf(children), schema) && (children == [] <==> schema == []) && DistinctNames(schema)
      && CacheCoherent(Files(), schema, segmentTableCache, AllOpen())
      && GridCoherent(Files(), schema, uniformGridKnown, uniformGridRows)
    }

    /** Whatever readers others close, the memos stay coherent. */
    twostate lemma ClosingKeepsValid()
      requires old(Valid()) && unchanged(this)
      requires forall k :: 0 <= k < |children| && old(children[k].closed) ==> children[k].closed
      ensures Valid()
    {
    }

    /** What the offsets are. */
    lemma OffsetsSound()
      requires Valid()
      ensures PrefixSums(offsets, FileRows(Files())) && nRows == offsets[|children|] && NonDecreasing(offsets)
      ensures |children| == |Files()| == |FileRows(Files())|
    {
      PrefixSumsSorted(offsets, FileRows(Files()));
    }

    /** Every exposed column has one cell per global row, whatever the mappings show. */
    lemma ColumnRowsIn(m: Memory, name: string)
      requires Valid() && HasColumn(schema, name)
      ensures SharedColumn(Files(), name, DtypeOf(schema, name))
      ensures Lengths(FileColumns(m, Files(), name)) == FileRows(Files())
      ensures |Flat(FileColumns(m, Files(), name))| == nRows
    {
      ExposedEverywhere(children, schema, name);
      FileColumnLengths(m, Files(), name);
      FlatLength(FileColumns(m, Files(), name), offsets);
    }

    lemma ColumnRows(name: string)
      requires Valid() && HasColumn(schema, name)
      ensures SharedColumn(Files(), name, DtypeOf(schema, name))
      ensures Lengths(FileColumns(mem, Files(), name)) == FileRows(Files())
      ensures |Flat(FileColumns(mem, Files(), name))| == nRows
      ensures forall k :: 0 <= k < |children| ==> RowCount(Files()[k]) <= nRows
    {
      PrefixSumsSorted(offsets, FileRows(Files()));
      forall k | 0 <= k < |children| ensures RowCount(Files()[k]) <= nRows {
        assert offsets[k + 1] == offsets[k] + FileRows(Files())[k];
        assert offsets[k + 1] <= offsets[|children|];
      }
      ColumnRowsIn(mem, name);
    }

    lemma FancyIsRead(name: string, indices: seq<int>, cells: seq<Cell>)
      requires Valid() && HasColumn(schema, name) && InRange(indices, nRows)
      requires SharedColumn(Files(), name, DtypeOf(schema, name))
      requires |Flat(FileColumns(mem, Files(), name))| == nRows
      requires cells == Pick(Flat(FileColumns(mem, Files(), name)), indices)
      ensures IsRead(mem, Files(), name, Fancy(indices), cells)
    {
    }

    constructor (mem: Memory, mode: Mode, ghost disk: Memory)
      ensures Valid() && this.mem == mem && this.mode == mode && this.disk == disk
      ensures children == [] && schema == [] && nRows == 0 && !closed && openedHere == {}
    {
      this.mem, this.mode, this.disk := mem, mode, disk;
      children, owned, schema := [], [], [];
      offsets, nRows := [0], 0;
      segmentTableCache := map[];
      uniformGridRows, uniformGridKnown := None, false;
      closed := false;
      openedHere := {};
    }

    /** `_rebuild_offsets`: clear both memos, then the cumulative row counts. */
    method RebuildOffsets()
      modifies `offsets, `nRows, `segmentTableCache, `uniformGridKnown
      ensures segmentTableCache == map[] && !uniformGridKnown
      ensures PrefixSums(offsets, FileRows(Files())) && nRows == offsets[|children|]
    {
      segmentTableCache := map[];
      uniformGridKnown := false;
      var sums := [0];
      for k := 0 to |children|
        invariant |sums| == k + 1 && sums[0] == 0
        invariant forall i :: 0 <= i < k ==> sums[i + 1] == sums[i] + FileRows(Files())[i]
      {
        sums := sums + [sums[k] + RowCount(children[k].file)];
      }
      PrefixSumsSorted(sums, FileRows(Files()));
      offsets := sums;
      nRows := offsets[|children|];
    }

    // ---- growing and closing ----

    /**
     `_coerce_to_children`: resolve the sources in order. When one fails, everything this
     call has opened is closed again; nothing else is touched.
     */
    method CoerceToChildren(sources: seq<Source>)
      returns (ok: bool, readers: seq<Reader>, flags: seq<bool>, ghost opening: set<Reader>)
      ensures fresh(opening)
      ensures ok <==> AllResolvable(sources)
      ensures ok <==> forall i :: 0 <= i < |sources| ==>
                        !sources[i].Unsupported? &&
                        (sources[i].Paths? ==> forall k :: 0 <= k < |sources[i].files| ==> sources[i].files[k].Some?)
      ensures ok ==> Fits(Resolve(sources), readers, flags) && FlagsSound(readers, flags, opening)
      ensures ok ==> InOrder(sources, readers, flags)
      ensures ok ==> forall r :: r in opening ==> !r.closed
      ensures !ok ==> forall r :: r in opening ==> r.closed
    {
      readers, flags, opening := [], [], {};
      for i := 0 to |sources|
        invariant fresh(opening) && FlagsSound(readers, flags, opening)
        invariant forall r :: r in opening ==> !r.closed
        invariant AllResolvable(sources[..i]) && Fits(Resolve(sources[..i]), readers, flags)
      {
        assert sources[..i + 1][..i] == sources[..i] && sources[..i + 1][i] == sources[i];
        match sources[i]
        case Paths(files) =>
          ok, readers, flags, opening := OpenPaths(files, Resolve(sources[..i]), readers, flags, opening);
          if !ok {
            return;
          }
        case Borrowed(reader) =>
          FlagsNext(readers, flags, opening, reader, false);
          FitsNext(Resolve(sources[..i]), readers, flags, Borrows(reader), reader, false);
          readers, flags := readers + [reader], flags + [false];
        case Nested(more) =>
          FlagsBorrow(readers, flags, opening, more);
          FitsBorrow(Resolve(sources[..i]), readers, flags, more);
          readers, flags := readers + more, flags + seq(|more|, _ => false);
        case Unsupported =>
          CloseOwned(readers, flags, opening);
          return false, [], [], opening;
      }
      assert sources[..|sources|] == sources;
      FitsInOrder(sources, readers, flags);
      ok := true;
    }

    /** Open the files of one path source, in order. */
    method OpenPaths(files: seq<Option<StoredFile>>, ghost slots: seq<Slot>, before: seq<Reader>,
                     flagsBefore: seq<bool>,
                     ghost openingBefore: set<Reader>)
      returns (ok: bool, readers: seq<Reader>, flags: seq<bool>, ghost opening: set<Reader>)
      requires Fits(slots, before, flagsBefore) && FlagsSound(before, flagsBefore, openingBefore)
      requires forall r :: r in openingBefore ==> !r.closed
      modifies openingBefore`closed
      ensures openingBefore <= opening && fresh(opening - openingBefore)
      ensures ok <==> forall k :: 0 <= k < |files| ==> files[k].Some?
      ensures ok ==> Fits(slots + PathSlots(files), readers, flags) && FlagsSound(readers, flags, opening)
      ensures ok ==> forall r :: r in opening ==> !r.closed
      ensures !ok ==> forall r :: r in opening ==> r.closed
    {
      hide Fits;
      hide FlagsSound;
      readers, flags, opening := before, flagsBefore, openingBefore;
      assert slots + PathSlots([]) == slots;
      for k := 0 to |files|
        invariant openingBefore <= opening && fresh(opening - openingBefore)
        invariant forall i :: 0 <= i < k ==> files[i].Some?
        invariant Fits(slots + PathSlots(files[..k]), readers, flags) && FlagsSound(readers, flags, opening)
        invariant forall r :: r in opening ==> !r.closed
      {
        if files[k].None? {
          CloseOwned(readers, flags, opening);
          return false, [], [], opening;
        }
        var reader := new Reader(files[k].value);
        FlagsNext(readers, flags, opening, reader, true);
        FitsNext(slots + PathSlots(files[..k]), readers, flags, Opens(files[k].value), reader, true);
        assert slots + PathSlots(files[..k]) + [Opens(files[k].value)] == slots + PathSlots(files[..k + 1]);
        readers, flags, opening := readers + [reader], flags + [true], opening + {reader};
      }
      assert files[..|files|] == files;
      ok := true;
    }

    /** Close every reader flagged as owned. */
    method CloseOwned(readers: seq<Reader>, flags: seq<bool>, ghost targets: set<Reader>)
      requires FlagsSound(readers, flags, targets)
      modifies targets`closed
      ensures forall r :: r in targets ==> r.closed
    {
      for k := 0 to |readers|
        invariant forall i :: 0 <= i < k && flags[i] ==> readers[i].closed
      {
        if flags[k] {
          readers[k].Close();
        }
      }
      forall r | r in targets ensures r.closed {
        var i :| 0 <= i < |readers| && flags[i] && readers[i] == r;
      }
    }

    /** The schema of `append`: reconcile the new readers with what is exposed so far. */
    method ReconcileSchema(readers: seq<Reader>) returns (next: Option<Schema>)
      requires Valid()
      ensures next.Some? <==> Accepts(mode, schema, SchemasOf(children), SchemasOf(readers))
      ensures next.Some? ==> AllExpose(SchemasOf(children + readers), next.value)
      ensures next.Some? ==> (children + readers == [] <==> next.value == [])
      ensures next.Some? ==> DistinctNames(next.value)
      ensures next.Some? && mode == Strict ==> next.value == StrictSchema(schema, SchemasOf(readers))
      ensures next.Some? && mode == Drop ==> next.value == CommonSchema(SchemasOf(children + readers))
    {
      SchemasDistinct(readers);
      SchemasDistinct(children);
      SchemasDistinct(children + readers);
      assert SchemasOf(children + readers) == SchemasOf(children) + SchemasOf(readers);
      if mode == Drop {
        var all := SchemasOf(children + readers);
        if all != [] && CommonSchema(all) == [] {
          return None;
        }
        CommonSchemaExposed(all);
        if all != [] {
          CommonSchemaOrder(all);
        }
        return Some(CommonSchema(all));
      }
      var ok := CheckStrict(schema, SchemasOf(readers));
      if !ok {
        return None;
      }
      StrictAppendExact(SchemasOf(children), schema, SchemasOf(readers));
      return Some(StrictSchema(schema, SchemasOf(readers)));
    }

    /** The last lines of `append`: take over the readers and rebuild the offsets. */
    method Adopt(readers: seq<Reader>, flags: seq<bool>, next: Schema, ghost opening: set<Reader>)
      requires Valid() && FlagsSound(readers, flags, opening)
      requires AllExpose(SchemasOf(children + readers), next) && (children + readers == [] <==> next == [])
      requires DistinctNames(next)
      modifies this
      ensures Valid() && closed == old(closed) && schema == next && mem == old(mem)
      ensures children == old(children) + readers && owned == old(owned) + flags
      ensures openedHere == old(openedHere) + opening
    {
      OwnedGrows(children, owned, readers, flags, opening);
      schema := next;
      children := children + readers;
      owned := owned + flags;
      openedHere := openedHere + opening;
      RebuildOffsets();
    }

    /**
     `append`: grow in place, or leave the dataset exactly as it was. A failed append closes
     what it opened; the frame says that no reader from before the call is ever closed.
     */
    method Append(sources: seq<Source>)
      returns (ok: bool, ghost added: seq<Reader>, ghost flags: seq<bool>, ghost opening: set<Reader>)
      requires Valid()
      modifies this
      ensures Valid() && fresh(opening) && closed == old(closed) && mem == old(mem)
      ensures ok <==> !old(closed) && AllResolvable(sources) &&
                      Accepts(mode, old(schema), old(SchemasOf(children)), SlotSchemas(Resolve(sources)))
      ensures !ok ==> unchanged(this) && forall r :: r in opening ==> r.closed
      ensures ok ==> Fits(Resolve(sources), added, flags) && FlagsSound(added, flags, opening)
      ensures ok ==> InOrder(sources, added, flags)
      ensures ok ==> children == old(children) + added && owned == old(owned) + flags
      ensures ok ==> openedHere == old(openedHere) + opening && forall r :: r in opening ==> !r.closed
      ensures ok && mode == Strict ==> schema == if old(schema) == [] && added != [] then added[0].file.columns
                                                 else old(schema)
      ensures ok && mode == Strict ==> forall k :: 0 <= k < |added| ==> SameColumns(added[k].file.columns, schema)
      ensures ok && mode == Drop ==> schema == CommonSchema(SchemasOf(old(children) + added))
    {
      hide SameColumns;
      hide StrictSchema;
      hide InOrder;
      hide Reconcile;
      hide CommonSchema;
      added, flags, opening := [], [], {};
      if closed {
        return false, [], [], {};
      }
      var readers, owns;
      ok, readers, owns, opening := CoerceToChildren(sources);
      if !ok {
        return;
      }
      FitsSchemas(Resolve(sources), readers, owns);
      var next := ReconcileSchema(readers);
      if next.None? {
        CloseOwned(readers, owns, opening);
        return false, [], [], opening;
      }
      added, flags := readers, owns;
      if mode == Strict {
        StrictAdded(schema, readers);
      }
      Adopt(readers, owns, next.value, opening);
    }

    /** `close`: exactly the readers this dataset opened are closed, and only once. */
    method Close()
      requires Valid()
      modifies `closed, openedHere`closed
      ensures Valid() && closed
      ensures !old(closed) ==> forall r :: r in openedHere ==> r.closed
      ensures old(closed) ==> forall r :: r in openedHere ==> r.closed == old(r.closed)
    {
      if closed {
        return;
      }
      CloseOwned(children, owned, openedHere);
      closed := true;
    }

    /** `_locate`: the file that holds a global row, zero-row files skipped, and the local row. */
    method Locate(row: int) returns (file: nat, local: nat)
      requires Valid() && 0 <= row < nRows
      ensures file < |children| && offsets[file] <= row < offsets[file + 1]
      ensures local == row - offsets[file] && local < RowCount(children[file].file)
    {
      PrefixSumsSorted(offsets, FileRows(Files()));
      file := BinRecord(offsets, row);
      assert offsets[file + 1] == offsets[file] + FileRows(Files())[file];
      local := row - offsets[file];
    }

    // ---- native tables ----

    /** `_stitch_native_segment_table`: the loop over the children; a closed one has no table. */
    method StitchNativeSegmentTable(name: string, itemsize: nat) returns (t: Option<Table>)
      requires forall k :: 0 <= k < |Files()| ==> HasColumn(Files()[k].columns, name)
      ensures t == if AllOpen() then Stitch(Files(), name, itemsize) else None
    {
      hide Behind;
      hide RowCount;
      hide StitchUpTo;
      var table := Table([0], []);
      ghost var files := Files();
      StitchNothing(name, itemsize);
      for k := 0 to |children|
        invariant files == Files()
        invariant forall i :: 0 <= i < k && RowCount(children[i].file) != 0 ==> !children[i].closed
        invariant StitchUpTo(files[..k], name, itemsize) == Some(table)
      {
        StitchNext(files, name, itemsize, k);
        if RowCount(children[k].file) != 0 {
          if children[k].closed {
            return None;
          }
          var local := SegmentTableOf(children[k].file, name);
          if local.None? {
            StitchNoneStays(files, name, itemsize, k + 1);
            return None;
          }
          table := Behind(table, local.value, itemsize);
        }
      }
      assert files[..|children|] == files;
      return if table.base == [] then None else Some(table);
    }

    /** The table a stitch would give now. */
    ghost function Fresh(name: string): Option<Table>
      requires Valid() && HasColumn(schema, name)
      reads this, children
    {
      ExposedEverywhere(children, schema, name);
      if AllOpen() then Stitch(Files(), name, DtypeOf(schema, name).itemsize) else None
    }

    /** The table a read uses now: the remembered one if there is one. */
    ghost function TableNow(name: string): Option<Table>
      requires Valid() && HasColumn(schema, name)
      reads this, children
    {
      if name in segmentTableCache then segmentTableCache[name] else Fresh(name)
    }

    /** The memo is up to date exactly while every child with rows is open, or if it holds no table. */
    lemma MemoFresh(name: string)
      requires Valid() && name in segmentTableCache
      ensures HasColumn(schema, name)
      ensures segmentTableCache[name] == Fresh(name) <==> segmentTableCache[name].None? || AllOpen()
    {
      ExposedEverywhere(children, schema, name);
    }

    /** `t` is the stitch of the exposed column `name`. */
    ghost predicate CurrentTable(name: string, t: Table)
      reads `children, `schema
    {
      HasColumn(schema, name) && IsStitch(Files(), Column(name, DtypeOf(schema, name)), Some(t))
    }

    /** No column's table has changed for the reads to come. */
    twostate predicate SameTables()
      requires old(Valid()) && Valid() && old(schema) == schema
      reads this, children
    {
      forall name :: HasColumn(schema, name) ==> TableNow(name) == old(TableNow(name))
    }

    /** The grid memo is not about tables. */
    twostate lemma TablesKept()
      requires old(Valid()) && Valid() && unchanged(`children, `schema, `segmentTableCache)
      requires forall k :: 0 <= k < |children| ==> children[k].closed == old(children[k].closed)
      ensures SameTables()
    {
      assert AllOpen() == old(AllOpen());
    }

    /** What a read adds to the memo: nothing without the extension, else an entry for each column it asks for. */
    function Asked(names: seq<string>, asked: bool, cppAvailable: bool): set<string> {
      if asked && cppAvailable then set name | name in names else {}
    }

    /** `_native_segment_table`: asked for once, a table is remembered; availability is asked every time. */
    method NativeSegmentTable(name: string, cppAvailable: bool) returns (t: Option<Table>)
      requires Valid() && HasColumn(schema, name)
      modifies `segmentTableCache
      ensures Valid() && SameTables()
      ensures t == if cppAvailable then old(TableNow(name)) else None
      ensures t.Some? ==> CurrentTable(name, t.value)
      ensures segmentTableCache == if cppAvailable then old(segmentTableCache)[name := t] else old(segmentTableCache)
    {
      hide Stitch;
      if !cppAvailable {
        return None;
      }
      ExposedEverywhere(children, schema, name);
      if name !in segmentTableCache {
        var stitched := StitchNativeSegmentTable(name, DtypeOf(schema, name).itemsize);
        segmentTableCache := segmentTableCache[name := stitched];
      }
      return segmentTableCache[name];
    }

    /** `_uniform_segment_grid`: tested once, on whichever column asks first. */
    method UniformSegmentGrid(ghost c: Column, t: Table) returns (rows: Option<int>)
      requires Valid() && HasColumn(schema, c.name) && DtypeOf(schema, c.name) == c.dtype
      requires IsStitch(Files(), c, Some(t))
      modifies `uniformGridRows, `uniformGridKnown
      ensures Valid()
      ensures t.starts != [] && rows == UniformSegmentRows(t.starts)
    {
      if !uniformGridKnown {
        uniformGridRows := UniformSegmentRows(t.starts);
        uniformGridKnown := true;
        GridForAll(Files(), schema, c, t, uniformGridRows);
      }
      assert GridAgrees(Files(), c, uniformGridRows);
      return uniformGridRows;
    }

    /** `_native_gather`: cursor walk, division, or search; a wrong `sorted` costs only time. */
    method NativeGather(c: Column, out: array<Cell>, indices: seq<int>, t: Table, sorted: bool)
      requires Valid() && HasColumn(schema, c.name) && DtypeOf(schema, c.name) == c.dtype
      requires IsStitch(Files(), c, Some(t)) && nRows <= INT64_MAX
      requires InRange(indices, nRows) && out.Length == |indices|
      modifies out, `uniformGridRows, `uniformGridKnown
      ensures Valid() && IsRead(mem, Files(), c.name, Fancy(indices), out[..])
    {
      hide Valid;
      hide IsRead;
      hide IsStitch;
      hide FileColumns;
      hide Represents;
      ColumnRows(c.name);
      StitchedColumn(mem, Files(), c, t);
      ghost var column := Flat(FileColumns(mem, Files(), c.name));
      if sorted {
        var workers := ThreadCount();
        var order := AnyOrder(workers);
        ghost var logs := GatherSegmentSorted(mem, column, indices, out, t, c.dtype.itemsize, workers, order);
        FancyIsRead(c.name, indices, out[..]);
        return;
      }
      var rows := UniformSegmentGrid(c, t);
      var order := AnyOrder(|indices|);
      if rows.Some? {
        UniformSegmentRowsSound(t.starts);
        GatherSegmentUniform(mem, column, indices, out, rows.value, t.base, t.starts, c.dtype.itemsize, order);
      } else {
        GatherSegment(mem, column, indices, out, t, c.dtype.itemsize, order);
      }
      FancyIsRead(c.name, indices, out[..]);
    }

    // ---- what a selector reaches, and what stops it ----

    /** For each child, whether some selected row lies in it. */
    ghost function Reached(rows: seq<int>): seq<bool>
      requires |offsets| == |children| + 1
      reads `children, `offsets
    {
      var bounds := offsets;
      seq(|children|, k requires 0 <= k < |bounds| - 1 => Reaches(rows, bounds[k], bounds[k + 1]))
    }

    /** What the reached children raise: the first of them that is closed, or lacks its kernels, decides. */
    ghost function RowsTrouble(rows: seq<int>, cppAvailable: bool): Option<Error>
      requires |offsets| == |children| + 1
      reads `children, `offsets, children
    {
      First(Only(Troubles(Files(), ClosedFlags(), cppAvailable), Reached(rows)))
    }

    /** The regions' parts are non-empty, ascend over the files, and select exactly `rows`. */
    ghost predicate RegionsFor(regions: seq<Region>, rows: seq<int>)
      requires |offsets| == |children| + 1
      reads `children, `offsets
    {
      && RegionsTile(regions, FileRows(Files())) && ValidParts(RegionParts(regions), FileRows(Files()))
      && AllRows(RegionParts(regions), offsets, FileRows(Files())) == rows
      && PartsAscend(RegionParts(regions), FileRows(Files()), |children|)
    }

    /** Regions for these rows meet the rows' trouble first. */
    lemma RegionsTrouble(regions: seq<Region>, rows: seq<int>, cppAvailable: bool)
      requires Valid() && RegionsFor(regions, rows)
      ensures InRange(RegionFiles(regions), |children|)
      ensures First(Pick(Troubles(Files(), ClosedFlags(), cppAvailable), RegionFiles(regions)))
           == RowsTrouble(rows, cppAvailable)
    {
      hide Valid;
      hide First;
      hide Trouble;
      hide RowCount;
      hide RegionsTile;
      hide ValidParts;
      hide PartsAscend;
      hide AllRows;
      OffsetsSound();
      FirstOfRegions(Troubles(Files(), ClosedFlags(), cppAvailable), regions, offsets, FileRows(Files()),
                     Reached(rows));
    }

    lemma BlocksTrouble(order: seq<int>, blocks: seq<Block>, bounds: seq<int>, rows: seq<int>, cppAvailable: bool)
      requires Valid() && IsArgsort(order, rows) && FilesAscend(blocks, |children|)
      requires BlocksTile(blocks, bounds, Pick(rows, order), offsets, FileRows(Files())) && bounds[|blocks|] == |rows|
      ensures InRange(BlockFiles(blocks), |children|)
      ensures First(Pick(Troubles(Files(), ClosedFlags(), cppAvailable), BlockFiles(blocks)))
           == RowsTrouble(rows, cppAvailable)
    {
      hide Valid;
      hide First;
      hide Trouble;
      hide RowCount;
      hide BlocksTile;
      hide FilesAscend;
      OffsetsSound();
      FirstOfBlocks(Troubles(Files(), ClosedFlags(), cppAvailable), order, blocks, bounds, rows, offsets,
                    FileRows(Files()), Reached(rows));
    }

    lemma RowTrouble(row: int, file: nat, cppAvailable: bool)
      requires Valid() && file < |children| && offsets[file] <= row < offsets[file + 1]
      ensures RowsTrouble([row], cppAvailable) == Trouble(children[file].file, children[file].closed, cppAvailable)
    {
      hide Valid;
      hide First;
      hide Trouble;
      hide RowCount;
      OffsetsSound();
      FirstOfRow(Troubles(Files(), ClosedFlags(), cppAvailable), row, file, offsets, FileRows(Files()), Reached([row]));
    }

    lemma NothingReached(cppAvailable: bool)
      requires Valid()
      ensures RowsTrouble([], cppAvailable) == None
    {
      hide Valid;
      hide Trouble;
      OffsetsSound();
      FirstNone(Only(Troubles(Files(), ClosedFlags(), cppAvailable), Reached([])));
    }

    // ---- fancy reads ----

    /** The sort-once gather of one column, on a sort shared with other columns. */
    method GatherSorted(name: string, indices: seq<int>, order: seq<int>, blocks: seq<Block>, cppAvailable: bool,
                        ghost bounds: seq<int>)
      returns (cells: Outcome<seq<Cell>>)
      requires Valid() && HasColumn(schema, name) && InRange(indices, nRows)
      requires IsArgsort(order, indices) && bounds != [] && |bounds| == |blocks| + 1 && bounds[|blocks|] == |indices|
      requires BlocksTile(blocks, bounds, Pick(indices, order), offsets, FileRows(Files()))
      requires FilesAscend(blocks, |children|)
      ensures cells.Failure() == RowsTrouble(indices, cppAvailable)
      ensures cells.Done? ==> IsRead(mem, Files(), name, Fancy(indices), cells.value)
    {
      hide IsRead;
      hide RowsTrouble;
      hide BlocksTile;
      BlocksTrouble(order, blocks, bounds, indices, cppAvailable);
      var troubles := Troubles(Files(), ClosedFlags(), cppAvailable);
      var failed := First(Pick(troubles, BlockFiles(blocks)));
      if failed.Some? {
        return Failed(failed.value);
      }
      ColumnRows(name);
      ghost var columns := FileColumns(mem, Files(), name);
      assert InRange(indices, |Flat(columns)|);
      var out := new Cell[|indices|];
      GatherBlocks(FileColumns(mem, Files(), name), offsets, indices, order, blocks, bounds, out);
      FancyIsRead(name, indices, out[..]);
      return Done(out[..]);
    }

    /** The fallback for all requested columns. */
    method SortedEach(names: seq<string>, indices: seq<int>, cppAvailable: bool)
      returns (result: Outcome<map<string, seq<Cell>>>)
      requires Valid() && AllExposed(names) && InRange(indices, nRows)
      ensures result.Failure() == if names == [] then None else RowsTrouble(indices, cppAvailable)
      ensures result.Done? ==> Answers(mem, Files(), result.value, names, Fancy(indices))
    {
      var order, blocks;
      ghost var bounds;
      order, blocks, bounds := SortedBlocks(offsets, FileRows(Files()), indices);
      var answer: map<string, seq<Cell>> := map[];
      for i := 0 to |names|
        invariant i > 0 ==> RowsTrouble(indices, cppAvailable).None?
        invariant Answers(mem, Files(), answer, names[..i], Fancy(indices))
      {
        var cells := GatherSorted(names[i], indices, order, blocks, cppAvailable, bounds);
        if cells.Failed? {
          return Failed(cells.error);
        }
        AnswersNext(mem, Files(), answer, names, i, Fancy(indices), cells.value);
        answer := answer[names[i] := cells.value];
      }
      assert names[..|names|] == names;
      return Done(answer);
    }

    /** `_fancy_one`: the native pass, or one sort, block gathers and a scatter. */
    method FancyOne(name: string, indices: seq<int>, hint: Option<bool>, cppAvailable: bool)
      returns (cells: Outcome<seq<Cell>>)
      requires Valid() && HasColumn(schema, name)
      requires InRange(indices, nRows) && nRows <= INT64_MAX
      modifies `segmentTableCache, `uniformGridRows, `uniformGridKnown
      ensures Valid() && SameTables()
      ensures segmentTableCache.Keys == old(segmentTableCache.Keys) + Asked([name], indices != [], cppAvailable)
      ensures cells.Failure() == if indices != [] && cppAvailable && old(TableNow(name)).Some? then None
                                 else RowsTrouble(indices, cppAvailable)
      ensures cells.Done? ==> IsRead(mem, Files(), name, Fancy(indices), cells.value)
    {
      hide Valid;
      hide IsRead;
      hide TableNow;
      hide RowsTrouble;
      if |indices| == 0 {
        ColumnRows(name);
        NothingReached(cppAvailable);
        FancyIsRead(name, indices, []);
        return Done([]);
      }
      var t := NativeSegmentTable(name, cppAvailable);
      assert Asked([name], true, cppAvailable) == if cppAvailable then {name} else {};
      if t.Some? {
        var sorted := if hint.Some? then hint.value else IndicesAreSorted(indices);
        var out := new Cell[|indices|];
        label Tabled:
        NativeGather(Column(name, DtypeOf(schema, name)), out, indices, t.value, sorted);
        TablesKept@Tabled();
        return Done(out[..]);
      }
      OffsetsSound();
      var order, blocks;
      ghost var bounds;
      order, blocks, bounds := SortedBlocks(offsets, FileRows(Files()), indices);
      cells := GatherSorted(name, indices, order, blocks, cppAvailable, bounds);
    }

    ghost predicate CurrentTables(names: seq<string>, tables: seq<Table>)
      reads `children, `schema
    {
      |tables| == |names| && forall i :: 0 <= i < |names| ==> CurrentTable(names[i], tables[i])
    }

    predicate AllExposed(names: seq<string>)
      reads `schema
    {
      forall i :: 0 <= i < |names| ==> HasColumn(schema, names[i])
    }

    /** Every requested column has a table. */
    ghost predicate AllTabled(names: seq<string>)
      requires Valid() && AllExposed(names)
      reads this, children
    {
      forall i :: 0 <= i < |names| ==> TableNow(names[i]).Some?
    }

    /** The tables of all requested columns, if none is missing; every column is asked. */
    method NativeTables(names: seq<string>, cppAvailable: bool) returns (tables: Option<seq<Table>>)
      requires Valid() && AllExposed(names)
      modifies `segmentTableCache
      ensures Valid()
      ensures tables.Some? <==> names == [] || (cppAvailable && old(AllTabled(names)))
      ensures tables.Some? ==> CurrentTables(names, tables.value)
      ensures SameTables() && segmentTableCache.Keys == old(segmentTableCache.Keys) + Asked(names, true, cppAvailable)
    {
      hide Valid;
      hide TableNow;
      hide CurrentTable;
      var found: seq<Option<Table>> := [];
      for i := 0 to |names|
        invariant Valid() && SameTables() && |found| == i
        invariant forall k :: 0 <= k < i ==> found[k] == if cppAvailable then old(TableNow(names[k])) else None
        invariant forall k :: 0 <= k < i && found[k].Some? ==> CurrentTable(names[k], found[k].value)
        invariant segmentTableCache.Keys == old(segmentTableCache.Keys) + Asked(names[..i], true, cppAvailable)
      {
        var t := NativeSegmentTable(names[i], cppAvailable);
        found := found + [t];
        assert names[..i + 1] == names[..i] + [names[i]];
      }
      assert names[..|names|] == names;
      if i :| 0 <= i < |found| && found[i].None? {
        return None;
      }
      if names != [] {
        assert found[0].Some?;
        assert forall i :: 0 <= i < |names| ==> found[i].Some? && found[i] == old(TableNow(names[i]));
      }
      return Some(seq(|found|, i requires 0 <= i < |found| && found[i].Some? => found[i].value));
    }

    /** `_native_gather_many`: one segment pass for the first column, replayed for the others. */
    method NativeGatherMany(names: seq<string>, indices: seq<int>, tables: seq<Table>, cppAvailable: bool)
      returns (result: Outcome<map<string, seq<Cell>>>)
      requires Valid() && CurrentTables(names, tables)
      requires InRange(indices, nRows) && nRows <= INT64_MAX
      modifies `uniformGridRows, `uniformGridKnown
      ensures Valid()
      ensures result.Failure() == if !cppAvailable then Some(NoExtension)
                                  else if names == [] then Some(NoTables)
                                  else None
      ensures result.Done? ==> Answers(mem, Files(), result.value, names, Fancy(indices))
    {
      if !cppAvailable {
        return Failed(NoExtension);
      }
      if |tables| == 0 {
        return Failed(NoTables);
      }
      assert CurrentTable(names[0], tables[0]);
      var sorted := IndicesAreSorted(indices);
      var answer;
      if sorted || |names| == 1 || |tables[0].base| > INT32_MAX {
        answer := NativeEach(names, indices, tables, sorted);
      } else {
        answer := NativeBins(names, indices, tables);
      }
      return Done(answer);
    }

    /** An independent pass per column. */
    method NativeEach(names: seq<string>, indices: seq<int>, tables: seq<Table>, sorted: bool)
      returns (result: map<string, seq<Cell>>)
      requires Valid() && CurrentTables(names, tables)
      requires InRange(indices, nRows) && nRows <= INT64_MAX
      modifies `uniformGridRows, `uniformGridKnown
      ensures Valid() && Answers(mem, Files(), result, names, Fancy(indices))
    {
      result := map[];
      for i := 0 to |names|
        invariant Valid() && Answers(mem, Files(), result, names[..i], Fancy(indices))
      {
        assert CurrentTable(names[i], tables[i]);
        var out := new Cell[|indices|];
        NativeGather(Column(names[i], DtypeOf(schema, names[i])), out, indices, tables[i], sorted);
        AnswersNext(mem, Files(), result, names, i, Fancy(indices), out[..]);
        result := result[names[i] := out[..]];
      }
      assert names[..|names|] == names;
    }

    /** Bins recorded on the first column, replayed on the rest. */
    method NativeBins(names: seq<string>, indices: seq<int>, tables: seq<Table>)
      returns (result: map<string, seq<Cell>>)
      requires Valid() && CurrentTables(names, tables) && names != [] && |tables[0].base| <= INT32_MAX
      requires InRange(indices, nRows) && nRows <= INT64_MAX
      modifies `uniformGridRows, `uniformGridKnown
      ensures Valid() && Answers(mem, Files(), result, names, Fancy(indices))
    {
      assert CurrentTable(names[0], tables[0]);
      var bins, cells := FirstWithBins(names[0], indices, tables[0]);
      result := map[];
      AnswersNext(mem, Files(), result, names, 0, Fancy(indices), cells);
      result := result[names[0] := cells];
      for i := 1 to |names|
        invariant Valid() && Answers(mem, Files(), result, names[..i], Fancy(indices))
      {
        assert CurrentTable(names[i], tables[i]);
        cells := Replay(names[i], indices, tables[i], bins, names[0], tables[0]);
        AnswersNext(mem, Files(), result, names, i, Fancy(indices), cells);
        result := result[names[i] := cells];
      }
      assert names[..|names|] == names;
    }

    /** The first column of a multi-column read records every row's segment. */
    method FirstWithBins(name: string, indices: seq<int>, t: Table) returns (bins: seq<Bin>, cells: seq<Cell>)
      requires Valid() && CurrentTable(name, t) && |t.base| <= INT32_MAX
      requires InRange(indices, nRows) && nRows <= INT64_MAX
      modifies `uniformGridRows, `uniformGridKnown
      ensures Valid() && BinsOf(bins, t.starts, indices)
      ensures IsRead(mem, Files(), name, Fancy(indices), cells)
    {
      hide Valid;
      hide IsRead;
      hide IsStitch;
      hide FileColumns;
      hide Represents;
      var c := Column(name, DtypeOf(schema, name));
      ColumnRows(name);
      StitchedColumn(mem, Files(), c, t);
      ghost var column := Flat(FileColumns(mem, Files(), name));
      var out := new Cell[|indices|];
      var recorded := new Bin[|indices|];
      var rows := UniformSegmentGrid(c, t);
      var order := AnyOrder(|indices|);
      if rows.Some? {
        UniformSegmentRowsSound(t.starts);
        GatherSegmentUniformBins(mem, column, indices, out, recorded, rows.value, t.base, t.starts, c.dtype.itemsize,
                                 order);
      } else {
        GatherSegmentBins(mem, column, indices, out, recorded, t, c.dtype.itemsize, order);
      }
      FancyIsRead(name, indices, out[..]);
      return recorded[..], out[..];
    }

    /** Every further column reuses the bins: the boundaries are shared, only the bases differ. */
    method Replay(name: string, indices: seq<int>, t: Table, bins: seq<Bin>, ghost first: string,
                  ghost firstTable: Table)
      returns (cells: seq<Cell>)
      requires Valid() && CurrentTable(name, t) && CurrentTable(first, firstTable)
      requires BinsOf(bins, firstTable.starts, indices) && InRange(indices, nRows)
      ensures IsRead(mem, Files(), name, Fancy(indices), cells)
    {
      var dtype := DtypeOf(schema, name);
      ColumnRows(name);
      StitchedColumn(mem, Files(), Column(name, dtype), t);
      StitchStartsShared(Files(), name, first, dtype.itemsize, DtypeOf(schema, first).itemsize);
      var out := new Cell[|indices|];
      var order := AnyOrder(|indices|);
      GatherSegmentWithBins(mem, Flat(FileColumns(mem, Files(), name)), indices, out, bins, t.base, t.starts,
                            dtype.itemsize, order);
      return out[..];
    }

    /** `_fancy_many`: all columns native, or one sort shared by all columns. */
    method FancyMany(names: seq<string>, indices: seq<int>, cppAvailable: bool)
      returns (result: Outcome<map<string, seq<Cell>>>)
      requires Valid() && AllExposed(names) && InRange(indices, nRows) && nRows <= INT64_MAX
      modifies `segmentTableCache, `uniformGridRows, `uniformGridKnown
      ensures Valid() && SameTables()
      ensures segmentTableCache.Keys == old(segmentTableCache.Keys) + Asked(names, indices != [], cppAvailable)
      ensures result.Failure() == if indices == [] then None
                                  else if names == [] then Some(if cppAvailable then NoTables else NoExtension)
                                  else if cppAvailable && old(AllTabled(names)) then None
                                  else RowsTrouble(indices, cppAvailable)
      ensures result.Done? ==> Answers(mem, Files(), result.value, names, Fancy(indices))
    {
      if |indices| == 0 {
        var nothing := NothingRead(names);
        return Done(nothing);
      }
      var tables := NativeTables(names, cppAvailable);
      if tables.Some? {
        label Tabled:
        result := NativeGatherMany(names, indices, tables.value, cppAvailable);
        TablesKept@Tabled();
        return;
      }
      result := SortedEach(names, indices, cppAvailable);
    }

    /** No rows: the freshly allocated columns, which are empty. */
    method NothingRead(names: seq<string>) returns (result: map<string, seq<Cell>>)
      requires Valid() && AllExposed(names)
      ensures Answers(mem, Files(), result, names, Fancy([]))
    {
      result := map[];
      for i := 0 to |names|
        invariant Answers(mem, Files(), result, names[..i], Fancy([]))
      {
        ColumnRows(names[i]);
        AnswersNext(mem, Files(), result, names, i, Fancy([]), []);
        result := result[names[i] := []];
      }
      assert names[..|names|] == names;
    }

    // ---- mask reads ----

    /** One column through the mask kernel. */
    method MaskColumn(name: string, mask: seq<bool>, t: Table) returns (cells: seq<Cell>)
      requires Valid() && CurrentTable(name, t) && |mask| == nRows
      ensures IsRead(mem, Files(), name, Mask(mask), cells)
    {
      var dtype := DtypeOf(schema, name);
      ColumnRows(name);
      StitchedColumn(mem, Files(), Column(name, dtype), t);
      var selected := CountMaskRange(mask, 0, |mask|);
      var out := new Cell[selected];
      var workers := ThreadCount();
      var order := AnyOrder(workers);
      var status;
      ghost var logs;
      status, logs := GatherSegmentMask(mem, Flat(FileColumns(mem, Files(), name)), mask, out, t, dtype.itemsize,
                                        workers, order);
      return out[..];
    }

    /** `_mask_native`: `None` declines (too sparse, or a column without a native table). */
    method MaskNative(names: seq<string>, mask: seq<bool>, cppAvailable: bool, dense: bool)
      returns (result: Outcome<Option<map<string, seq<Cell>>>>)
      requires Valid() && AllExposed(names) && |mask| == nRows
      modifies `segmentTableCache
      ensures Valid()
      ensures SameTables()
      ensures segmentTableCache.Keys == old(segmentTableCache.Keys) + Asked(names, nRows > 0 && dense, cppAvailable)
      ensures result.Failure() == if nRows > 0 && dense && names == [] && !cppAvailable then Some(NoExtension) else None
      ensures result.Done? ==>
                (result.value.Some? <==> nRows > 0 && dense && cppAvailable && old(AllTabled(names)))
      ensures result.Done? && result.value.Some? ==> Answers(mem, Files(), result.value.value, names, Mask(mask))
    {
      hide Valid;
      hide Answers;
      hide TableNow;
      if nRows == 0 || !dense {
        return Done(None);
      }
      var tables := NativeTables(names, cppAvailable);
      if tables.None? {
        return Done(None);
      }
      if !cppAvailable {
        return Failed(NoExtension);
      }
      var answer := MaskColumns(names, mask, tables.value);
      return Done(Some(answer));
    }

    /** The kernel, column by column. */
    method MaskColumns(names: seq<string>, mask: seq<bool>, tables: seq<Table>) returns (answer: map<string, seq<Cell>>)
      requires Valid() && CurrentTables(names, tables) && |mask| == nRows
      ensures Answers(mem, Files(), answer, names, Mask(mask))
    {
      answer := map[];
      for i := 0 to |names|
        invariant Answers(mem, Files(), answer, names[..i], Mask(mask))
      {
        assert CurrentTable(names[i], tables[i]);
        var cells := MaskColumn(names[i], mask, tables[i]);
        AnswersNext(mem, Files(), answer, names, i, Mask(mask), cells);
        answer := answer[names[i] := cells];
      }
      assert names[..|names|] == names;
    }

    // ---- contiguous reads ----

    /** Regions of a whole read, a forward slice or a mask, whichever `_classify_rows` finds. */
    method PlanRegions(sel: Selector) returns (regions: seq<Region>)
      requires Valid() && ValidSelector(sel, nRows)
      requires sel.Whole? || sel.Mask? || (sel.Slice? && StepOf(sel) >= 1)
      ensures RegionsFor(regions, Rows(sel, nRows))
    {
      var lengths := FileRows(Files());
      match sel
      case Whole =>
        regions := OffsetRegions(offsets, lengths);
      case Mask(mask) =>
        var parts := MaskParts(offsets, lengths, mask);
        regions := ContiguousRegions(parts, lengths);
      case Slice(_, _, _) =>
        var i := SliceIndices(sel, nRows);
        var parts := SliceParts(offsets, lengths, i.start, i.stop, i.step);
        regions := ContiguousRegions(parts, lengths);
    }

    /** What filling these regions needs and gives. */
    lemma RegionsReady(name: string, regions: seq<Region>, sel: Selector, cppAvailable: bool)
      requires Valid() && HasColumn(schema, name) && ValidSelector(sel, nRows)
      requires RegionsFor(regions, Rows(sel, nRows))
      ensures RegionsTile(regions, FileRows(Files())) && SharedColumn(Files(), name, DtypeOf(schema, name))
      ensures forall k :: 0 <= k < |Files()| ==> RowCount(Files()[k]) <= nRows
      ensures |ClosedFlags()| == |Files()| && InRange(RegionFiles(regions), |Files()|)
      ensures First(Pick(Troubles(Files(), ClosedFlags(), cppAvailable), RegionFiles(regions)))
           == RowsTrouble(Rows(sel, nRows), cppAvailable)
      ensures var itemsize := DtypeOf(schema, name).itemsize;
              var total := RegionBounds(regions)[|regions|];
              var bytes := Flat(JobData(RegionJobs(mem, Files(), name, itemsize, regions)));
              total >= 0 && total * itemsize == |bytes| &&
              IsRead(mem, Files(), name, sel, Elements(bytes, itemsize, total))
    {
      ColumnRows(name);
      OffsetsSound();
      FilledIsRead(mem, Files(), name, DtypeOf(schema, name), regions, offsets, sel, nRows);
      RegionsTrouble(regions, Rows(sel, nRows), cppAvailable);
    }

    /** `_gather_one_contiguous`, and the whole read: allocate, then fill the regions. */
    method FillRegions(name: string, regions: seq<Region>, cppAvailable: bool, ghost sel: Selector)
      returns (cells: Outcome<seq<Cell>>)
      requires Valid() && HasColumn(schema, name) && ValidSelector(sel, nRows) && nRows <= INT64_MAX
      requires RegionsFor(regions, Rows(sel, nRows))
      ensures cells.Failure() == RowsTrouble(Rows(sel, nRows), cppAvailable)
      ensures cells.Done? ==> IsRead(mem, Files(), name, sel, cells.value)
    {
      hide Valid;
      hide IsRead;
      hide RowsTrouble;
      hide RegionsFor;
      hide RegionsTile;
      hide RegionJobs;
      hide Troubles;
      hide Elements;
      hide FileRows;
      hide RowCount;
      var dtype := DtypeOf(schema, name);
      RegionsReady(name, regions, sel, cppAvailable);
      var total := RegionBounds(regions)[|regions|];
      var out := new Byte[total * dtype.itemsize];
      var workers := ThreadCount();
      var failed := FillColumn(mem, Files(), name, dtype, regions, out, ClosedFlags(), cppAvailable, workers);
      if failed.Some? {
        return Failed(failed.value);
      }
      return Done(Elements(out[..], dtype.itemsize, total));
    }

    /** A single row: locate its file and let the child read it. */
    method ScalarRead(name: string, row: int, cppAvailable: bool) returns (cells: Outcome<seq<Cell>>)
      requires Valid() && HasColumn(schema, name) && 0 <= row < nRows && nRows <= INT64_MAX
      ensures cells.Failure() == RowsTrouble([row], cppAvailable)
      ensures cells.Done? ==> IsRead(mem, Files(), name, Scalar(row), cells.value)
    {
      hide IsRead;
      hide ColumnCells;
      hide RowsTrouble;
      hide Valid;
      hide FileColumns;
      hide Flat;
      hide Trouble;
      hide SharedColumn;
      var file, local := Locate(row);
      ColumnRows(name);
      OffsetsSound();
      RowTrouble(row, file, cppAvailable);
      cells := GatherChild(mem, Files()[file], name, Scalar(local), None, true, children[file].closed, cppAvailable);
      ScalarRow(mem, Files(), name, offsets, file, local);
    }

    /** Why a one-file dataset cannot read: its child's trouble, or the one selector it refuses. */
    function ChildFailure(sel: Selector, cppAvailable: bool): Option<Error>
      requires ValidSelector(sel, nRows) && |children| == 1
      reads this, children
    {
      var child := children[0];
      var trouble := Trouble(child.file, child.closed, cppAvailable);
      if trouble.Some? then trouble
      else if |child.file.records| > 1 && BackwardRange(sel, nRows) then Some(BackwardSlice)
      else None
    }

    /** A one-file dataset hands the selector to its child. */
    method ChildRead(name: string, sel: Selector, hint: Option<bool>, cppAvailable: bool, dense: bool)
      returns (cells: Outcome<seq<Cell>>)
      requires Valid() && HasColumn(schema, name) && ValidSelector(sel, nRows) && |children| == 1 && nRows <= INT64_MAX
      ensures cells.Failure() == ChildFailure(sel, cppAvailable)
      ensures cells.Done? ==> IsRead(mem, Files(), name, sel, cells.value)
    {
      ColumnRows(name);
      assert offsets[0 + 1] == offsets[0] + FileRows(Files())[0];
      cells := GatherChild(mem, children[0].file, name, sel, hint, dense, children[0].closed, cppAvailable);
      FlatSingle(ColumnCells(mem, Files()[0], name));
      assert FileColumns(mem, Files(), name) == [ColumnCells(mem, Files()[0], name)];
    }

    // ---- readers closed by others ----

    /** Two address spaces that agree on the bytes of every open child. */
    ghost predicate SameOpen(a: Memory, b: Memory)
      reads `children, children
    {
      forall k :: 0 <= k < |children| && !children[k].closed ==> SameFile(a, b, Files()[k])
    }

    /** The selector reaches open children only. */
    ghost predicate OnlyOpen(sel: Selector)
      requires ValidSelector(sel, nRows) && |offsets| == |children| + 1
      reads `children, `offsets, `nRows, children
    {
      forall k :: 0 <= k < |children| && Reached(Rows(sel, nRows))[k] ==> !children[k].closed
    }

    /** A row of an open child is the same cell in both address spaces. */
    lemma OpenCell(a: Memory, b: Memory, name: string, rows: seq<int>, i: nat)
      requires Valid() && HasColumn(schema, name) && InRange(rows, nRows) && i < |rows|
      requires forall k :: 0 <= k < |children| && Reached(rows)[k] ==> SameFile(a, b, Files()[k])
      ensures SharedColumn(Files(), name, DtypeOf(schema, name))
      ensures |Flat(FileColumns(a, Files(), name))| == |Flat(FileColumns(b, Files(), name))| == nRows
      ensures Flat(FileColumns(a, Files(), name))[rows[i]] == Flat(FileColumns(b, Files(), name))[rows[i]]
    {
      hide Valid;
      hide Flat;
      hide FileColumns;
      hide FileRows;
      hide SameFile;
      OffsetsSound();
      ColumnRowsIn(a, name);
      ColumnRowsIn(b, name);
      forall k | 0 <= k < |children| && offsets[k] <= rows[i] < offsets[k + 1] ensures SameFile(a, b, Files()[k]) {
        assert Reached(rows)[k];
      }
      SameAt(a, b, Files(), name, offsets, rows[i]);
    }

    /** A read that reaches open children only depends on their bytes only. */
    lemma OpenReads(a: Memory, b: Memory, name: string, sel: Selector, cells: seq<Cell>)
      requires Valid() && HasColumn(schema, name) && ValidSelector(sel, nRows)
      requires IsRead(a, Files(), name, sel, cells)
      ensures SameOpen(a, b) && OnlyOpen(sel) ==> IsRead(b, Files(), name, sel, cells)
    {
      hide Valid;
      hide ColumnCells;
      hide SameFile;
      hide Reached;
      hide Rows;
      hide FileColumns;
      hide Flat;
      OffsetsSound();
      if SameOpen(a, b) && OnlyOpen(sel) {
        var rows := Rows(sel, nRows);
        ColumnRowsIn(a, name);
        ColumnRowsIn(b, name);
        RowsInRange(sel, nRows);
        forall i | 0 <= i < |rows|
          ensures Flat(FileColumns(a, Files(), name))[rows[i]] == Flat(FileColumns(b, Files(), name))[rows[i]]
        {
          OpenCell(a, b, name, rows, i);
        }
      }
    }

    lemma OpenAnswers(a: Memory, b: Memory, names: seq<string>, sel: Selector, result: map<string, seq<Cell>>)
      requires Valid() && AllExposed(names) && ValidSelector(sel, nRows)
      requires Answers(a, Files(), result, names, sel)
      ensures |offsets| == |children| + 1
      ensures SameOpen(a, b) && OnlyOpen(sel) ==> Answers(b, Files(), result, names, sel)
    {
      hide Valid;
      hide IsRead;
      hide SameOpen;
      hide OnlyOpen;
      OffsetsSound();
      forall name | name in result && SameOpen(a, b) && OnlyOpen(sel)
        ensures IsRead(b, Files(), name, sel, result[name])
      {
        OpenReads(a, b, name, sel, result[name]);
      }
    }

    // ---- the copying seam ----

    /** The integer rows of an order-bearing selector: a fancy array or a reversed slice. */
    function OrderedRows(sel: Selector): (rows: Option<seq<int>>)
      requires ValidSelector(sel, nRows)
      reads `nRows
      ensures rows.Some? ==> rows.value == Rows(sel, nRows)
    {
      match sel
      case Fancy(indices) => Some(indices)
      case Slice(_, _, _) => if StepOf(sel) < 0 then Some(Rows(sel, nRows)) else None
      case _ => None
    }

    /** Selectors that native passes over several files take: ordered rows, if any, and masks above the gate. */
    predicate NativeTakes(sel: Selector, dense: bool)
      requires ValidSelector(sel, nRows)
      reads `nRows
    {
      if sel.Mask? then nRows > 0 && dense else OrderedRows(sel).Some? && OrderedRows(sel).value != []
    }

    /** Exactly: dense masks over any rows, non-empty lists of rows, and backward slices that take a row. */
    lemma NativeTakesExactly(sel: Selector, dense: bool)
      requires ValidSelector(sel, nRows)
      ensures NativeTakes(sel, dense) <==>
                match sel
                case Mask(_) => dense && nRows > 0
                case Fancy(rows) => rows != []
                case Slice(start, stop, step) =>
                  step.Some? && step.value < 0 && exists row :: Takes(start, stop, step.value, nRows, row)
                case _ => false
    {
      if sel.Slice? {
        SliceRows(sel, nRows);
        var rows := Rows(sel, nRows);
        assert rows != [] ==> rows[0] in rows;
      }
    }

    /** An accepted read over several files, or none, that native passes may take asks for its columns' tables. */
    predicate AsksTables(names: seq<string>, sel: Selector, dense: bool)
      requires ValidSelector(sel, nRows)
      reads `closed, `schema, `children, `nRows
    {
      !closed && AllExposed(names) && |children| != 1 && NativeTakes(sel, dense)
    }

    /**
     Why a read of one column fails. A native pass over remembered tables asks no child
     whether it is open, so then nothing stops it.
     */
    ghost function OneFailure(name: string, sel: Selector, cppAvailable: bool, dense: bool): Option<Error>
      requires Valid() && ValidSelector(sel, nRows)
      reads this, children
    {
      if closed then Some(ClosedDataset)
      else if !HasColumn(schema, name) then Some(UnknownColumn)
      else if |children| == 1 then ChildFailure(sel, cppAvailable)
      else if NativeTakes(sel, dense) && cppAvailable && TableNow(name).Some? then None
      else RowsTrouble(Rows(sel, nRows), cppAvailable)
    }

    lemma ExposedByChild(names: seq<string>)
      requires Valid() && AllExposed(names) && |children| == 1
      ensures HasAll(children[0].file, names) && RowCount(children[0].file) == nRows
    {
      OffsetsSound();
      assert offsets[0 + 1] == offsets[0] + FileRows(Files())[0];
      assert Exposes(SchemasOf(children)[0], schema);
      forall i | 0 <= i < |names| ensures HasColumn(children[0].file.columns, names[i]) {
        ExposedColumn(children[0].file.columns, schema, names[i]);
      }
    }

    /** The same for several columns, or for none; `pooled` and `dense` are the child's where there is one. */
    ghost function ManyFailure(names: seq<string>, sel: Selector, cppAvailable: bool, dense: bool, pooled: bool)
      : Option<Error>
      requires Valid() && ValidSelector(sel, nRows)
      reads this, children
    {
      if closed then Some(ClosedDataset)
      else if !AllExposed(names) then Some(UnknownColumn)
      else if |children| == 1 then
        ExposedByChild(names);
        ManyTrouble(children[0].file, names, sel, children[0].closed, cppAvailable, dense, pooled)
      else if names == [] then
        if !NativeTakes(sel, dense) then None
        else if !cppAvailable then Some(NoExtension)
        else if sel.Mask? then None
        else Some(NoTables)
      else if NativeTakes(sel, dense) && cppAvailable && AllTabled(names) then None
      else RowsTrouble(Rows(sel, nRows), cppAvailable)
    }

    /** The rows reach this child, and it cannot serve them: closed, or of several records without the kernels. */
    ghost predicate Refuses(k: nat, rows: seq<int>, cppAvailable: bool)
      requires k < |children| && |offsets| == |children| + 1
      reads `children, `offsets, children
    {
      && (exists i :: 0 <= i < |rows| && offsets[k] <= rows[i] < offsets[k + 1])
      && (children[k].closed || (|children[k].file.records| > 1 && !cppAvailable))
    }

    /** Which child decides: the first in file order, not in the order of the rows. */
    lemma FirstRefusal(rows: seq<int>, cppAvailable: bool, k: nat)
      requires Valid() && k < |children|
      ensures |offsets| == |children| + 1
      ensures Refuses(k, rows, cppAvailable) && (forall q :: 0 <= q < k ==> !Refuses(q, rows, cppAvailable)) ==>
                RowsTrouble(rows, cppAvailable) == Some(if children[k].closed then ClosedReader else NoExtension)
    {
      hide Valid;
      OffsetsSound();
      if Refuses(k, rows, cppAvailable) && forall q :: 0 <= q < k ==> !Refuses(q, rows, cppAvailable) {
        var troubles := Only(Troubles(Files(), ClosedFlags(), cppAvailable), Reached(rows));
        forall q | 0 <= q <= k
          ensures troubles[q] == if !Refuses(q, rows, cppAvailable) then None
                                 else Some(if children[q].closed then ClosedReader else NoExtension)
        {
          RefusesIs(q, rows, cppAvailable);
        }
        hide *;
        FirstIs(troubles, k);
      }
    }

    lemma RefusesIs(k: nat, rows: seq<int>, cppAvailable: bool)
      requires k < |children| && |offsets| == |children| + 1
      ensures |Files()| == |ClosedFlags()| == |Reached(rows)| == |children|
      ensures Only(Troubles(Files(), ClosedFlags(), cppAvailable), Reached(rows))[k]
           == if !Refuses(k, rows, cppAvailable) then None
              else Some(if children[k].closed then ClosedReader else NoExtension)
    {
    }

    /** Rows are refused exactly if they reach a closed child or, without the kernels, one of several records. */
    lemma RowsTroubleExact(rows: seq<int>, cppAvailable: bool)
      requires Valid()
      ensures |offsets| == |children| + 1
      ensures RowsTrouble(rows, cppAvailable).None? <==>
                forall k :: 0 <= k < |children| && Reached(rows)[k] ==>
                  !children[k].closed && (|children[k].file.records| <= 1 || cppAvailable)
      ensures RowsTrouble(rows, cppAvailable) in {None, Some(ClosedReader), Some(NoExtension)}
      ensures AllChildrenOpen() ==> RowsTrouble(rows, cppAvailable) != Some(ClosedReader)
      ensures cppAvailable ==> RowsTrouble(rows, cppAvailable) != Some(NoExtension)
    {
      hide Valid;
      hide Reaches;
      OffsetsSound();
      var troubles := Only(Troubles(Files(), ClosedFlags(), cppAvailable), Reached(rows));
      FirstNone(troubles);
      if First(troubles).None? {
        forall k | 0 <= k < |children| && Reached(rows)[k]
          ensures !children[k].closed && (|children[k].file.records| <= 1 || cppAvailable)
        {
          assert troubles[k].None?;
        }
      } else {
        var k := FirstPosition(troubles);
        FirstIs(troubles, k);
        assert troubles[k] == Trouble(children[k].file, children[k].closed, cppAvailable);
      }
    }

    predicate AllChildrenOpen()
      reads `children, children
    {
      forall k :: 0 <= k < |children| ==> !children[k].closed
    }

    /** A selected row lies in a file of several records. */
    ghost predicate NeedsKernels(sel: Selector)
      requires ValidSelector(sel, nRows) && |offsets| == |children| + 1
      reads `children, `offsets, `nRows
    {
      exists k :: 0 <= k < |children| && Reached(Rows(sel, nRows))[k] && |children[k].file.records| > 1
    }

    /**
     With all children open a dataset of several files serves every read, except that without
     the extension it fails exactly if the selection reaches a file of several records. A
     dataset of one such file then fails whatever is selected.
     */
    lemma ExtensionMatters(name: string, sel: Selector, cppAvailable: bool, dense: bool)
      requires Valid() && ValidSelector(sel, nRows) && !closed && HasColumn(schema, name) && AllChildrenOpen()
      ensures |offsets| == |children| + 1
      ensures |children| != 1 ==>
                OneFailure(name, sel, cppAvailable, dense)
                == if !cppAvailable && NeedsKernels(sel) then Some(NoExtension) else None
      ensures |children| == 1 ==>
                (OneFailure(name, sel, cppAvailable, dense) == Some(NoExtension) <==>
                 !cppAvailable && |children[0].file.records| > 1)
    {
      hide Valid;
      hide RowsTrouble;
      hide Reached;
      hide Rows;
      RowsTroubleExact(Rows(sel, nRows), cppAvailable);
    }

    /**
     A read of no columns at all is answered, except that ordered rows over several files
     make it look at the first of no tables; without the extension it fails on the import.
     */
    lemma NoNames(sel: Selector, cppAvailable: bool, dense: bool, pooled: bool)
      requires Valid() && ValidSelector(sel, nRows) && !closed
      ensures ManyFailure([], sel, cppAvailable, dense, pooled) == Some(NoTables) <==>
                |children| != 1 && cppAvailable && OrderedRows(sel).Some? && OrderedRows(sel).value != []
      ensures ManyFailure([], sel, cppAvailable, dense, pooled) == Some(NoExtension) <==>
                |children| != 1 && !cppAvailable && NativeTakes(sel, dense)
      ensures ManyFailure([], sel, cppAvailable, dense, pooled) in {None, Some(NoTables), Some(NoExtension)}
      ensures |children| == 2 && nRows > 0 ==> ManyFailure([], Fancy([0]), true, dense, pooled) == Some(NoTables)
    {
    }

    /**
     `_gather_one`: for every list of files, every exposed column and every normalized
     selector, the read of the concatenated column, whatever the density gate and the
     caller's sortedness hint say, or exactly the one failure.
     */
    method GatherOne(name: string, sel: Selector, hint: Option<bool>, cppAvailable: bool, dense: bool)
      returns (r: Outcome<seq<Cell>>)
      requires Valid() && ValidSelector(sel, nRows) && nRows <= INT64_MAX
      modifies `segmentTableCache, `uniformGridRows, `uniformGridKnown
      ensures Valid() && SameTables()
      ensures segmentTableCache.Keys
           == old(segmentTableCache.Keys) + Asked([name], AsksTables([name], sel, dense), cppAvailable)
      ensures r.Failure() == old(OneFailure(name, sel, cppAvailable, dense))
      ensures r.Done? ==> IsRead(mem, Files(), name, sel, r.value)
      ensures r.Done? && SameOpen(mem, disk) && OnlyOpen(sel) ==> IsRead(disk, Files(), name, sel, r.value)
    {
      hide Valid;
      hide IsRead;
      hide TableNow;
      hide RowsTrouble;
      hide SameOpen;
      hide OnlyOpen;
      OffsetsSound();
      if closed {
        return Failed(ClosedDataset);
      }
      if !HasColumn(schema, name) {
        return Failed(UnknownColumn);
      }
      if |children| == 1 {
        r := ChildRead(name, sel, hint, cppAvailable, dense);
      } else {
        r := ReadOne(name, sel, hint, cppAvailable, dense);
      }
      if r.Done? {
        OpenReads(mem, disk, name, sel, r.value);
      }
    }

    /** The dispatch of `_gather_one` over several files (or none). */
    method ReadOne(name: string, sel: Selector, hint: Option<bool>, cppAvailable: bool, dense: bool)
      returns (cells: Outcome<seq<Cell>>)
      requires Valid() && HasColumn(schema, name) && ValidSelector(sel, nRows) && nRows <= INT64_MAX
      modifies `segmentTableCache, `uniformGridRows, `uniformGridKnown
      ensures Valid() && SameTables()
      ensures segmentTableCache.Keys
           == old(segmentTableCache.Keys) + Asked([name], NativeTakes(sel, dense), cppAvailable)
      ensures cells.Failure() == if NativeTakes(sel, dense) && cppAvailable && old(TableNow(name)).Some? then None
                                 else RowsTrouble(Rows(sel, nRows), cppAvailable)
      ensures cells.Done? ==> IsRead(mem, Files(), name, sel, cells.value)
    {
      hide Valid;
      hide IsRead;
      hide RowsTrouble;
      hide TableNow;
      if sel.Mask? {
        cells := ReadMask(name, sel.mask, cppAvailable, dense);
        return;
      }
      if sel.Scalar? {
        cells := ScalarRead(name, sel.row, cppAvailable);
        return;
      }
      var rows := OrderedRows(sel);
      if rows.Some? {
        cells := ReadOrdered(name, sel, rows.value, hint, cppAvailable);
        return;
      }
      var regions := PlanRegions(sel);
      cells := FillRegions(name, regions, cppAvailable, sel);
    }

    /** Native mask kernel if it takes the mask, else sub-masks file by file. */
    method ReadMask(name: string, mask: seq<bool>, cppAvailable: bool, dense: bool)
      returns (cells: Outcome<seq<Cell>>)
      requires Valid() && HasColumn(schema, name) && |mask| == nRows && nRows <= INT64_MAX
      modifies `segmentTableCache
      ensures Valid() && SameTables()
      ensures segmentTableCache.Keys == old(segmentTableCache.Keys) + Asked([name], nRows > 0 && dense, cppAvailable)
      ensures cells.Failure() == if nRows > 0 && dense && cppAvailable && old(TableNow(name)).Some? then None
                                 else RowsTrouble(Rows(Mask(mask), nRows), cppAvailable)
      ensures cells.Done? ==> IsRead(mem, Files(), name, Mask(mask), cells.value)
    {
      hide Valid;
      hide IsRead;
      hide TableNow;
      hide RowsTrouble;
      assert [name][0] == name;
      assert old(AllTabled([name])) <==> old(TableNow(name)).Some?;
      var native := MaskNative([name], mask, cppAvailable, dense);
      if native.value.Some? {
        assert name in [name];
        return Done(native.value.value[name]);
      }
      var regions := PlanRegions(Mask(mask));
      cells := FillRegions(name, regions, cppAvailable, Mask(mask));
    }

    method ReadOrdered(name: string, ghost sel: Selector, rows: seq<int>, hint: Option<bool>, cppAvailable: bool)
      returns (cells: Outcome<seq<Cell>>)
      requires Valid() && HasColumn(schema, name) && ValidSelector(sel, nRows) && nRows <= INT64_MAX
      requires rows == Rows(sel, nRows)
      modifies `segmentTableCache, `uniformGridRows, `uniformGridKnown
      ensures Valid() && SameTables()
      ensures segmentTableCache.Keys == old(segmentTableCache.Keys) + Asked([name], rows != [], cppAvailable)
      ensures cells.Failure() == if rows != [] && cppAvailable && old(TableNow(name)).Some? then None
                                 else RowsTrouble(rows, cppAvailable)
      ensures cells.Done? ==> IsRead(mem, Files(), name, sel, cells.value)
    {
      hide Valid;
      hide TableNow;
      hide RowsTrouble;
      RowsInRange(sel, nRows);
      ColumnRows(name);
      cells := FancyOne(name, rows, hint, cppAvailable);
    }

    /** `_gather_many`: the same for several columns of one selector. */
    method GatherMany(names: seq<string>, sel: Selector, cppAvailable: bool, dense: bool, pooled: bool)
      returns (r: Outcome<map<string, seq<Cell>>>)
      requires Valid() && ValidSelector(sel, nRows) && nRows <= INT64_MAX
      modifies `segmentTableCache, `uniformGridRows, `uniformGridKnown
      ensures Valid() && SameTables()
      ensures segmentTableCache.Keys
           == old(segmentTableCache.Keys) + Asked(names, AsksTables(names, sel, dense), cppAvailable)
      ensures r.Failure() == old(ManyFailure(names, sel, cppAvailable, dense, pooled))
      ensures r.Done? ==> Answers(mem, Files(), r.value, names, sel)
      ensures r.Done? && SameOpen(mem, disk) && OnlyOpen(sel) ==> Answers(disk, Files(), r.value, names, sel)
    {
      hide Valid;
      hide Answers;
      hide AllTabled;
      hide RowsTrouble;
      hide SameOpen;
      hide OnlyOpen;
      OffsetsSound();
      if closed {
        return Failed(ClosedDataset);
      }
      if !AllExposed(names) {
        return Failed(UnknownColumn);
      }
      if |children| == 1 {
        r := ChildReadMany(names, sel, cppAvailable, dense, pooled);
      } else {
        r := ReadMany(names, sel, cppAvailable, dense, pooled);
      }
      if r.Done? {
        OpenAnswers(mem, disk, names, sel, r.value);
      }
    }

    /** The dispatch of `_gather_many` over several files (or none). */
    method ReadMany(names: seq<string>, sel: Selector, cppAvailable: bool, dense: bool, ghost pooled: bool)
      returns (result: Outcome<map<string, seq<Cell>>>)
      requires Valid() && !closed && AllExposed(names) && ValidSelector(sel, nRows) && nRows <= INT64_MAX
      requires |children| != 1
      modifies `segmentTableCache, `uniformGridRows, `uniformGridKnown
      ensures Valid() && SameTables()
      ensures segmentTableCache.Keys
           == old(segmentTableCache.Keys) + Asked(names, NativeTakes(sel, dense), cppAvailable)
      ensures result.Failure() == old(ManyFailure(names, sel, cppAvailable, dense, pooled))
      ensures result.Done? ==> Answers(mem, Files(), result.value, names, sel)
    {
      hide Valid;
      hide Answers;
      hide RowsTrouble;
      hide AllTabled;
      hide PrefixSums;
      hide Rows;
      if sel.Mask? {
        var native := MaskNative(names, sel.mask, cppAvailable, dense);
        if native.Failed? {
          return Failed(native.error);
        }
        if native.value.Some? {
          return Done(native.value.value);
        }
      }
      var rows := OrderedRows(sel);
      if rows.Some? {
        RowsInRange(sel, nRows);
        NothingReached(cppAvailable);
        result := FancyMany(names, rows.value, cppAvailable);
        if result.Done? {
          OffsetsTotal(Files(), offsets);
          FancyAnswers(mem, Files(), result.value, names, rows.value, sel, nRows);
        }
        return;
      }
      result := ReadEach(names, sel, cppAvailable);
    }

    /** `_gather_many` of the only child, by the reader's own routes. */
    method ChildReadMany(names: seq<string>, sel: Selector, cppAvailable: bool, dense: bool, pooled: bool)
      returns (result: Outcome<map<string, seq<Cell>>>)
      requires Valid() && AllExposed(names) && ValidSelector(sel, nRows) && |children| == 1 && nRows <= INT64_MAX
      ensures HasAll(children[0].file, names) && RowCount(children[0].file) == nRows
      ensures result.Failure()
           == ManyTrouble(children[0].file, names, sel, children[0].closed, cppAvailable, dense, pooled)
      ensures result.Done? ==> Answers(mem, Files(), result.value, names, sel)
    {
      hide Valid;
      hide ManyTrouble;
      hide ReadOf;
      hide IsRead;
      ExposedByChild(names);
      var child := children[0];
      result := GatherColumns(mem, child.file, names, sel, child.closed, cppAvailable, dense, pooled);
      if result.Done? {
        forall name | name in result.value ensures IsRead(mem, Files(), name, sel, result.value[name]) {
          ChildReadIs(name, sel, result.value[name]);
        }
      }
    }

    lemma ChildReadIs(name: string, sel: Selector, cells: seq<Cell>)
      requires Valid() && |children| == 1 && RowCount(children[0].file) == nRows && ValidSelector(sel, nRows)
      requires ReadOf(mem, children[0].file, name, sel, cells)
      ensures IsRead(mem, Files(), name, sel, cells)
    {
      FlatSingle(ColumnCells(mem, Files()[0], name));
      assert FileColumns(mem, Files(), name) == [ColumnCells(mem, Files()[0], name)];
    }

    /** One row, or the regions of a contiguous selector, column by column. */
    method ReadEach(names: seq<string>, sel: Selector, cppAvailable: bool)
      returns (result: Outcome<map<string, seq<Cell>>>)
      requires Valid() && ValidSelector(sel, nRows) && nRows <= INT64_MAX
      requires AllExposed(names) && OrderedRows(sel) == None
      ensures result.Failure() == if names == [] then None else RowsTrouble(Rows(sel, nRows), cppAvailable)
      ensures result.Done? ==> Answers(mem, Files(), result.value, names, sel)
    {
      var regions: seq<Region> := [];
      if !sel.Scalar? {
        regions := PlanRegions(sel);
      }
      var answer: map<string, seq<Cell>> := map[];
      for i := 0 to |names|
        invariant i > 0 ==> RowsTrouble(Rows(sel, nRows), cppAvailable).None?
        invariant Answers(mem, Files(), answer, names[..i], sel)
      {
        var cells;
        if sel.Scalar? {
          cells := ScalarRead(names[i], sel.row, cppAvailable);
        } else {
          cells := FillRegions(names[i], regions, cppAvailable, sel);
        }
        if cells.Failed? {
          return Failed(cells.error);
        }
        AnswersNext(mem, Files(), answer, names, i, sel, cells.value);
        answer := answer[names[i] := cells.value];
      }
      assert names[..|names|] == names;
      return Done(answer);
    }

    // ---- after a close ----

    /** The cells a read returns are settled by the bytes of the open children. */
    ghost predicate Settled(name: string, sel: Selector)
      reads this, children
    {
      forall a: Memory, b: Memory, cells ::
        SameOpen(a, b) && IsRead(a, Files(), name, sel, cells) ==> IsRead(b, Files(), name, sel, cells)
    }

    /** No block of a closed child lies over a block of an open one. */
    ghost predicate Apart()
      reads `children, children
    {
      forall j, k, address :: 0 <= j < |children| && 0 <= k < |children| ==>
        !children[j].closed && children[k].closed && InBlocks(Files()[j], address) ==> !InBlocks(Files()[k], address)
    }

    /** Reads are right whatever becomes of closed readers' mappings exactly if they reach none of them. */
    lemma SettledIffOpen(name: string, sel: Selector)
      requires Valid() && HasColumn(schema, name) && ValidSelector(sel, nRows) && Apart()
      ensures |offsets| == |children| + 1
      ensures Settled(name, sel) <==> OnlyOpen(sel)
    {
      hide Valid;
      hide IsRead;
      hide Rows;
      hide SameOpen;
      hide Apart;
      OffsetsSound();
      if OnlyOpen(sel) {
        forall a: Memory, b: Memory, cells | SameOpen(a, b) && IsRead(a, Files(), name, sel, cells)
          ensures IsRead(b, Files(), name, sel, cells)
        {
          OpenReads(a, b, name, sel, cells);
        }
      } else {
        var k :| 0 <= k < |children| && Reached(Rows(sel, nRows))[k] && children[k].closed;
        var i :| 0 <= i < |Rows(sel, nRows)| && offsets[k] <= Rows(sel, nRows)[i] < offsets[k + 1];
        Unsettled(name, sel, k, i);
      }
    }

    lemma ServedByTable(name: string, row: int)
      requires Valid() && !closed && |children| > 1 && HasColumn(schema, name) && TableNow(name).Some?
      requires 0 <= row < nRows
      ensures OneFailure(name, Fancy([row]), true, true) == None && AsksTables([name], Fancy([row]), true)
    {
      hide Valid;
      hide TableNow;
    }

    /** Row `local` of child `k`, as a global row. */
    lemma GlobalRow(k: nat, local: nat)
      requires Valid() && k < |children| && local < RowCount(children[k].file)
      ensures |offsets| == |children| + 1 && offsets[k] <= offsets[k] + local < offsets[k + 1]
      ensures 0 <= offsets[k] + local < nRows
    {
      OffsetsSound();
      assert offsets[k + 1] == offsets[k] + FileRows(Files())[k];
      assert offsets[k + 1] <= offsets[|children|];
    }

    /** A single row of a closed child is refused. */
    lemma SingleBehindClose(name: string, k: nat, local: nat)
      requires Valid() && !closed && |children| > 1 && HasColumn(schema, name)
      requires k < |children| && local < RowCount(children[k].file) && children[k].closed
      ensures |offsets| == |children| + 1 && 0 <= offsets[k] + local < nRows
      ensures OneFailure(name, Scalar(offsets[k] + local), true, true) == Some(ClosedReader)
    {
      hide Valid;
      hide RowsTrouble;
      GlobalRow(k, local);
      RowTrouble(offsets[k] + local, k, true);
    }

    /**
     A list of the same row is not, if a table is remembered: the native pass asks no child,
     although a fresh stitch would give no table.
     */
    lemma ListedBehindClose(name: string, k: nat, local: nat)
      requires Valid() && !closed && |children| > 1 && name in segmentTableCache && segmentTableCache[name].Some?
      requires k < |children| && local < RowCount(children[k].file) && children[k].closed
      ensures HasColumn(schema, name) && Fresh(name) == None
      ensures |offsets| == |children| + 1 && 0 <= offsets[k] + local < nRows
      ensures OneFailure(name, Fancy([offsets[k] + local]), true, true) == None
      ensures !OnlyOpen(Fancy([offsets[k] + local]))
    {
      hide Valid;
      hide RowsTrouble;
      GlobalRow(k, local);
      MemoFresh(name);
      var row := offsets[k] + local;
      assert [row][0] == row && Reached([row])[k];
    }

    /** Row `row` lies in a closed child: some address space shows all open children alike, and the row differently. */
    lemma ClosedCell(m: Memory, name: string, k: nat, row: int) returns (other: Memory)
      requires Valid() && HasColumn(schema, name) && Apart()
      requires k < |children| && children[k].closed && offsets[k] <= row < offsets[k + 1]
      ensures SameOpen(m, other) && 0 <= row < nRows
      ensures SharedColumn(Files(), name, DtypeOf(schema, name))
      ensures |Flat(FileColumns(m, Files(), name))| == |Flat(FileColumns(other, Files(), name))| == nRows
      ensures Flat(FileColumns(m, Files(), name))[row] != Flat(FileColumns(other, Files(), name))[row]
    {
      hide ColumnCells;
      OffsetsSound();
      ColumnRowsIn(m, name);
      var at;
      other, at := StaleCell(m, Files()[k], name, row - offsets[k]);
      ColumnRowsIn(other, name);
      FlatAt(FileColumns(m, Files(), name), offsets, k, row - offsets[k]);
      FlatAt(FileColumns(other, Files(), name), offsets, k, row - offsets[k]);
    }

    /** So no answer that includes the row is settled. */
    lemma Unsettled(name: string, sel: Selector, k: nat, i: nat)
      requires Valid() && HasColumn(schema, name) && ValidSelector(sel, nRows) && Apart()
      requires k < |children| && children[k].closed && i < |Rows(sel, nRows)|
      requires offsets[k] <= Rows(sel, nRows)[i] < offsets[k + 1]
      ensures !Settled(name, sel)
    {
      hide Valid;
      hide SameOpen;
      hide Apart;
      hide FileColumns;
      hide Flat;
      hide Rows;
      OffsetsSound();
      var other := ClosedCell(mem, name, k, Rows(sel, nRows)[i]);
      RowsInRange(sel, nRows);
      var cells := Read(Flat(FileColumns(mem, Files(), name)), sel);
      assert IsRead(mem, Files(), name, sel, cells);
      assert Read(Flat(FileColumns(other, Files(), name)), sel)[i] != cells[i];
      assert !IsRead(other, Files(), name, sel, cells);
    }
  }

  /** A native read of one row remembers the column's table. */
  method FirstRead(d: Dataset, name: string, row: int) returns (cells: Outcome<seq<Cell>>)
    requires d.Valid() && !d.closed && d.nRows <= INT64_MAX && |d.children| > 1 && HasColumn(d.schema, name)
    requires 0 <= row < d.nRows && d.TableNow(name).Some?
    modifies d`segmentTableCache, d`uniformGridRows, d`uniformGridKnown
    ensures d.Valid() && cells.Done? && name in d.segmentTableCache && d.segmentTableCache[name].Some?
  {
    hide Dataset.Valid;
    hide Dataset.OneFailure;
    hide Dataset.OnlyOpen;
    hide Dataset.Fresh;
    hide IsRead;
    d.ServedByTable(name, row);
    cells := d.GatherOne(name, Fancy([row]), None, true, true);
    assert name in [name];
  }

  /** Behind the close: the row alone is refused, and read as a list. */
  method SecondReads(d: Dataset, k: nat, name: string, local: nat)
    returns (listed: Outcome<seq<Cell>>, single: Outcome<seq<Cell>>)
    requires d.Valid() && !d.closed && d.nRows <= INT64_MAX && |d.children| > 1
    requires k < |d.children| && local < RowCount(d.children[k].file) && d.children[k].closed
    requires name in d.segmentTableCache && d.segmentTableCache[name].Some?
    modifies d`segmentTableCache, d`uniformGridRows, d`uniformGridKnown
    ensures d.Valid() && listed.Done? && single == Failed(ClosedReader)
  {
    hide Dataset.Valid;
    hide Dataset.OneFailure;
    hide Dataset.OnlyOpen;
    hide Dataset.SameTables;
    hide IsRead;
    d.ListedBehindClose(name, k, local);
    listed := d.GatherOne(name, Fancy([d.offsets[k] + local]), None, true, true);
    d.SingleBehindClose(name, k, local);
    single := d.GatherOne(name, Scalar(d.offsets[k] + local), None, true, true);
  }

  /**
   Read, close, read. The first read remembers the column's table; then one of its files is
   closed by its owner. The same row is refused when asked for alone and read when asked for
   as a list, through the remembered table, from a mapping that is no longer kept.
   */
  method ReadBehindClose(d: Dataset, k: nat, name: string, local: nat)
    returns (before: Outcome<seq<Cell>>, listed: Outcome<seq<Cell>>, single: Outcome<seq<Cell>>)
    requires d.Valid() && !d.closed && d.nRows <= INT64_MAX && |d.children| > 1 && HasColumn(d.schema, name)
    requires k < |d.children| && local < RowCount(d.children[k].file) && d.TableNow(name).Some?
    modifies {d.children[k]}`closed, d`segmentTableCache, d`uniformGridRows, d`uniformGridKnown
    ensures d.Valid() && before.Done? && listed.Done? && single == Failed(ClosedReader)
  {
    hide Dataset.Valid;
    hide Dataset.TableNow;
    d.GlobalRow(k, local);
    before := FirstRead(d, name, d.offsets[k] + local);
    label Remembered:
    d.children[k].Close();
    d.ClosingKeepsValid@Remembered();
    listed, single := SecondReads(d, k, name, local);
  }

  /** Selectors with the same rows have the same answers. */
  lemma FancyAnswers(mem: Memory, files: seq<File>, result: map<string, seq<Cell>>, names: seq<string>,
                     rows: seq<int>, sel: Selector, n: nat)
    requires Answers(mem, files, result, names, Fancy(rows))
    requires ValidSelector(sel, n) && rows == Rows(sel, n)
    requires PrefixTotal(files) == n
    ensures Answers(mem, files, result, names, sel)
  {
    forall name | name in result ensures IsRead(mem, files, name, sel, result[name]) {
      assert IsRead(mem, files, name, Fancy(rows), result[name]);
      ColumnTotal(mem, files, name);
    }
  }

  /** The rows of all files together. */
  ghost function PrefixTotal(files: seq<File>): nat {
    if files == [] then 0 else PrefixTotal(files[..|files| - 1]) + RowCount(files[|files| - 1])
  }

  lemma {:induction false} ColumnTotal(mem: Memory, files: seq<File>, name: string)
    requires forall k :: 0 <= k < |files| ==> HasColumn(files[k].columns, name)
    ensures |Flat(FileColumns(mem, files, name))| == PrefixTotal(files)
  {
    if files != [] {
      var n := |files| - 1;
      ColumnTotal(mem, files[..n], name);
      ColumnLength(mem, files[n], name);
      assert FileColumns(mem, files, name)[..n] == FileColumns(mem, files[..n], name);
    }
  }

  lemma {:induction false} OffsetsTotal(files: seq<File>, offsets: seq<int>)
    requires PrefixSums(offsets, FileRows(files))
    ensures offsets[|files|] == PrefixTotal(files)
  {
    if files != [] {
      var n := |files| - 1;
      assert FileRows(files)[..n] == FileRows(files[..n]);
      assert PrefixSums(offsets[..n + 1], FileRows(files[..n]));
      OffsetsTotal(files[..n], offsets[..n + 1]);
      assert offsets[n + 1] == offsets[n] + FileRows(files)[n];
    }
  }

  lemma StitchNothing(name: string, itemsize: nat)
    ensures StitchUpTo([], name, itemsize) == Some(Table([0], []))
  {
  }

  /** One file more. */
  lemma StitchNext(files: seq<File>, name: string, itemsize: nat, k: nat)
    requires k < |files| && forall i :: 0 <= i < |files| ==> HasColumn(files[i].columns, name)
    ensures var before := StitchUpTo(files[..k], name, itemsize);
            var local := SegmentTableOf(files[k], name);
            StitchUpTo(files[..k + 1], name, itemsize) ==
            if before.None? || RowCount(files[k]) == 0 then before
            else if local.None? then None
            else Some(Behind(before.value, local.value, itemsize))
  {
    hide Behind;
    hide RowCount;
    assert files[..k + 1][..k] == files[..k] && files[..k + 1][k] == files[k];
  }

  lemma StitchNoneStays(files: seq<File>, name: string, itemsize: nat, k: nat)
    requires k <= |files| && forall i :: 0 <= i < |files| ==> HasColumn(files[i].columns, name)
    requires StitchUpTo(files[..k], name, itemsize) == None
    ensures StitchUpTo(files, name, itemsize) == None
    decreases |files|
  {
    if k < |files| {
      assert files[..|files| - 1][..k] == files[..k];
      StitchNoneStays(files[..|files| - 1], name, itemsize, k);
    } else {
      assert files[..k] == files;
    }
  }

  /**
   A whole life: any appends, refused ones included, then close. Every reader any of them
   opened ends up closed; the frame says that no reader from outside is touched.
   */
  method GrowThenClose(d: Dataset, batches: seq<seq<Source>>) returns (ghost everOpened: set<Reader>)
    requires d.Valid() && !d.closed && d.openedHere == {}
    modifies d
    ensures d.Valid() && d.closed
    ensures fresh(everOpened) && d.openedHere <= everOpened
    ensures forall r :: r in everOpened ==> r.closed
  {
    everOpened := {};
    for i := 0 to |batches|
      invariant d.Valid() && !d.closed
      invariant fresh(everOpened) && d.openedHere <= everOpened
      invariant forall r :: r in everOpened ==> r in d.openedHere || r.closed
    {
      var ok;
      ghost var added, flags, opening;
      ok, added, flags, opening := d.Append(batches[i]);
      everOpened := everOpened + opening;
    }
    d.Close();
  }
}
