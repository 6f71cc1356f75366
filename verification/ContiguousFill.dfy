/**
 Contiguous reads. Every region of the output is either one run of the parallel-copy
 kernel, taken straight from a file's mapping, or a side job that copies a strided view
 or a file's own gather. The output is a byte buffer; its elements are `width` bytes.
 */
module ContiguousFill {
  import opened Sequences
  import opened MagicDivide
  import opened Schedule
  import opened Segments
  import opened MaskKernel
  import opened Selectors
  import opened Decompose
  import opened FillJobs
  import opened CopyRuns
  import opened Files
  import opened FileReads

  // ---- cells and bytes ----

  predicate Width(cells: seq<Cell>, width: nat) {
    forall k :: 0 <= k < |cells| ==> |cells[k]| == width
  }

  /** The `n` elements of a byte buffer. */
  function Elements(bytes: seq<Byte>, width: nat, n: nat): seq<Cell>
    requires |bytes| == n * width
  {
    seq(n, k requires 0 <= k < n => Element(bytes, width, n, k))
  }

  function Element(bytes: seq<Byte>, width: nat, n: nat, k: nat): Cell
    requires |bytes| == n * width && k < n
  {
    MulMonotone(k + 1, n, width);
    MulAdd(k, 1, width);
    bytes[k * width..k * width + width]
  }

  lemma {:induction false} FlatWidth(cells: seq<Cell>, width: nat)
    requires Width(cells, width)
    ensures |Flat(cells)| == |cells| * width
  {
    if cells != [] {
      FlatWidth(cells[..|cells| - 1], width);
      MulAdd(|cells| - 1, 1, width);
    }
  }

  /** Flattening cells of one width loses nothing. */
  lemma ElementsOfFlat(cells: seq<Cell>, width: nat)
    requires Width(cells, width)
    ensures |Flat(cells)| == |cells| * width
    ensures Elements(Flat(cells), width, |cells|) == cells
  {
    FlatWidth(cells, width);
    forall k | 0 <= k < |cells| ensures Element(Flat(cells), width, |cells|, k) == cells[k] {
      ElementOfFlat(cells, width, k);
    }
  }

  lemma {:induction false} ElementOfFlat(cells: seq<Cell>, width: nat, k: nat)
    requires Width(cells, width) && k < |cells|
    ensures 0 <= k * width <= k * width + width <= |Flat(cells)|
    ensures Flat(cells)[k * width..k * width + width] == cells[k]
  {
    var n := |cells| - 1;
    FlatWidth(cells[..n], width);
    MulAdd(n, 1, width);
    if k < n {
      ElementOfFlat(cells[..n], width, k);
      assert Flat(cells)[k * width..k * width + width] == Flat(cells[..n])[k * width..k * width + width];
    }
  }

  lemma ColumnWidth(mem: Memory, f: File, name: string)
    requires HasColumn(f.columns, name)
    ensures Width(ColumnCells(mem, f, name), DtypeOf(f.columns, name).itemsize)
  {
    var c := Find(f.columns, name).value;
    FlatOfWidth(AllRecordCells(mem, f, c), f.columns[c].dtype.itemsize);
  }

  lemma {:induction false} FlatOfWidth(parts: seq<seq<Cell>>, width: nat)
    requires forall r :: 0 <= r < |parts| ==> Width(parts[r], width)
    ensures Width(Flat(parts), width)
  {
    if parts != [] {
      FlatOfWidth(parts[..|parts| - 1], width);
    }
  }

  // ---- views as bytes ----

  /** `C_CONTIGUOUS`: cells back to back, or at most one cell. */
  predicate ContiguousView(v: View, width: nat) { v.stride == width || v.count <= 1 }

  /** A contiguous view's bytes are its cells' bytes. */
  lemma {:induction false} ViewBytes(mem: Memory, address: int, count: nat, width: nat)
    ensures Load(mem, address, count * width) == Flat(ViewCells(mem, View(address, count, width), width))
  {
    if count == 0 {
      assert ViewCells(mem, View(address, count, width), width) == [];
    } else {
      var v := View(address, count, width);
      var n := count - 1;
      ViewBytes(mem, address, n, width);
      MulAdd(n, 1, width);
      assert ViewCells(mem, v, width)[..n] == ViewCells(mem, View(address, n, width), width);
      assert Load(mem, address, count * width)
          == Load(mem, address, n * width) + Load(mem, address + n * width, width);
    }
  }

  lemma ContiguousBytes(mem: Memory, v: View, width: nat)
    requires ContiguousView(v, width)
    ensures Load(mem, v.address, v.count * width) == Flat(ViewCells(mem, v, width))
  {
    ViewBytes(mem, v.address, v.count, width);
    if v.count == 1 {
      assert v.address + 0 * v.stride == v.address + 0 * width;
      assert ViewCells(mem, v, width) == ViewCells(mem, View(v.address, v.count, width), width);
    }
  }

  // ---- regions as blocks of bytes ----

  /** Read a part from its own file. */
  function FileRead(mem: Memory, files: seq<File>, name: string, p: Part): seq<Cell>
    requires p.file < |files| && HasColumn(files[p.file].columns, name)
    requires ValidSelector(p.sub, RowCount(files[p.file]))
  {
    ColumnLength(mem, files[p.file], name);
    Read(ColumnCells(mem, files[p.file], name), p.sub)
  }

  /** What a region has to end up as, whichever way it is filled. */
  function RegionJob(mem: Memory, files: seq<File>, name: string, width: nat, r: Region): FillJob<Byte>
    requires ValidPart(r.part, FileRows(files)) && HasColumn(files[r.part.file].columns, name)
  {
    FillJob(r.lo * width, Flat(FileRead(mem, files, name, r.part)))
  }

  datatype Route = ByKernel(run: Run) | ByJob(job: FillJob<Byte>)

  /** A run that puts a job's bytes where the job would. */
  ghost predicate RunServes(mem: Memory, run: Run, job: FillJob<Byte>) {
    run.dst == job.at && run.length == |job.data| && Load(mem, run.src, run.length) == job.data
  }

  /** A contiguous view is a run of the kernel. */
  lemma KernelServes(mem: Memory, v: View, width: nat, lo: nat, cells: seq<Cell>)
    requires ContiguousView(v, width) && cells == ViewCells(mem, v, width)
    ensures v.count * width >= 0
    ensures RunServes(mem, Run(v.address, lo * width, v.count * width), FillJob(lo * width, Flat(cells)))
  {
    ContiguousBytes(mem, v, width);
  }

  /**
   One pass of the loop in `_fill_contiguous_columns`: kernel run, view copy, or gather. A
   closed file and a file of several records give no view; their gather may raise.
   */
  method RouteRegion(mem: Memory, files: seq<File>, name: string, width: nat, r: Region, closed: bool,
                     cppAvailable: bool)
    returns (route: Outcome<Route>)
    requires ValidPart(r.part, FileRows(files)) && HasColumn(files[r.part.file].columns, name)
    requires DtypeOf(files[r.part.file].columns, name).itemsize == width
    requires r.hi == r.lo + PartLength(r.part, FileRows(files)) && RowCount(files[r.part.file]) <= INT64_MAX
    ensures route.Failure() == Trouble(files[r.part.file], closed, cppAvailable)
    ensures route.Done? ==> match route.value
              case ByKernel(run) => RunServes(mem, run, RegionJob(mem, files, name, width, r))
              case ByJob(job) => job == RegionJob(mem, files, name, width, r)
  {
    var f := files[r.part.file];
    if closed || ViewOf(f, name, r.part.sub).None? {
      var gathered := GatherChild(mem, f, name, r.part.sub, None, true, closed, cppAvailable);
      if gathered.Failed? {
        return Failed(gathered.error);
      }
      return Done(ByJob(FillJob(r.lo * width, Flat(gathered.value))));
    }
    var v := ViewOf(f, name, r.part.sub).value;
    ViewCorrect(mem, f, name, r.part.sub);
    var cells := ViewCells(mem, v, width);
    assert cells == FileRead(mem, files, name, r.part);
    if cppAvailable && ContiguousView(v, width) {
      KernelServes(mem, v, width, r.lo, cells);
      assert v.count == r.hi - r.lo;
      return Done(ByKernel(Run(v.address, r.lo * width, (r.hi - r.lo) * width)));
    }
    return Done(ByJob(FillJob(r.lo * width, Flat(cells))));
  }

  function RegionJobs(mem: Memory, files: seq<File>, name: string, width: nat, regions: seq<Region>): seq<FillJob<Byte>>
    requires RegionsTile(regions, FileRows(files))
    requires forall k :: 0 <= k < |files| ==> HasColumn(files[k].columns, name)
  {
    seq(|regions|, k requires 0 <= k < |regions| =>
      assert RegionAt(regions, k, FileRows(files)); RegionJob(mem, files, name, width, regions[k]))
  }

  function Scale(bounds: seq<int>, width: nat): seq<int> {
    seq(|bounds|, k requires 0 <= k < |bounds| => bounds[k] * width)
  }

  lemma RegionJobsConsecutive(mem: Memory, files: seq<File>, name: string, dtype: Dtype, regions: seq<Region>)
    requires RegionsTile(regions, FileRows(files)) && SharedColumn(files, name, dtype)
    ensures Consecutive(RegionJobs(mem, files, name, dtype.itemsize, regions),
                        Scale(RegionBounds(regions), dtype.itemsize))
  {
    var width := dtype.itemsize;
    var jobs := RegionJobs(mem, files, name, width, regions);
    var bounds := Scale(RegionBounds(regions), width);
    forall k | 0 <= k < |regions| ensures jobs[k].at == bounds[k] && JobEnd(jobs[k]) == bounds[k + 1] {
      assert RegionAt(regions, k, FileRows(files));
      RegionBytes(mem, files, name, dtype, regions[k]);
    }
  }

  lemma RegionBytes(mem: Memory, files: seq<File>, name: string, dtype: Dtype, r: Region)
    requires SharedColumn(files, name, dtype) && ValidPart(r.part, FileRows(files))
    requires r.hi == r.lo + PartLength(r.part, FileRows(files))
    ensures JobEnd(RegionJob(mem, files, name, dtype.itemsize, r)) == r.hi * dtype.itemsize
  {
    PartWidth(mem, files, name, dtype, r.part);
    FlatWidth(FileRead(mem, files, name, r.part), dtype.itemsize);
    MulAdd(r.lo, r.hi - r.lo, dtype.itemsize);
  }

  lemma PartWidth(mem: Memory, files: seq<File>, name: string, dtype: Dtype, p: Part)
    requires SharedColumn(files, name, dtype) && ValidPart(p, FileRows(files))
    ensures Width(FileRead(mem, files, name, p), dtype.itemsize)
    ensures |FileRead(mem, files, name, p)| == PartLength(p, FileRows(files))
  {
    ColumnLength(mem, files[p.file], name);
    ColumnWidth(mem, files[p.file], name);
    ReadWidth(ColumnCells(mem, files[p.file], name), p.sub, dtype.itemsize);
  }

  lemma ReadWidth(column: seq<Cell>, sub: Selector, width: nat)
    requires Width(column, width) && ValidSelector(sub, |column|)
    ensures Width(Read(column, sub), width) && |Read(column, sub)| == |Rows(sub, |column|)|
  {
    RowsInRange(sub, |column|);
    PickWidth(column, Rows(sub, |column|), width);
  }

  lemma PickWidth(column: seq<Cell>, rows: seq<int>, width: nat)
    requires Width(column, width) && InRange(rows, |column|)
    ensures Width(Pick(column, rows), width)
  {
  }

  // ---- splitting the regions between the kernel and the side jobs ----

  /** `picked` lists some of the jobs, each once, all below `upTo`. */
  ghost predicate Sublist(picked: seq<nat>, upTo: nat) {
    && (forall i :: 0 <= i < |picked| ==> picked[i] < upTo)
    && forall i, j :: 0 <= i < j < |picked| ==> picked[i] < picked[j]
  }

  lemma SublistNext(picked: seq<nat>, upTo: nat)
    requires Sublist(picked, upTo)
    ensures Sublist(picked, upTo + 1) && Sublist(picked + [upTo], upTo + 1)
  {
  }

  /** Every job below `upTo` is in exactly one of the two lists. */
  ghost predicate SplitInTwo(a: seq<nat>, b: seq<nat>, upTo: nat) {
    && Sublist(a, upTo) && Sublist(b, upTo)
    && forall k: nat :: k < upTo ==> (k in a) != (k in b)
  }

  lemma SplitLeft(a: seq<nat>, b: seq<nat>, upTo: nat)
    requires SplitInTwo(a, b, upTo)
    ensures SplitInTwo(a + [upTo], b, upTo + 1)
    ensures SplitInTwo(a, b + [upTo], upTo + 1)
  {
    SublistNext(a, upTo);
    SublistNext(b, upTo);
    assert upTo !in a && upTo !in b;
  }

  ghost predicate JobsPicked(jobs: seq<FillJob<Byte>>, all: seq<FillJob<Byte>>, picked: seq<nat>) {
    |jobs| == |picked| && forall i :: 0 <= i < |jobs| ==> picked[i] < |all| && jobs[i] == all[picked[i]]
  }

  ghost predicate RunsPicked(mem: Memory, runs: seq<Run>, all: seq<FillJob<Byte>>, picked: seq<nat>) {
    |runs| == |picked| && forall i :: 0 <= i < |runs| ==> picked[i] < |all| && RunServes(mem, runs[i], all[picked[i]])
  }

  lemma PickedJobsValid(jobs: seq<FillJob<Byte>>, all: seq<FillJob<Byte>>, picked: seq<nat>, size: int)
    requires ValidJobs(all, size) && JobsPicked(jobs, all, picked) && Sublist(picked, |all|)
    ensures ValidJobs(jobs, size)
  {
    forall i, j | 0 <= i < |jobs| && 0 <= j < |jobs| && i != j
      ensures JobEnd(jobs[i]) <= jobs[j].at || JobEnd(jobs[j]) <= jobs[i].at
    {
      assert picked[i] != picked[j];
    }
  }

  lemma PickedRunsValid(mem: Memory, runs: seq<Run>, all: seq<FillJob<Byte>>, picked: seq<nat>, size: int)
    requires ValidJobs(all, size) && RunsPicked(mem, runs, all, picked) && Sublist(picked, |all|)
    ensures ValidRuns(runs, size)
  {
    forall r, q | 0 <= r < q < |runs|
      ensures runs[r].dst + runs[r].length <= runs[q].dst || runs[q].dst + runs[q].length <= runs[r].dst
    {
      assert picked[r] != picked[q];
      assert RunServes(mem, runs[r], all[picked[r]]) && RunServes(mem, runs[q], all[picked[q]]);
    }
    forall r | 0 <= r < |runs| ensures 0 <= runs[r].dst && runs[r].dst + runs[r].length <= size {
      assert RunServes(mem, runs[r], all[picked[r]]);
    }
  }

  /** A copied run has done its job. */
  lemma RunDone(mem: Memory, run: Run, job: FillJob<Byte>, out: seq<Byte>)
    requires RunServes(mem, run, job) && run.dst + run.length <= |out| && RunCopied(mem, run, out)
    ensures JobDone(job, out)
  {
    forall k | 0 <= k < |job.data| ensures out[job.at..JobEnd(job)][k] == job.data[k] {
      assert out[job.at + k] == mem(run.src + k) == Load(mem, run.src, run.length)[k];
    }
  }

  /** After the kernel and then the side jobs, every region is filled. */
  lemma BothPhases(mem: Memory, all: seq<FillJob<Byte>>, runs: seq<Run>, jobs: seq<FillJob<Byte>>,
                   a: seq<nat>, b: seq<nat>, before: seq<Byte>, middle: seq<Byte>, after: seq<Byte>)
    requires ValidJobs(all, |before|) && SplitInTwo(a, b, |all|)
    requires RunsPicked(mem, runs, all, a) && JobsPicked(jobs, all, b)
    requires RunsCopied(mem, runs, before, middle) && JobsFilled(jobs, middle, after)
    ensures forall k :: 0 <= k < |all| ==> JobDone(all[k], after)
  {
    forall k | 0 <= k < |all| ensures JobDone(all[k], after) {
      if k as nat in b {
        var i :| 0 <= i < |b| && b[i] == k;
        assert JobDone(jobs[i], after);
      } else {
        var i :| 0 <= i < |a| && a[i] == k;
        assert RunServes(mem, runs[i], all[k]) && RunCopied(mem, runs[i], middle);
        RunDone(mem, runs[i], all[k], middle);
        KeptByJobs(all, jobs, b, k, middle, after);
      }
    }
  }

  lemma KeptByJobs(all: seq<FillJob<Byte>>, jobs: seq<FillJob<Byte>>, picked: seq<nat>, k: nat,
                   middle: seq<Byte>, after: seq<Byte>)
    requires ValidJobs(all, |middle|) && JobsPicked(jobs, all, picked) && k < |all| && k !in picked
    requires JobsFilled(jobs, middle, after) && JobDone(all[k], middle)
    ensures JobDone(all[k], after)
  {
    forall pos | all[k].at <= pos < JobEnd(all[k]) ensures after[pos] == middle[pos] {
      forall j | 0 <= j < |jobs| ensures !(jobs[j].at <= pos < JobEnd(jobs[j])) {
        assert picked[j] != k && jobs[j] == all[picked[j]];
      }
      assert OutsideJobs(jobs, pos);
    }
    assert after[all[k].at..JobEnd(all[k])] == middle[all[k].at..JobEnd(all[k])];
  }

  /** What the loop over the regions has sorted out so far. */
  ghost predicate Planned(mem: Memory, all: seq<FillJob<Byte>>, runs: seq<Run>, jobs: seq<FillJob<Byte>>,
                          a: seq<nat>, b: seq<nat>, upTo: nat)
  {
    SplitInTwo(a, b, upTo) && RunsPicked(mem, runs, all, a) && JobsPicked(jobs, all, b)
  }

  lemma PlanNone(mem: Memory, all: seq<FillJob<Byte>>)
    ensures Planned(mem, all, [], [], [], [], 0)
  {
  }

  lemma PlanRun(mem: Memory, all: seq<FillJob<Byte>>, runs: seq<Run>, jobs: seq<FillJob<Byte>>,
                a: seq<nat>, b: seq<nat>, k: nat, run: Run)
    requires Planned(mem, all, runs, jobs, a, b, k) && k < |all| && RunServes(mem, run, all[k])
    ensures Planned(mem, all, runs + [run], jobs, a + [k], b, k + 1)
  {
    SplitLeft(a, b, k);
  }

  lemma PlanJob(mem: Memory, all: seq<FillJob<Byte>>, runs: seq<Run>, jobs: seq<FillJob<Byte>>,
                a: seq<nat>, b: seq<nat>, k: nat, job: FillJob<Byte>)
    requires Planned(mem, all, runs, jobs, a, b, k) && k < |all| && job == all[k]
    ensures Planned(mem, all, runs, jobs + [job], a, b + [k], k + 1)
  {
    SplitLeft(a, b, k);
  }

  function RegionFiles(regions: seq<Region>): (files: seq<int>)
    ensures |files| == |regions| && forall k :: 0 <= k < |files| ==> files[k] == regions[k].part.file
  {
    PartFiles(RegionParts(regions))
  }

  lemma RegionFilesInRange(regions: seq<Region>, lengths: seq<nat>)
    requires RegionsTile(regions, lengths)
    ensures InRange(RegionFiles(regions), |lengths|)
  {
    forall k | 0 <= k < |regions| ensures regions[k].part.file < |lengths| {
      assert RegionAt(regions, k, lengths);
    }
  }

  /** What one pass of the loop may rely on. */
  lemma RegionReady(mem: Memory, files: seq<File>, name: string, dtype: Dtype, regions: seq<Region>,
                    closed: seq<bool>, cppAvailable: bool, k: nat)
    requires RegionsTile(regions, FileRows(files)) && SharedColumn(files, name, dtype) && |closed| == |files|
    requires k < |regions|
    ensures var r := regions[k];
            && ValidPart(r.part, FileRows(files)) && HasColumn(files[r.part.file].columns, name)
            && DtypeOf(files[r.part.file].columns, name).itemsize == dtype.itemsize
            && r.hi == r.lo + PartLength(r.part, FileRows(files)) && r.part.file < |files|
            && |RegionJobs(mem, files, name, dtype.itemsize, regions)| == |regions|
            && RegionJobs(mem, files, name, dtype.itemsize, regions)[k]
               == RegionJob(mem, files, name, dtype.itemsize, r)
            && InRange(RegionFiles(regions), |files|)
            && |Pick(Troubles(files, closed, cppAvailable), RegionFiles(regions))| == |regions|
            && Pick(Troubles(files, closed, cppAvailable), RegionFiles(regions))[k]
               == Trouble(files[r.part.file], closed[r.part.file], cppAvailable)
  {
    RegionFilesInRange(regions, FileRows(files));
    assert RegionAt(regions, k, FileRows(files));
  }

  /** The loop over the regions, and what the first of its side jobs that fails raises. */
  method PlanColumn(mem: Memory, files: seq<File>, name: string, dtype: Dtype, regions: seq<Region>,
                    closed: seq<bool>, cppAvailable: bool)
    returns (failed: Option<Error>, runs: seq<Run>, jobs: seq<FillJob<Byte>>, ghost a: seq<nat>, ghost b: seq<nat>)
    requires RegionsTile(regions, FileRows(files)) && SharedColumn(files, name, dtype) && |closed| == |files|
    requires forall k :: 0 <= k < |files| ==> RowCount(files[k]) <= INT64_MAX
    ensures InRange(RegionFiles(regions), |files|)
    ensures failed == First(Pick(Troubles(files, closed, cppAvailable), RegionFiles(regions)))
    ensures failed.None? ==>
              Planned(mem, RegionJobs(mem, files, name, dtype.itemsize, regions), runs, jobs, a, b, |regions|)
  {
    hide Planned;
    hide RunServes;
    hide Trouble;
    hide RegionJob;
    hide RegionJobs;
    hide RegionsTile;
    hide ValidPart;
    hide PartLength;
    hide RowCount;
    hide DtypeOf;
    ghost var all := RegionJobs(mem, files, name, dtype.itemsize, regions);
    PlanNone(mem, all);
    RegionFilesInRange(regions, FileRows(files));
    ghost var troubles := Pick(Troubles(files, closed, cppAvailable), RegionFiles(regions));
    runs, jobs, a, b := [], [], [], [];
    for k := 0 to |regions|
      invariant forall i :: 0 <= i < k ==> troubles[i].None?
      invariant Planned(mem, all, runs, jobs, a, b, k)
    {
      RegionReady(mem, files, name, dtype, regions, closed, cppAvailable, k);
      var file := regions[k].part.file;
      var route := RouteRegion(mem, files, name, dtype.itemsize, regions[k], closed[file], cppAvailable);
      if route.Failed? {
        FirstIs(troubles, k);
        return Some(route.error), [], [], [], [];
      }
      match route.value
      case ByKernel(run) =>
        PlanRun(mem, all, runs, jobs, a, b, k, run);
        runs, a := runs + [run], a + [k];
      case ByJob(job) =>
        PlanJob(mem, all, runs, jobs, a, b, k, job);
        jobs, b := jobs + [job], b + [k];
    }
    FirstNone(troubles);
    failed := None;
  }

  /**
   `_fill_contiguous_columns` for one column: whatever the kernel can take goes to it in
   one call, the rest runs as jobs, and unless a file's gather raises the buffer ends up as
   the regions' reads in order.
   */
  method FillColumn(mem: Memory, files: seq<File>, name: string, dtype: Dtype, regions: seq<Region>,
                    out: array<Byte>, closed: seq<bool>, cppAvailable: bool, workers: nat)
    returns (failed: Option<Error>)
    requires RegionsTile(regions, FileRows(files)) && SharedColumn(files, name, dtype) && |closed| == |files|
    requires forall k :: 0 <= k < |files| ==> RowCount(files[k]) <= INT64_MAX
    requires out.Length == RegionBounds(regions)[|regions|] * dtype.itemsize && workers > 0
    modifies out
    ensures InRange(RegionFiles(regions), |files|)
    ensures failed == First(Pick(Troubles(files, closed, cppAvailable), RegionFiles(regions)))
    ensures failed.None? ==> out[..] == Flat(JobData(RegionJobs(mem, files, name, dtype.itemsize, regions)))
  {
    var width := dtype.itemsize;
    ghost var all := RegionJobs(mem, files, name, width, regions);
    ghost var bounds := Scale(RegionBounds(regions), width);
    RegionJobsConsecutive(mem, files, name, dtype, regions);
    ConsecutiveValid(all, bounds);
    var runs, jobs;
    ghost var a, b;
    failed, runs, jobs, a, b := PlanColumn(mem, files, name, dtype, regions, closed, cppAvailable);
    if failed.Some? {
      return;
    }
    PickedRunsValid(mem, runs, all, a, out.Length);
    PickedJobsValid(jobs, all, b, out.Length);
    ghost var before := out[..];
    var order := AnyOrder(workers);
    ghost var logs := ParallelCopyRuns(mem, runs, out, workers, order);
    ghost var middle := out[..];
    var schedule := AnyOrder(|jobs|);
    RunFillJobs(out, jobs, schedule);
    BothPhases(mem, all, runs, jobs, a, b, before, middle, out[..]);
    ConsecutiveFilled(all, bounds, out[..]);
  }

  /** The regions' bytes, as elements, are the global selection of the concatenated column. */
  lemma RegionsRead(mem: Memory, files: seq<File>, name: string, dtype: Dtype, regions: seq<Region>, offsets: seq<int>)
    requires RegionsTile(regions, FileRows(files)) && SharedColumn(files, name, dtype)
    requires PrefixSums(offsets, FileRows(files)) && ValidParts(RegionParts(regions), FileRows(files))
    ensures var rows := AllRows(RegionParts(regions), offsets, FileRows(files));
            var column := Flat(FileColumns(mem, files, name));
            InRange(rows, |column|) && Width(Pick(column, rows), dtype.itemsize) &&
            |rows| == RegionBounds(regions)[|regions|] &&
            Flat(JobData(RegionJobs(mem, files, name, dtype.itemsize, regions))) == Flat(Pick(column, rows))
  {
    var columns := FileColumns(mem, files, name);
    var parts := RegionParts(regions);
    FileColumnLengths(mem, files, name);
    PartsReadFlat(columns, offsets, parts);
    DatasetWidth(mem, files, name, dtype);
    PickWidth(Flat(columns), AllRows(parts, offsets, FileRows(files)), dtype.itemsize);
    RegionData(mem, files, name, dtype, regions);
    FlatOfFlats(JobData(RegionJobs(mem, files, name, dtype.itemsize, regions)), PartsRead(columns, parts));
    ReadsLength(columns, regions, |regions|);
    assert parts[..|regions|] == parts;
  }

  lemma RegionData(mem: Memory, files: seq<File>, name: string, dtype: Dtype, regions: seq<Region>)
    requires RegionsTile(regions, FileRows(files)) && SharedColumn(files, name, dtype)
    requires ValidParts(RegionParts(regions), FileRows(files))
    ensures Lengths(FileColumns(mem, files, name)) == FileRows(files)
    ensures var data := JobData(RegionJobs(mem, files, name, dtype.itemsize, regions));
            var partReads := PartsRead(FileColumns(mem, files, name), RegionParts(regions));
            |data| == |partReads| && forall k :: 0 <= k < |data| ==> data[k] == Flat(partReads[k])
  {
    FileColumnLengths(mem, files, name);
    forall k | 0 <= k < |regions|
      ensures JobData(RegionJobs(mem, files, name, dtype.itemsize, regions))[k]
           == Flat(PartsRead(FileColumns(mem, files, name), RegionParts(regions))[k])
    {
      assert RegionAt(regions, k, FileRows(files));
    }
  }

  lemma DatasetWidth(mem: Memory, files: seq<File>, name: string, dtype: Dtype)
    requires SharedColumn(files, name, dtype)
    ensures Width(Flat(FileColumns(mem, files, name)), dtype.itemsize)
  {
    forall k | 0 <= k < |files| ensures Width(ColumnCells(mem, files[k], name), dtype.itemsize) {
      ColumnWidth(mem, files[k], name);
    }
    FlatOfWidth(FileColumns(mem, files, name), dtype.itemsize);
  }

  lemma {:induction false} FlatOfFlats(data: seq<seq<Byte>>, partReads: seq<seq<Cell>>)
    requires |data| == |partReads| && forall k :: 0 <= k < |data| ==> data[k] == Flat(partReads[k])
    ensures Flat(data) == Flat(Flat(partReads))
  {
    if data != [] {
      var n := |data| - 1;
      FlatOfFlats(data[..n], partReads[..n]);
      FlatAppend(Flat(partReads[..n]), partReads[n]);
    }
  }

  lemma {:induction false} ReadsLength(columns: seq<seq<Cell>>, regions: seq<Region>, k: nat)
    requires RegionsTile(regions, Lengths(columns)) && ValidParts(RegionParts(regions), Lengths(columns))
    requires k <= |regions|
    ensures ValidParts(RegionParts(regions)[..k], Lengths(columns))
    ensures |Flat(PartsRead(columns, RegionParts(regions)[..k]))| == RegionBounds(regions)[k]
  {
    if k > 0 {
      ReadsLength(columns, regions, k - 1);
      var parts := RegionParts(regions);
      assert RegionAt(regions, k - 1, Lengths(columns));
      assert parts[..k][..k - 1] == parts[..k - 1];
      PartsReadLast(columns, parts[..k]);
    } else {
      assert PartsRead(columns, RegionParts(regions)[..0]) == [];
    }
  }
}
