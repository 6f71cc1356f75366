/**
 The portable fancy gather: sort the requested rows once, gather each file's rows as one
 contiguous block of the sorted order, then scatter the buffer back into request order.
 */
module SortOnce {
  import opened Sequences
  import opened Schedule
  import opened FillJobs

  /** Any permutation that sorts; `np.argsort` is free to choose among equal rows. */
  ghost predicate IsArgsort(order: seq<int>, indices: seq<int>) {
    IsPermutation(order, |indices|) && NonDecreasing(Pick(indices, order))
  }

  /** One file's run of the sorted rows: `[lo, hi)` of the sorted order, and the local rows. */
  datatype Block = Block(file: nat, lo: nat, hi: nat, local: seq<int>)

  /** Callers may rely only on the result sorting the rows, not on which permutation it is. */
  method Argsort(indices: seq<int>) returns (order: seq<int>)
    ensures IsArgsort(order, indices)
  {
    order := [];
    for n := 0 to |indices|
      invariant IsPermutation(order, n)
      invariant NonDecreasing(Pick(indices, order))
    {
      var at := 0;
      while at < n && indices[order[at]] <= indices[n]
        invariant 0 <= at <= n
        invariant at == 0 || indices[order[at - 1]] <= indices[n]
      {
        at := at + 1;
      }
      InsertSorted(indices, order, n, at);
      order := order[..at] + [n] + order[at..];
    }
  }

  lemma NonDecreasingInsert(s: seq<int>, at: nat, x: int)
    requires NonDecreasing(s) && at <= |s|
    requires at == 0 || s[at - 1] <= x
    requires at == |s| || x <= s[at]
    ensures NonDecreasing(s[..at] + [x] + s[at..])
  {
    forall k | 0 <= k < at ensures s[k] <= x {
      assert s[k] <= s[at - 1];
    }
    forall k | at <= k < |s| ensures x <= s[k] {
      assert s[at] <= s[k];
    }
  }

  lemma PermutationInsert(order: seq<int>, n: nat, at: nat)
    requires IsPermutation(order, n) && at <= n
    ensures IsPermutation(order[..at] + [n as int] + order[at..], n + 1)
  {
  }

  lemma InsertSorted(indices: seq<int>, order: seq<int>, n: nat, at: nat)
    requires n < |indices| && IsPermutation(order, n) && at <= n
    requires NonDecreasing(Pick(indices, order))
    requires at == 0 || indices[order[at - 1]] <= indices[n]
    requires at == n || indices[n] <= indices[order[at]]
    ensures IsPermutation(order[..at] + [n as int] + order[at..], n + 1)
    ensures NonDecreasing(Pick(indices, order[..at] + [n as int] + order[at..]))
  {
    PermutationInsert(order, n, at);
    var sorted := Pick(indices, order);
    NonDecreasingInsert(sorted, at, indices[n]);
    assert Pick(indices, order[..at] + [n as int] + order[at..]) == sorted[..at] + [indices[n]] + sorted[at..];
  }

  /** `np.searchsorted(s, value)`: the first position whose entry is at least `value`. */
  method SearchSorted(s: seq<int>, value: int) returns (at: nat)
    requires NonDecreasing(s)
    ensures at <= |s|
    ensures forall k :: 0 <= k < at ==> s[k] < value
    ensures forall k :: at <= k < |s| ==> s[k] >= value
    ensures at == |s| || s[at] >= value
  {
    var hi := |s|;
    at := 0;
    while at < hi
      invariant 0 <= at <= hi <= |s|
      invariant forall k :: 0 <= k < at ==> s[k] < value
      invariant forall k :: hi <= k < |s| ==> s[k] >= value
    {
      var mid := (at + hi) / 2;
      if s[mid] < value {
        at := mid + 1;
      } else {
        hi := mid;
      }
    }
  }

  /** A block's rows are the sorted rows of its window, counted inside their own file. */
  ghost predicate ValidBlock(b: Block, sorted: seq<int>, offsets: seq<int>, lengths: seq<nat>) {
    && |offsets| == |lengths| + 1 && b.file < |lengths|
    && b.lo < b.hi <= |sorted|
    && b.local == Shift(sorted[b.lo..b.hi], -offsets[b.file])
    && InRange(b.local, lengths[b.file])
  }

  /** The blocks tile the sorted rows, in file order. */
  ghost predicate BlocksTile(blocks: seq<Block>, bounds: seq<int>, sorted: seq<int>, offsets: seq<int>,
                             lengths: seq<nat>) {
    && |bounds| == |blocks| + 1 && bounds[0] == 0
    && forall k :: 0 <= k < |blocks| ==>
         ValidBlock(blocks[k], sorted, offsets, lengths) && blocks[k].lo == bounds[k] && blocks[k].hi == bounds[k + 1]
  }

  lemma BlocksTileNext(blocks: seq<Block>, bounds: seq<int>, sorted: seq<int>, offsets: seq<int>, lengths: seq<nat>,
                       b: Block)
    requires BlocksTile(blocks, bounds, sorted, offsets, lengths)
    requires ValidBlock(b, sorted, offsets, lengths) && b.lo == bounds[|blocks|]
    ensures BlocksTile(blocks + [b], bounds + [b.hi as int], sorted, offsets, lengths)
  {
  }

  /** At most one block per file, in file order, all below file `f`. */
  predicate FilesAscend(blocks: seq<Block>, f: nat) {
    && (forall k :: 0 <= k < |blocks| ==> blocks[k].file < f)
    && forall j, k :: 0 <= j < k < |blocks| ==> blocks[j].file < blocks[k].file
  }

  lemma FilesAscendNext(blocks: seq<Block>, b: Block, f: nat)
    requires FilesAscend(blocks, f) && b.file == f
    ensures FilesAscend(blocks + [b], f + 1)
  {
  }

  /** `_sorted_blocks`: one sort, then the file boundaries cut the sorted rows into blocks. */
  method SortedBlocks(offsets: seq<int>, lengths: seq<nat>, indices: seq<int>)
    returns (order: seq<int>, blocks: seq<Block>, ghost bounds: seq<int>)
    requires PrefixSums(offsets, lengths) && InRange(indices, offsets[|lengths|])
    ensures IsArgsort(order, indices)
    ensures BlocksTile(blocks, bounds, Pick(indices, order), offsets, lengths)
    ensures bounds[|blocks|] == |indices|
    ensures FilesAscend(blocks, |lengths|)
  {
    order := Argsort(indices);
    var sorted := Pick(indices, order);
    PrefixSumsSorted(offsets, lengths);
    var boundary := SearchSorted(sorted, offsets[0]);
    assert sorted == [] || sorted[0] >= 0;
    blocks, bounds := [], [0];
    for f := 0 to |lengths|
      invariant 0 <= boundary <= |sorted|
      invariant forall k :: 0 <= k < boundary ==> sorted[k] < offsets[f]
      invariant forall k :: boundary <= k < |sorted| ==> sorted[k] >= offsets[f]
      invariant boundary == |sorted| || sorted[boundary] >= offsets[f]
      invariant BlocksTile(blocks, bounds, sorted, offsets, lengths) && bounds[|blocks|] == boundary
      invariant FilesAscend(blocks, f)
    {
      var next := SearchSorted(sorted, offsets[f + 1]);
      assert offsets[f + 1] == offsets[f] + lengths[f];
      if boundary < next {
        var b := Block(f, boundary, next, Shift(sorted[boundary..next], -offsets[f]));
        BlocksTileNext(blocks, bounds, sorted, offsets, lengths, b);
        FilesAscendNext(blocks, b, f);
        blocks, bounds := blocks + [b], bounds + [next as int];
      }
      boundary := next;
    }
  }

  function BlockFiles(blocks: seq<Block>): seq<int> {
    seq(|blocks|, k requires 0 <= k < |blocks| => blocks[k].file)
  }

  /** The blocks' files are exactly the files the requested rows lie in. */
  lemma BlocksReach(order: seq<int>, blocks: seq<Block>, bounds: seq<int>, indices: seq<int>, offsets: seq<int>,
                    lengths: seq<nat>, f: nat)
    requires PrefixSums(offsets, lengths) && f < |lengths| && IsArgsort(order, indices)
    requires BlocksTile(blocks, bounds, Pick(indices, order), offsets, lengths) && bounds[|blocks|] == |indices|
    ensures f in BlockFiles(blocks) <==> Reaches(indices, offsets[f], offsets[f + 1])
  {
    var sorted := Pick(indices, order);
    PrefixSumsSorted(offsets, lengths);
    if f in BlockFiles(blocks) {
      var k :| 0 <= k < |blocks| && BlockFiles(blocks)[k] == f;
      BlockRow(blocks[k], sorted, offsets, lengths, blocks[k].lo);
      assert offsets[f] <= indices[order[blocks[k].lo]] < offsets[f + 1];
    }
    if Reaches(indices, offsets[f], offsets[f + 1]) {
      var i :| 0 <= i < |indices| && offsets[f] <= indices[i] < offsets[f + 1];
      var g := PermutationCovers(order, |indices|, i);
      var k := WindowOf(bounds, g);
      BlockRow(blocks[k], sorted, offsets, lengths, g);
      SameWindow(offsets, lengths, blocks[k].file, f, indices[i]);
      assert BlockFiles(blocks)[k] == f;
    }
  }

  lemma BlockRow(b: Block, sorted: seq<int>, offsets: seq<int>, lengths: seq<nat>, g: nat)
    requires PrefixSums(offsets, lengths) && ValidBlock(b, sorted, offsets, lengths) && b.lo <= g < b.hi
    ensures offsets[b.file] <= sorted[g] < offsets[b.file + 1]
  {
    assert offsets[b.file + 1] == offsets[b.file] + lengths[b.file];
    assert b.local[g - b.lo] == sorted[b.lo..b.hi][g - b.lo] - offsets[b.file];
  }

  /** The files' columns, gathered block by block. */
  function BlockJobs<T>(columns: seq<seq<T>>, blocks: seq<Block>): seq<FillJob<T>>
    requires forall k :: 0 <= k < |blocks| ==>
               blocks[k].file < |columns| && InRange(blocks[k].local, |columns[blocks[k].file]|)
  {
    seq(|blocks|, k requires 0 <= k < |blocks| =>
      FillJob(blocks[k].lo, Pick(columns[blocks[k].file], blocks[k].local)))
  }

  /** A block's local gather is the global gather of its window of the sorted rows. */
  lemma BlockReads<T>(columns: seq<seq<T>>, offsets: seq<int>, sorted: seq<int>, b: Block)
    requires PrefixSums(offsets, Lengths(columns)) && ValidBlock(b, sorted, offsets, Lengths(columns))
    requires InRange(sorted, |Flat(columns)|)
    ensures b.file < |columns| && InRange(b.local, |columns[b.file]|)
    ensures Pick(columns[b.file], b.local) == Pick(Flat(columns), sorted)[b.lo..b.hi]
  {
    forall k | 0 <= k < |b.local|
      ensures columns[b.file][b.local[k]] == Flat(columns)[sorted[b.lo + k]]
    {
      assert sorted[b.lo..b.hi][k] == sorted[b.lo + k];
      FlatAt(columns, offsets, b.file, b.local[k]);
    }
  }

  /** Once every block is filled, the buffer is the column at the sorted rows. */
  lemma BufferSorted<T>(columns: seq<seq<T>>, offsets: seq<int>, sorted: seq<int>, blocks: seq<Block>,
                        bounds: seq<int>, buffer: seq<T>)
    requires PrefixSums(offsets, Lengths(columns)) && InRange(sorted, |Flat(columns)|)
    requires BlocksTile(blocks, bounds, sorted, offsets, Lengths(columns)) && bounds[|blocks|] == |sorted| == |buffer|
    requires forall k :: 0 <= k < |blocks| ==>
               blocks[k].file < |columns| && InRange(blocks[k].local, |columns[blocks[k].file]|)
    requires forall k :: 0 <= k < |blocks| ==> JobDone(BlockJobs(columns, blocks)[k], buffer)
    ensures buffer == Pick(Flat(columns), sorted)
  {
    var jobs := BlockJobs(columns, blocks);
    forall g | 0 <= g < |buffer| ensures buffer[g] == Pick(Flat(columns), sorted)[g] {
      var k := WindowOf(bounds, g);
      BlockReads(columns, offsets, sorted, blocks[k]);
      assert JobDone(jobs[k], buffer);
      assert buffer[jobs[k].at..JobEnd(jobs[k])][g - bounds[k]] == jobs[k].data[g - bounds[k]];
    }
  }

  /** `dst[order] = buffer`. */
  method Scatter<T>(dst: array<T>, order: seq<int>, buffer: array<T>)
    requires dst != buffer && dst.Length == buffer.Length && IsPermutation(order, dst.Length)
    modifies dst
    ensures forall k :: 0 <= k < |order| ==> dst[order[k]] == buffer[k]
  {
    for k := 0 to |order|
      invariant forall i :: 0 <= i < k ==> dst[order[i]] == buffer[i]
    {
      dst[order[k]] := buffer[k];
    }
  }

  /** Un-sorting: scattering the sorted gather gives the gather in request order. */
  lemma Unsorted<T>(column: seq<T>, indices: seq<int>, order: seq<int>, buffer: seq<T>, dst: seq<T>)
    requires InRange(indices, |column|) && IsPermutation(order, |indices|) && |dst| == |indices|
    requires InRange(Pick(indices, order), |column|) && buffer == Pick(column, Pick(indices, order))
    requires forall k :: 0 <= k < |order| ==> dst[order[k]] == buffer[k]
    ensures dst == Pick(column, indices)
  {
    forall i | 0 <= i < |dst| ensures dst[i] == column[indices[i]] {
      var k := PermutationCovers(order, |indices|, i);
      assert dst[order[k]] == buffer[k] == column[Pick(indices, order)[k]];
    }
  }

  lemma BlockJobsValid<T>(columns: seq<seq<T>>, blocks: seq<Block>, bounds: seq<int>, sorted: seq<int>,
                          offsets: seq<int>)
    requires PrefixSums(offsets, Lengths(columns))
    requires BlocksTile(blocks, bounds, sorted, offsets, Lengths(columns))
    ensures forall k :: 0 <= k < |blocks| ==>
              blocks[k].file < |columns| && InRange(blocks[k].local, |columns[blocks[k].file]|)
    ensures Consecutive(BlockJobs(columns, blocks), bounds)
  {
    forall k | 0 <= k < |blocks|
      ensures blocks[k].file < |columns| && InRange(blocks[k].local, |columns[blocks[k].file]|)
      ensures |blocks[k].local| == blocks[k].hi - blocks[k].lo
    {
      assert ValidBlock(blocks[k], sorted, offsets, Lengths(columns));
    }
  }

  /** One column through the fallback, on a sort shared with other columns. */
  method GatherBlocks<T(0)>(columns: seq<seq<T>>, offsets: seq<int>, indices: seq<int>, order: seq<int>,
                         blocks: seq<Block>, ghost bounds: seq<int>, dst: array<T>)
    requires PrefixSums(offsets, Lengths(columns)) && InRange(indices, |Flat(columns)|)
    requires IsArgsort(order, indices) && dst.Length == |indices|
    requires BlocksTile(blocks, bounds, Pick(indices, order), offsets, Lengths(columns))
    requires bounds[|blocks|] == |indices|
    modifies dst
    ensures dst[..] == Pick(Flat(columns), indices)
  {
    BlockJobsValid(columns, blocks, bounds, Pick(indices, order), offsets);
    var jobs := BlockJobs(columns, blocks);
    ConsecutiveValid(jobs, bounds);
    var buffer := new T[|indices|];
    var schedule := AnyOrder(|jobs|);
    RunFillJobs(buffer, jobs, schedule);
    BufferSorted(columns, offsets, Pick(indices, order), blocks, bounds, buffer[..]);
    Scatter(dst, order, buffer);
    Unsorted(Flat(columns), indices, order, buffer[..], dst[..]);
  }
}
