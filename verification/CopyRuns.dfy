/**
 `parallel_copy_runs`: byte runs from absolute source addresses into one buffer. The
 runs' bytes form one logical span; workers take equal shares of that span, so a share
 may begin and end in the middle of a run, or of an element.
 */
module CopyRuns {
  import opened Sequences
  import opened Schedule
  import opened Segments

  datatype Run = Run(src: int, dst: int, length: nat)

  /** Runs write inside the buffer and never onto each other. */
  ghost predicate ValidRuns(runs: seq<Run>, size: int) {
    && (forall r :: 0 <= r < |runs| ==> 0 <= runs[r].dst && runs[r].dst + runs[r].length <= size)
    && forall r, q :: 0 <= r < q < |runs| ==>
         runs[r].dst + runs[r].length <= runs[q].dst || runs[q].dst + runs[q].length <= runs[r].dst
  }

  function RunLengths(runs: seq<Run>): seq<nat> {
    seq(|runs|, r requires 0 <= r < |runs| => runs[r].length)
  }

  /** Logical byte `p` belongs to run `r` and lands at `pos`. */
  ghost predicate Lands(runs: seq<Run>, prefix: seq<int>, r: int, p: int, pos: int) {
    InSegment(prefix, r, p) && r < |runs| && pos == runs[r].dst + (p - prefix[r])
  }

  /** The stores of a share land only where its own logical bytes land. */
  ghost predicate OwnBytes(log: Log<Byte>, runs: seq<Run>, prefix: seq<int>, lo: int, hi: int) {
    forall pos :: Touches(log, pos) ==> LandsFrom(runs, prefix, lo, hi, pos)
  }

  ghost predicate LandsFrom(runs: seq<Run>, prefix: seq<int>, lo: int, hi: int, pos: int) {
    exists r, p :: lo <= p < hi && Lands(runs, prefix, r, p, pos)
  }

  /** The logical bytes `[lo, hi)` are in place. */
  ghost predicate Copied(mem: Memory, out: seq<Byte>, runs: seq<Run>, prefix: seq<int>, lo: int, hi: int) {
    forall r, p, pos :: lo <= p < hi && Lands(runs, prefix, r, p, pos) ==>
      0 <= pos < |out| && out[pos] == mem(runs[r].src + (p - prefix[r]))
  }

  lemma LandsInBuffer(runs: seq<Run>, prefix: seq<int>, size: int, r: int, p: int, pos: int)
    requires ValidRuns(runs, size) && PrefixSums(prefix, RunLengths(runs)) && Lands(runs, prefix, r, p, pos)
    ensures 0 <= r < |runs| && 0 <= p - prefix[r] < runs[r].length
    ensures runs[r].dst <= pos < runs[r].dst + runs[r].length && 0 <= pos < size
  {
    assert prefix[r + 1] == prefix[r] + RunLengths(runs)[r];
  }

  /** Two logical bytes never land on one position. */
  lemma LandsInjective(runs: seq<Run>, prefix: seq<int>, size: int, r: int, p: int, q: int, u: int, pos: int)
    requires ValidRuns(runs, size) && PrefixSums(prefix, RunLengths(runs))
    requires Lands(runs, prefix, r, p, pos) && Lands(runs, prefix, q, u, pos)
    ensures r == q && p == u
  {
    LandsInBuffer(runs, prefix, size, r, p, pos);
    LandsInBuffer(runs, prefix, size, q, u, pos);
  }

  method RunPrefix(runs: seq<Run>) returns (prefix: seq<int>)
    ensures PrefixSums(prefix, RunLengths(runs))
  {
    prefix := [0];
    for r := 0 to |runs|
      invariant |prefix| == r + 1 && prefix[0] == 0
      invariant forall k :: 0 <= k < r ==> prefix[k + 1] == prefix[k] + RunLengths(runs)[k]
    {
      prefix := prefix + [prefix[r] + runs[r].length];
    }
  }

  /** One `memcpy`: logical bytes `[p, end)` of run `r`. */
  method CopyPiece(mem: Memory, runs: seq<Run>, prefix: seq<int>, out: array<Byte>, r: nat, p: int, end: int)
    returns (ghost log: Log<Byte>)
    requires ValidRuns(runs, out.Length) && PrefixSums(prefix, RunLengths(runs))
    requires r < |runs| && prefix[r] <= p <= end <= prefix[r + 1]
    modifies out
    ensures InBuffer(log, out.Length) && out[..] == Apply(old(out[..]), log)
    ensures OwnBytes(log, runs, prefix, p, end)
    ensures Copied(mem, out[..], runs, prefix, p, end)
  {
    assert prefix[r + 1] == prefix[r] + RunLengths(runs)[r];
    var at := runs[r].dst + (p - prefix[r]);
    var source := runs[r].src + (p - prefix[r]);
    ghost var bytes := Load(mem, source, end - p);
    forall k | 0 <= k < end - p {
      out[at + k] := mem(source + k);
    }
    log := BlockLog(at, bytes);
    ApplyBlock(old(out[..]), at, bytes);
    assert out[..] == old(out[..])[..at] + bytes + old(out[..])[at + |bytes|..];
    PrefixSumsSorted(prefix, RunLengths(runs));
    forall pos | Touches(log, pos) ensures LandsFrom(runs, prefix, p, end, pos) {
      WithinAt(log, at, at + |bytes|, pos);
      assert Lands(runs, prefix, r, p + (pos - at), pos);
    }
    forall q, u, pos | p <= u < end && Lands(runs, prefix, q, u, pos)
      ensures 0 <= pos < out.Length && out[pos] == mem(runs[q].src + (u - prefix[q]))
    {
      SegmentUnique(prefix, r, q, u);
      assert out[at + (u - p)] == mem(source + (u - p));
    }
  }

  /** Appending a piece to a share keeps what the share has copied. */
  lemma PieceAppended(mem: Memory, runs: seq<Run>, prefix: seq<int>, buffer: seq<Byte>, log: Log<Byte>,
                      more: Log<Byte>, lo: int, p: int, end: int)
    requires ValidRuns(runs, |buffer|) && PrefixSums(prefix, RunLengths(runs)) && lo <= p <= end
    requires InBuffer(log, |buffer|) && InBuffer(more, |buffer|)
    requires OwnBytes(log, runs, prefix, lo, p) && OwnBytes(more, runs, prefix, p, end)
    requires Copied(mem, Apply(buffer, log), runs, prefix, lo, p)
    requires Copied(mem, Apply(Apply(buffer, log), more), runs, prefix, p, end)
    ensures InBuffer(log + more, |buffer|)
    ensures Apply(buffer, log + more) == Apply(Apply(buffer, log), more)
    ensures OwnBytes(log + more, runs, prefix, lo, end)
    ensures Copied(mem, Apply(buffer, log + more), runs, prefix, lo, end)
  {
    ApplyAppend(buffer, log, more);
    OwnBytesAppend(runs, prefix, log, more, lo, p, end);
    CopiedElsewhere(mem, runs, prefix, Apply(buffer, log), more, lo, p, p, end);
  }

  lemma OwnBytesAppend(runs: seq<Run>, prefix: seq<int>, log: Log<Byte>, more: Log<Byte>, lo: int, p: int, end: int)
    requires lo <= p <= end
    requires OwnBytes(log, runs, prefix, lo, p) && OwnBytes(more, runs, prefix, p, end)
    ensures OwnBytes(log + more, runs, prefix, lo, end)
  {
    forall pos | Touches(log + more, pos) ensures LandsFrom(runs, prefix, lo, end, pos) {
      var k :| 0 <= k < |log + more| && (log + more)[k].pos == pos;
      if k < |log| {
        assert Touches(log, pos) && LandsFrom(runs, prefix, lo, p, pos);
      } else {
        assert more[k - |log|].pos == pos;
        assert Touches(more, pos) && LandsFrom(runs, prefix, p, end, pos);
      }
    }
  }

  /** Another share's stores leave copied bytes alone. */
  lemma CopiedElsewhere(mem: Memory, runs: seq<Run>, prefix: seq<int>, current: seq<Byte>, more: Log<Byte>,
                        lo: int, hi: int, lo': int, hi': int)
    requires ValidRuns(runs, |current|) && PrefixSums(prefix, RunLengths(runs))
    requires hi <= lo' || hi' <= lo
    requires InBuffer(more, |current|) && OwnBytes(more, runs, prefix, lo', hi')
    requires Copied(mem, current, runs, prefix, lo, hi)
    ensures Copied(mem, Apply(current, more), runs, prefix, lo, hi)
  {
    forall r, u, pos | lo <= u < hi && Lands(runs, prefix, r, u, pos)
      ensures 0 <= pos < |current| && Apply(current, more)[pos] == mem(runs[r].src + (u - prefix[r]))
    {
      NotTheirs(runs, prefix, |current|, more, lo', hi', r, u, pos);
      ApplyUntouched(current, more, pos);
    }
  }

  lemma NotTheirs(runs: seq<Run>, prefix: seq<int>, size: int, log: Log<Byte>, lo: int, hi: int, r: int, u: int,
                  pos: int)
    requires ValidRuns(runs, size) && PrefixSums(prefix, RunLengths(runs))
    requires OwnBytes(log, runs, prefix, lo, hi) && Lands(runs, prefix, r, u, pos)
    ensures Touches(log, pos) ==> lo <= u < hi
  {
    if Touches(log, pos) {
      var q, p :| lo <= p < hi && Lands(runs, prefix, q, p, pos);
      LandsInjective(runs, prefix, size, r, u, q, p, pos);
    }
  }

  /** `copy_logical_range`: one worker's share `[lo, hi)` of the logical span. */
  method CopyLogicalRange(mem: Memory, runs: seq<Run>, prefix: seq<int>, out: array<Byte>, lo: int, hi: int)
    returns (ghost log: Log<Byte>)
    requires ValidRuns(runs, out.Length) && PrefixSums(prefix, RunLengths(runs))
    requires 0 <= lo <= hi <= prefix[|runs|]
    modifies out
    ensures InBuffer(log, out.Length) && out[..] == Apply(old(out[..]), log)
    ensures OwnBytes(log, runs, prefix, lo, hi)
    ensures Copied(mem, out[..], runs, prefix, lo, hi)
  {
    PrefixSumsSorted(prefix, RunLengths(runs));
    log := [];
    var p := lo;
    var run := BinRecord(prefix, lo);
    while p < hi
      invariant lo <= p <= hi
      invariant p < hi ==> run < |runs| && prefix[run] <= p <= prefix[run + 1]
      invariant InBuffer(log, out.Length) && out[..] == Apply(old(out[..]), log)
      invariant OwnBytes(log, runs, prefix, lo, p)
      invariant Copied(mem, out[..], runs, prefix, lo, p)
      decreases |runs| - run
    {
      var end := Min(hi, prefix[run + 1]);
      ghost var more := CopyPiece(mem, runs, prefix, out, run, p, end);
      PieceAppended(mem, runs, prefix, old(out[..]), log, more, lo, p, end);
      log := log + more;
      p := end;
      run := run + 1;
    }
  }

  /** Every run is copied in full, and nothing else changes. */
  ghost predicate RunsCopied(mem: Memory, runs: seq<Run>, before: seq<Byte>, after: seq<Byte>) {
    && |after| == |before| && ValidRuns(runs, |before|)
    && (forall r :: 0 <= r < |runs| ==> RunCopied(mem, runs[r], after))
    && (forall pos :: 0 <= pos < |before| && OutsideRuns(runs, pos) ==> after[pos] == before[pos])
  }

  ghost predicate RunCopied(mem: Memory, run: Run, out: seq<Byte>)
    requires 0 <= run.dst && run.dst + run.length <= |out|
  {
    forall pos :: run.dst <= pos < run.dst + run.length ==> out[pos] == mem(run.src + (pos - run.dst))
  }

  ghost predicate OutsideRuns(runs: seq<Run>, pos: int) {
    forall r :: 0 <= r < |runs| ==> !(runs[r].dst <= pos < runs[r].dst + runs[r].length)
  }

  /** The shares together copy every run. */
  lemma SharesCopyRuns(mem: Memory, runs: seq<Run>, prefix: seq<int>, before: seq<Byte>, after: seq<Byte>,
                       logs: map<nat, Log<Byte>>, bounds: seq<int>, workers: nat)
    requires ValidRuns(runs, |before|) && PrefixSums(prefix, RunLengths(runs))
    requires Progress(before, logs, after) && (forall u: nat :: u in logs <==> u < workers)
    requires |bounds| == workers + 1 && bounds[0] == 0 && bounds[workers] == prefix[|runs|]
    requires forall u: nat :: u < workers ==>
               Copied(mem, after, runs, prefix, bounds[u], bounds[u + 1]) &&
               OwnBytes(logs[u], runs, prefix, bounds[u], bounds[u + 1])
    ensures RunsCopied(mem, runs, before, after)
  {
    PrefixSumsSorted(prefix, RunLengths(runs));
    forall r | 0 <= r < |runs| ensures RunCopied(mem, runs[r], after) {
      forall pos | runs[r].dst <= pos < runs[r].dst + runs[r].length
        ensures after[pos] == mem(runs[r].src + (pos - runs[r].dst))
      {
        assert prefix[r + 1] == prefix[r] + RunLengths(runs)[r];
        assert prefix[r + 1] <= prefix[|runs|];
        var p := prefix[r] + (pos - runs[r].dst);
        var u := WindowOf(bounds, p);
        assert Copied(mem, after, runs, prefix, bounds[u], bounds[u + 1]);
        assert Lands(runs, prefix, r, p, pos);
      }
    }
    forall pos | 0 <= pos < |before| && OutsideRuns(runs, pos) ensures after[pos] == before[pos] {
      forall u: nat | u in logs ensures !Touches(logs[u], pos) {
        assert OwnBytes(logs[u], runs, prefix, bounds[u], bounds[u + 1]);
        OutsideUntouched(runs, prefix, |before|, logs[u], bounds[u], bounds[u + 1], pos);
      }
      assert UnwrittenBy(logs, pos);
    }
  }

  lemma OutsideUntouched(runs: seq<Run>, prefix: seq<int>, size: int, log: Log<Byte>, lo: int, hi: int, pos: int)
    requires ValidRuns(runs, size) && PrefixSums(prefix, RunLengths(runs))
    requires OwnBytes(log, runs, prefix, lo, hi) && OutsideRuns(runs, pos)
    ensures !Touches(log, pos)
  {
    if Touches(log, pos) {
      var q, p :| lo <= p < hi && Lands(runs, prefix, q, p, pos);
      LandsInBuffer(runs, prefix, size, q, p, pos);
    }
  }

  method ParallelCopyRuns(mem: Memory, runs: seq<Run>, out: array<Byte>, workers: nat, order: seq<int>)
    returns (ghost logs: seq<Log<Byte>>)
    requires ValidRuns(runs, out.Length)
    requires workers > 0 && IsPermutation(order, workers)
    modifies out
    ensures RunsCopied(mem, runs, old(out[..]), out[..])
    ensures ScheduleFree(old(out[..]), logs, out[..])
  {
    var prefix := RunPrefix(runs);
    PrefixSumsSorted(prefix, RunLengths(runs));
    var total := prefix[|runs|];
    ghost var bounds := ChunkBounds(total, workers);
    ChunksCover(total, workers);
    ghost var done: map<nat, Log<Byte>> := map[];
    for k := 0 to workers
      invariant forall u: nat :: u in done <==> u in order[..k]
      invariant Progress(old(out[..]), done, out[..])
      invariant forall u: nat :: u in done ==> Copied(mem, out[..], runs, prefix, bounds[u], bounds[u + 1])
      invariant forall u: nat :: u in done ==> OwnBytes(done[u], runs, prefix, bounds[u], bounds[u + 1])
    {
      var u: nat := order[k];
      assert u !in done;
      assert bounds[0] <= bounds[u] <= bounds[u + 1] <= bounds[workers];
      ghost var current := out[..];
      ghost var log := CopyLogicalRange(mem, runs, prefix, out, ChunkStart(total, workers, u),
                                        ChunkStart(total, workers, u + 1));
      SharesApart(runs, prefix, out.Length, done, bounds, u, log);
      ProgressStep(old(out[..]), done, current, u, log);
      forall v: nat | v in done ensures Copied(mem, out[..], runs, prefix, bounds[v], bounds[v + 1]) {
        assert v < u ==> bounds[v + 1] <= bounds[u];
        assert u < v ==> bounds[u + 1] <= bounds[v];
        CopiedElsewhere(mem, runs, prefix, current, log, bounds[v], bounds[v + 1], bounds[u], bounds[u + 1]);
      }
      done := done[u := log];
    }
    AllRun(order, workers);
    SharesCopyRuns(mem, runs, prefix, old(out[..]), out[..], done, bounds, workers);
    logs := LogsOf(done, workers);
    SharesDisjoint(runs, prefix, out.Length, logs, bounds);
    ProgressDone(old(out[..]), done, workers, out[..]);
  }

  lemma SharesApart(runs: seq<Run>, prefix: seq<int>, size: int, done: map<nat, Log<Byte>>, bounds: seq<int>,
                    u: nat, log: Log<Byte>)
    requires ValidRuns(runs, size) && PrefixSums(prefix, RunLengths(runs)) && NonDecreasing(bounds)
    requires u + 1 < |bounds| && u !in done && OwnBytes(log, runs, prefix, bounds[u], bounds[u + 1])
    requires forall v: nat :: v in done ==> v + 1 < |bounds| && OwnBytes(done[v], runs, prefix, bounds[v],
        bounds[v + 1])
    ensures forall v, pos :: v in done && Touches(done[v], pos) ==> !Touches(log, pos)
  {
    forall v, pos | v in done && Touches(done[v], pos) ensures !Touches(log, pos) {
      assert OwnBytes(done[v], runs, prefix, bounds[v], bounds[v + 1]);
      var q, p :| bounds[v] <= p < bounds[v + 1] && Lands(runs, prefix, q, p, pos);
      NotTheirs(runs, prefix, size, log, bounds[u], bounds[u + 1], q, p, pos);
      OneWindow(bounds, u, v, p);
    }
  }

  lemma SharesDisjoint(runs: seq<Run>, prefix: seq<int>, size: int, logs: seq<Log<Byte>>, bounds: seq<int>)
    requires ValidRuns(runs, size) && PrefixSums(prefix, RunLengths(runs)) && NonDecreasing(bounds)
    requires |bounds| == |logs| + 1
    requires forall v :: 0 <= v < |logs| ==> OwnBytes(logs[v], runs, prefix, bounds[v], bounds[v + 1])
    ensures Disjoint(logs)
  {
    forall t, u, pos | 0 <= t < |logs| && 0 <= u < |logs| && Touches(logs[t], pos) && Touches(logs[u], pos)
      ensures t == u
    {
      assert OwnBytes(logs[t], runs, prefix, bounds[t], bounds[t + 1]);
      var q, p :| bounds[t] <= p < bounds[t + 1] && Lands(runs, prefix, q, p, pos);
      assert OwnBytes(logs[u], runs, prefix, bounds[u], bounds[u + 1]);
      NotTheirs(runs, prefix, size, logs[u], bounds[u], bounds[u + 1], q, p, pos);
      OneWindow(bounds, t, u, p);
    }
  }
}
