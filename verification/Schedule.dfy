/**
 Parallel fills. A worker is the list of stores it performs, in its own order; a
 schedule is any interleaving of the workers. When no two workers store to the same
 position, every interleaving leaves the same buffer, although one worker may store
 to a position several times (the mask kernel does).
 */
module Schedule {
  import opened Sequences

  datatype Write<T> = Write(pos: int, value: T)

  type Log<T> = seq<Write<T>>

  ghost predicate InBuffer<T>(log: Log<T>, length: int) {
    forall k :: 0 <= k < |log| ==> 0 <= log[k].pos < length
  }

  /** The buffer after performing the stores of `log` in order. */
  ghost function Apply<T>(buffer: seq<T>, log: Log<T>): (r: seq<T>)
    requires InBuffer(log, |buffer|)
    ensures |r| == |buffer|
  {
    if log == [] then buffer
    else
      var last := log[|log| - 1];
      Apply(buffer, log[..|log| - 1])[last.pos := last.value]
  }

  ghost predicate Touches<T>(log: Log<T>, pos: int) {
    exists k :: 0 <= k < |log| && log[k].pos == pos
  }

  /** Every store of `log` lands in `[lo, hi)`. */
  ghost predicate Within<T>(log: Log<T>, lo: int, hi: int) {
    forall k :: 0 <= k < |log| ==> lo <= log[k].pos < hi
  }

  lemma {:induction false} ApplyAppend<T>(buffer: seq<T>, a: Log<T>, b: Log<T>)
    requires InBuffer(a, |buffer|) && InBuffer(b, |buffer|)
    ensures InBuffer(a + b, |buffer|)
    ensures Apply(buffer, a + b) == Apply(Apply(buffer, a), b)
    decreases |b|
  {
    if b == [] {
      assert a + b == a;
    } else {
      var n := |b| - 1;
      ApplyAppend(buffer, a, b[..n]);
      assert (a + b)[..|a + b| - 1] == a + b[..n];
    }
  }

  lemma ApplyOne<T>(buffer: seq<T>, log: Log<T>, w: Write<T>)
    requires InBuffer(log, |buffer|) && 0 <= w.pos < |buffer|
    ensures InBuffer(log + [w], |buffer|)
    ensures Apply(buffer, log + [w]) == Apply(buffer, log)[w.pos := w.value]
  {
    assert (log + [w])[..|log + [w]| - 1] == log;
  }

  lemma TouchesPrefix<T>(log: Log<T>, n: nat, pos: int)
    requires n <= |log| && Touches(log[..n], pos)
    ensures Touches(log, pos)
  {
    var k :| 0 <= k < n && log[..n][k].pos == pos;
    assert log[k].pos == pos;
  }

  /** A position no store of the log names keeps its value. */
  lemma {:induction false} ApplyUntouched<T>(buffer: seq<T>, log: Log<T>, pos: int)
    requires InBuffer(log, |buffer|) && 0 <= pos < |buffer| && !Touches(log, pos)
    ensures Apply(buffer, log)[pos] == buffer[pos]
  {
    if log != [] {
      var n := |log| - 1;
      assert log[n].pos != pos;
      if Touches(log[..n], pos) {
        TouchesPrefix(log, n, pos);
      }
      ApplyUntouched(buffer, log[..n], pos);
    }
  }

  /** What a worker leaves at a position it stores to does not depend on the buffer it found. */
  lemma {:induction false} ApplyTouched<T>(a: seq<T>, b: seq<T>, log: Log<T>, pos: int)
    requires |a| == |b| && InBuffer(log, |a|) && Touches(log, pos)
    ensures Apply(a, log)[pos] == Apply(b, log)[pos]
  {
    var k :| 0 <= k < |log| && log[k].pos == pos;
    var n := |log| - 1;
    if log[n].pos != pos {
      assert log[..n][k].pos == pos;
      ApplyTouched(a, b, log[..n], pos);
    }
  }

  /** The stores of one block copy to consecutive positions. */
  ghost function BlockLog<T>(at: int, cells: seq<T>): Log<T> {
    seq(|cells|, k requires 0 <= k < |cells| => Write(at + k, cells[k]))
  }

  lemma {:induction false} ApplyBlock<T>(buffer: seq<T>, at: nat, cells: seq<T>)
    requires at + |cells| <= |buffer|
    ensures InBuffer(BlockLog(at, cells), |buffer|) && Within(BlockLog(at, cells), at, at + |cells|)
    ensures Apply(buffer, BlockLog(at, cells)) == buffer[..at] + cells + buffer[at + |cells|..]
    decreases |cells|
  {
    if cells != [] {
      var n := |cells| - 1;
      ApplyBlock(buffer, at, cells[..n]);
      assert BlockLog(at, cells)[..n] == BlockLog(at, cells[..n]);
    }
  }

  // ---- interleavings ----

  /** How often worker `t` has been scheduled. */
  ghost function Turns(picks: seq<nat>, t: nat): nat {
    if picks == [] then 0
    else Turns(picks[..|picks| - 1], t) + (if picks[|picks| - 1] == t then 1 else 0)
  }

  /** `picks` names, step by step, the worker that performs its next store. */
  ghost predicate Feasible<T>(logs: seq<Log<T>>, picks: seq<nat>) {
    && (forall i :: 0 <= i < |picks| ==> picks[i] < |logs|)
    && forall t: nat :: t < |logs| ==> Turns(picks, t) <= |logs[t]|
  }

  /** A feasible schedule that runs every worker to its end. */
  ghost predicate Complete<T>(logs: seq<Log<T>>, picks: seq<nat>) {
    && Feasible(logs, picks)
    && forall t: nat :: t < |logs| ==> Turns(picks, t) == |logs[t]|
  }

  lemma FeasiblePrefix<T>(logs: seq<Log<T>>, picks: seq<nat>)
    requires Feasible(logs, picks) && picks != []
    ensures Feasible(logs, picks[..|picks| - 1])
    ensures Turns(picks[..|picks| - 1], picks[|picks| - 1]) < |logs[picks[|picks| - 1]]|
  {
    var before := picks[..|picks| - 1];
    forall t: nat | t < |logs| ensures Turns(before, t) <= |logs[t]| {
      assert Turns(before, t) <= Turns(picks, t);
    }
    forall i | 0 <= i < |before| ensures before[i] < |logs| {
      assert before[i] == picks[i];
    }
    var t := picks[|picks| - 1];
    assert Turns(picks, t) == Turns(before, t) + 1;
  }

  /** The single store sequence a schedule produces. */
  ghost function Merged<T>(logs: seq<Log<T>>, picks: seq<nat>): Log<T>
    requires Feasible(logs, picks)
  {
    if picks == [] then []
    else
      FeasiblePrefix(logs, picks);
      var before := picks[..|picks| - 1];
      var t := picks[|picks| - 1];
      Merged(logs, before) + [logs[t][Turns(before, t)]]
  }

  /** No two workers store to the same position. */
  ghost predicate Disjoint<T>(logs: seq<Log<T>>) {
    forall t, u, pos ::
      0 <= t < |logs| && 0 <= u < |logs| && Touches(logs[t], pos) && Touches(logs[u], pos) ==> t == u
  }

  ghost predicate AllInBuffer<T>(logs: seq<Log<T>>, length: int) {
    forall t :: 0 <= t < |logs| ==> InBuffer(logs[t], length)
  }

  /** Each worker's positions hold what that worker alone would leave; the rest is untouched. */
  ghost predicate Outcome<T>(buffer: seq<T>, logs: seq<Log<T>>, result: seq<T>)
    requires AllInBuffer(logs, |buffer|)
  {
    && |result| == |buffer|
    && (forall t, pos :: 0 <= t < |logs| ==> Settled(buffer, logs[t], result, pos))
    && (forall pos :: 0 <= pos < |buffer| && Unwritten(logs, pos) ==> result[pos] == buffer[pos])
  }

  /** If `log` stores to `pos`, then `result` holds there what `log` alone leaves. */
  ghost predicate Settled<T>(buffer: seq<T>, log: Log<T>, result: seq<T>, pos: int)
    requires InBuffer(log, |buffer|) && |result| == |buffer|
  {
    Touches(log, pos) ==> 0 <= pos < |buffer| && result[pos] == Apply(buffer, log)[pos]
  }

  ghost predicate Unwritten<T>(logs: seq<Log<T>>, pos: int) {
    forall t :: 0 <= t < |logs| ==> !Touches(logs[t], pos)
  }

  /** After any part of any schedule, a position holds what its one worker has left there so far. */
  lemma {:induction false} MergedAt<T>(buffer: seq<T>, logs: seq<Log<T>>, picks: seq<nat>, t: nat, pos: int)
    requires AllInBuffer(logs, |buffer|) && Disjoint(logs) && Feasible(logs, picks)
    requires t < |logs| && 0 <= pos < |buffer|
    requires forall u :: 0 <= u < |logs| && Touches(logs[u], pos) ==> u == t
    ensures InBuffer(Merged(logs, picks), |buffer|)
    ensures Apply(buffer, Merged(logs, picks))[pos] == Apply(buffer, logs[t][..Turns(picks, t)])[pos]
    decreases |picks|
  {
    if picks != [] {
      FeasiblePrefix(logs, picks);
      var before := picks[..|picks| - 1];
      var u := picks[|picks| - 1];
      var k := Turns(before, u);
      var w := logs[u][k];
      MergedAt(buffer, logs, before, t, pos);
      assert InBuffer(logs[u], |buffer|);
      ApplyOne(buffer, Merged(logs, before), w);
      if u == t {
        assert logs[t][..k + 1] == logs[t][..k] + [w];
        ApplyOne(buffer, logs[t][..k], w);
        assert Turns(picks, t) == k + 1;
      } else {
        assert Touches(logs[u], w.pos);
        assert w.pos != pos;
        assert Turns(picks, t) == Turns(before, t);
      }
    }
  }

  /** Schedule independence: every complete interleaving of disjoint workers has the same outcome. */
  lemma AnyInterleaving<T>(buffer: seq<T>, logs: seq<Log<T>>, picks: seq<nat>)
    requires AllInBuffer(logs, |buffer|) && Disjoint(logs) && Complete(logs, picks) && logs != []
    ensures InBuffer(Merged(logs, picks), |buffer|)
    ensures Outcome(buffer, logs, Apply(buffer, Merged(logs, picks)))
  {
    MergedInBuffer(buffer, logs, picks);
    var result := Apply(buffer, Merged(logs, picks));
    forall t, pos | 0 <= t < |logs| ensures Settled(buffer, logs[t], result, pos) {
      if Touches(logs[t], pos) {
        MergedAt(buffer, logs, picks, t, pos);
        assert logs[t][..Turns(picks, t)] == logs[t];
      }
    }
    forall pos | 0 <= pos < |buffer| && Unwritten(logs, pos) ensures result[pos] == buffer[pos] {
      MergedAt(buffer, logs, picks, 0, pos);
      assert logs[0][..Turns(picks, 0)] == logs[0];
      ApplyUntouched(buffer, logs[0], pos);
    }
  }

  lemma {:induction false} MergedInBuffer<T>(buffer: seq<T>, logs: seq<Log<T>>, picks: seq<nat>)
    requires AllInBuffer(logs, |buffer|) && Feasible(logs, picks)
    ensures InBuffer(Merged(logs, picks), |buffer|)
    decreases |picks|
  {
    if picks != [] {
      FeasiblePrefix(logs, picks);
      MergedInBuffer(buffer, logs, picks[..|picks| - 1]);
      assert InBuffer(logs[picks[|picks| - 1]], |buffer|);
    }
  }

  /** There is only one outcome. */
  lemma OutcomeUnique<T>(buffer: seq<T>, logs: seq<Log<T>>, a: seq<T>, b: seq<T>)
    requires AllInBuffer(logs, |buffer|)
    requires Outcome(buffer, logs, a) && Outcome(buffer, logs, b)
    ensures a == b
  {
    forall pos | 0 <= pos < |buffer| ensures a[pos] == b[pos] {
      if !Unwritten(logs, pos) {
        var t :| 0 <= t < |logs| && Touches(logs[t], pos);
        assert Settled(buffer, logs[t], a, pos) && Settled(buffer, logs[t], b, pos);
      }
    }
  }

  // ---- running the workers one after another ----

  /** The state after the workers in `done` have run to their end, in some order. */
  ghost predicate Progress<T>(buffer: seq<T>, logs: map<nat, Log<T>>, current: seq<T>) {
    && |current| == |buffer|
    && (forall t :: t in logs ==> InBuffer(logs[t], |buffer|))
    && (forall t, pos :: t in logs ==> Settled(buffer, logs[t], current, pos))
    && (forall pos :: 0 <= pos < |buffer| && UnwrittenBy(logs, pos) ==> current[pos] == buffer[pos])
  }

  ghost predicate UnwrittenBy<T>(logs: map<nat, Log<T>>, pos: int) {
    forall t :: t in logs ==> !Touches(logs[t], pos)
  }

  lemma ProgressStep<T>(buffer: seq<T>, logs: map<nat, Log<T>>, current: seq<T>, t: nat, log: Log<T>)
    requires Progress(buffer, logs, current) && t !in logs && InBuffer(log, |buffer|)
    requires forall u, pos :: u in logs && Touches(logs[u], pos) ==> !Touches(log, pos)
    ensures Progress(buffer, logs[t := log], Apply(current, log))
  {
    var next := logs[t := log];
    var result := Apply(current, log);
    forall u | u in next ensures InBuffer(next[u], |buffer|) {
      assert u != t ==> u in logs && next[u] == logs[u];
    }
    forall u, pos | u in next ensures Settled(buffer, next[u], result, pos) {
      if Touches(next[u], pos) {
        ProgressTouched(buffer, logs, current, t, log, u, pos);
      }
    }
    forall pos | 0 <= pos < |buffer| && UnwrittenBy(next, pos) ensures result[pos] == buffer[pos] {
      assert next[t] == log;
      ApplyUntouched(current, log, pos);
      assert UnwrittenBy(logs, pos) by {
        forall u | u in logs ensures !Touches(logs[u], pos) {
          assert u in next && next[u] == logs[u];
        }
      }
    }
  }

  lemma ProgressTouched<T>(buffer: seq<T>, logs: map<nat, Log<T>>, current: seq<T>, t: nat, log: Log<T>,
                           u: nat, pos: int)
    requires Progress(buffer, logs, current) && t !in logs && InBuffer(log, |buffer|)
    requires forall v, p :: v in logs && Touches(logs[v], p) ==> !Touches(log, p)
    requires u in logs[t := log] && Touches(logs[t := log][u], pos)
    ensures 0 <= pos < |buffer|
    ensures InBuffer(logs[t := log][u], |buffer|)
    ensures Apply(current, log)[pos] == Apply(buffer, logs[t := log][u])[pos]
  {
    if u == t {
      var k :| 0 <= k < |log| && log[k].pos == pos;
      ApplyTouched(current, buffer, log, pos);
    } else {
      assert u in logs && logs[t := log][u] == logs[u] && Settled(buffer, logs[u], current, pos);
      ApplyUntouched(current, log, pos);
    }
  }

  ghost function LogsOf<T>(logs: map<nat, Log<T>>, n: nat): seq<Log<T>>
    requires forall t: nat :: t < n ==> t in logs
  {
    seq(n, t requires 0 <= t < n => logs[t])
  }

  /** `result` is what every complete interleaving of `logs` makes of `buffer`. */
  ghost predicate ScheduleFree<T>(buffer: seq<T>, logs: seq<Log<T>>, result: seq<T>) {
    && AllInBuffer(logs, |buffer|)
    && forall picks :: Complete(logs, picks) ==>
         InBuffer(Merged(logs, picks), |buffer|) && Apply(buffer, Merged(logs, picks)) == result
  }

  /** Running all workers one after another, in any order, gives the schedule-free result. */
  lemma ProgressDone<T>(buffer: seq<T>, logs: map<nat, Log<T>>, n: nat, current: seq<T>)
    requires Progress(buffer, logs, current) && n > 0
    requires forall t: nat :: t in logs <==> t < n
    requires Disjoint(LogsOf(logs, n))
    ensures ScheduleFree(buffer, LogsOf(logs, n), current)
  {
    var all := LogsOf(logs, n);
    forall t | 0 <= t < n ensures InBuffer(all[t], |buffer|) {
      assert t as nat in logs;
    }
    assert Outcome(buffer, all, current) by {
      forall t, pos | 0 <= t < |all| ensures Settled(buffer, all[t], current, pos) {
        assert t as nat in logs && logs[t] == all[t];
      }
      forall pos | 0 <= pos < |buffer| && Unwritten(all, pos) ensures current[pos] == buffer[pos] {
        forall t | t in logs ensures !Touches(logs[t], pos) {
          assert all[t] == logs[t];
        }
        assert UnwrittenBy(logs, pos);
      }
    }
    forall picks | Complete(all, picks)
      ensures InBuffer(Merged(all, picks), |buffer|) && Apply(buffer, Merged(all, picks)) == current
    {
      AnyInterleaving(buffer, all, picks);
      OutcomeUnique(buffer, all, Apply(buffer, Merged(all, picks)), current);
    }
  }

  lemma WithinAt<T>(log: Log<T>, lo: int, hi: int, pos: int)
    requires Within(log, lo, hi)
    ensures Touches(log, pos) ==> lo <= pos < hi
  {
    if Touches(log, pos) {
      var k :| 0 <= k < |log| && log[k].pos == pos;
      assert lo <= log[k].pos < hi;
    }
  }

  /** Workers confined to consecutive windows of the buffer are disjoint. */
  lemma WindowsDisjoint<T>(logs: seq<Log<T>>, bounds: seq<int>)
    requires |bounds| == |logs| + 1 && NonDecreasing(bounds)
    requires forall t :: 0 <= t < |logs| ==> Within(logs[t], bounds[t], bounds[t + 1])
    ensures Disjoint(logs)
  {
    forall t, u, pos | 0 <= t < |logs| && 0 <= u < |logs| && Touches(logs[t], pos) && Touches(logs[u], pos)
      ensures t == u
    {
      WithinAt(logs[t], bounds[t], bounds[t + 1], pos);
      WithinAt(logs[u], bounds[u], bounds[u + 1], pos);
      OneWindow(bounds, t, u, pos);
    }
  }

  // ---- static chunks ----

  /** First element of worker `t`'s chunk when `n` elements are split over `workers`. */
  function ChunkStart(n: nat, workers: nat, t: nat): int
    requires workers > 0
  {
    Min(n, t * ((n + workers - 1) / workers))
  }

  function ChunkBounds(n: nat, workers: nat): seq<int>
    requires workers > 0
  {
    seq(workers + 1, t requires 0 <= t => ChunkStart(n, workers, t))
  }

  /** The chunks are consecutive windows that cover `[0, n)` exactly. */
  lemma ChunksCover(n: nat, workers: nat)
    requires workers > 0
    ensures NonDecreasing(ChunkBounds(n, workers))
    ensures ChunkBounds(n, workers)[0] == 0
    ensures ChunkBounds(n, workers)[workers] == n
  {
    var chunk := (n + workers - 1) / workers;
    var bounds := ChunkBounds(n, workers);
    forall i, j | 0 <= i <= j < |bounds| ensures bounds[i] <= bounds[j] {
      assert i * chunk <= j * chunk;
    }
    assert n + workers - 1 < chunk * workers + workers;
  }

  /** Non-decreasing bounds place every element in exactly one window. */
  lemma WindowOf(bounds: seq<int>, i: int) returns (t: nat)
    requires |bounds| > 0 && bounds[0] <= i < bounds[|bounds| - 1]
    ensures t + 1 < |bounds| && bounds[t] <= i < bounds[t + 1]
  {
    t := 0;
    while bounds[t + 1] <= i
      invariant t + 1 < |bounds| && bounds[t] <= i
      decreases |bounds| - t
    {
      t := t + 1;
    }
  }

  /** The workers that have run so far, each confined to its window. */
  ghost predicate Windowed<T>(logs: map<nat, Log<T>>, bounds: seq<int>) {
    && NonDecreasing(bounds)
    && forall t :: t in logs ==> t + 1 < |bounds| && Within(logs[t], bounds[t], bounds[t + 1])
  }

  lemma WindowedStep<T>(buffer: seq<T>, logs: map<nat, Log<T>>, current: seq<T>, t: nat, log: Log<T>,
                        bounds: seq<int>)
    requires Progress(buffer, logs, current) && Windowed(logs, bounds) && t !in logs
    requires t + 1 < |bounds| && Within(log, bounds[t], bounds[t + 1]) && InBuffer(log, |buffer|)
    ensures Progress(buffer, logs[t := log], Apply(current, log))
    ensures Windowed(logs[t := log], bounds)
  {
    forall u, pos | u in logs && Touches(logs[u], pos) ensures !Touches(log, pos) {
      WithinAt(logs[u], bounds[u], bounds[u + 1], pos);
      WithinAt(log, bounds[t], bounds[t + 1], pos);
      OneWindow(bounds, t, u, pos);
    }
    ProgressStep(buffer, logs, current, t, log);
  }

  lemma OneWindow(bounds: seq<int>, t: nat, u: nat, pos: int)
    requires NonDecreasing(bounds) && t + 1 < |bounds| && u + 1 < |bounds|
    ensures bounds[t] <= pos < bounds[t + 1] && bounds[u] <= pos < bounds[u + 1] ==> t == u
  {
  }

  /** A permutation of the workers leaves none out. */
  lemma AllRun(order: seq<int>, workers: nat)
    requires IsPermutation(order, workers)
    ensures order[..workers] == order
    ensures forall u: nat :: u in order <==> u < workers
  {
    forall u: nat ensures u in order <==> u < workers {
      if u < workers {
        var k := PermutationCovers(order, workers, u);
      }
    }
  }

  /** The order a thread pool happens to pick; callers may rely only on its completeness. */
  method AnyOrder(n: nat) returns (order: seq<int>)
    ensures IsPermutation(order, n)
  {
    order := seq(n, i => i);
  }

  /** The thread count a kernel resolves; callers may rely only on there being a thread. */
  method ThreadCount() returns (n: nat)
    ensures n > 0
  {
    n := 1;
  }

  /** All windows have run: the buffer is the one every interleaving leaves. */
  lemma WindowedDone<T>(buffer: seq<T>, logs: map<nat, Log<T>>, n: nat, current: seq<T>, bounds: seq<int>)
    requires Progress(buffer, logs, current) && Windowed(logs, bounds) && n > 0 && |bounds| == n + 1
    requires forall t: nat :: t in logs <==> t < n
    ensures ScheduleFree(buffer, LogsOf(logs, n), current)
  {
    var all := LogsOf(logs, n);
    forall t | 0 <= t < n ensures Within(all[t], bounds[t], bounds[t + 1]) {
      assert t as nat in logs;
    }
    WindowsDisjoint(all, bounds);
    ProgressDone(buffer, logs, n, current);
  }
}
