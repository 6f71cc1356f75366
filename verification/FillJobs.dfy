/**
 Fill jobs: each copies one block into its own window of a shared output. Jobs run on a
 thread pool in any order, and their stores may interleave.
 */
module FillJobs {
  import opened Sequences
  import opened Schedule

  datatype FillJob<T> = FillJob(at: nat, data: seq<T>)

  function JobEnd<T>(job: FillJob<T>): int { job.at + |job.data| }

  /** Jobs write inside the buffer, into windows of their own. */
  ghost predicate ValidJobs<T>(jobs: seq<FillJob<T>>, size: int) {
    && (forall j :: 0 <= j < |jobs| ==> JobEnd(jobs[j]) <= size)
    && forall j, k :: 0 <= j < |jobs| && 0 <= k < |jobs| && j != k ==>
         JobEnd(jobs[j]) <= jobs[k].at || JobEnd(jobs[k]) <= jobs[j].at
  }

  ghost function JobLog<T>(job: FillJob<T>): Log<T> { BlockLog(job.at, job.data) }

  ghost function JobLogs<T>(jobs: seq<FillJob<T>>): seq<Log<T>> {
    seq(|jobs|, j requires 0 <= j < |jobs| => JobLog(jobs[j]))
  }

  ghost predicate JobDone<T>(job: FillJob<T>, out: seq<T>) {
    JobEnd(job) <= |out| && out[job.at..JobEnd(job)] == job.data
  }

  ghost predicate OutsideJobs<T>(jobs: seq<FillJob<T>>, pos: int) {
    forall j :: 0 <= j < |jobs| ==> !(jobs[j].at <= pos < JobEnd(jobs[j]))
  }

  /** All jobs' blocks are in place and nothing else has changed. */
  ghost predicate JobsFilled<T>(jobs: seq<FillJob<T>>, before: seq<T>, after: seq<T>) {
    && |after| == |before|
    && (forall j :: 0 <= j < |jobs| ==> JobDone(jobs[j], after))
    && forall pos :: 0 <= pos < |before| && OutsideJobs(jobs, pos) ==> after[pos] == before[pos]
  }

  lemma JobTouches<T>(job: FillJob<T>, pos: int)
    ensures Touches(JobLog(job), pos) <==> job.at <= pos < JobEnd(job)
  {
    if job.at <= pos < JobEnd(job) {
      assert JobLog(job)[pos - job.at].pos == pos;
    }
  }

  method RunJob<T>(out: array<T>, job: FillJob<T>)
    requires JobEnd(job) <= out.Length
    modifies out
    ensures InBuffer(JobLog(job), out.Length) && out[..] == Apply(old(out[..]), JobLog(job))
    ensures JobDone(job, out[..])
  {
    forall k | 0 <= k < |job.data| {
      out[job.at + k] := job.data[k];
    }
    ApplyBlock(old(out[..]), job.at, job.data);
    assert out[..] == old(out[..])[..job.at] + job.data + old(out[..])[JobEnd(job)..];
  }

  /** A job leaves the other jobs' windows alone. */
  lemma JobKeeps<T>(current: seq<T>, jobs: seq<FillJob<T>>, j: nat, k: nat)
    requires ValidJobs(jobs, |current|) && j < |jobs| && k < |jobs| && j != k
    requires InBuffer(JobLog(jobs[j]), |current|) && JobDone(jobs[k], current)
    ensures JobDone(jobs[k], Apply(current, JobLog(jobs[j])))
  {
    var after := Apply(current, JobLog(jobs[j]));
    forall pos | jobs[k].at <= pos < JobEnd(jobs[k]) ensures after[pos] == current[pos] {
      JobTouches(jobs[j], pos);
      ApplyUntouched(current, JobLog(jobs[j]), pos);
    }
    assert after[jobs[k].at..JobEnd(jobs[k])] == current[jobs[k].at..JobEnd(jobs[k])];
  }

  ghost function LogsSoFar<T>(jobs: seq<FillJob<T>>, done: set<nat>): map<nat, Log<T>>
    requires forall j :: j in done ==> j < |jobs|
  {
    map j | j in done :: JobLog(jobs[j])
  }

  lemma JobProgress<T>(buffer: seq<T>, jobs: seq<FillJob<T>>, done: set<nat>, current: seq<T>, j: nat)
    requires ValidJobs(jobs, |buffer|) && j < |jobs| && j !in done
    requires forall k :: k in done ==> k < |jobs|
    requires Progress(buffer, LogsSoFar(jobs, done), current) && InBuffer(JobLog(jobs[j]), |buffer|)
    ensures Progress(buffer, LogsSoFar(jobs, done + {j}), Apply(current, JobLog(jobs[j])))
  {
    var logs := LogsSoFar(jobs, done);
    forall k, pos | k in logs && Touches(logs[k], pos) ensures !Touches(JobLog(jobs[j]), pos) {
      JobTouches(jobs[k], pos);
      JobTouches(jobs[j], pos);
    }
    ProgressStep(buffer, logs, current, j, JobLog(jobs[j]));
    assert LogsSoFar(jobs, done + {j}) == logs[j := JobLog(jobs[j])];
  }

  /** `_run_fill_jobs`: any order, and any interleaving of the jobs' stores, fills the same buffer. */
  method RunFillJobs<T>(out: array<T>, jobs: seq<FillJob<T>>, order: seq<int>)
    requires ValidJobs(jobs, out.Length) && IsPermutation(order, |jobs|)
    modifies out
    ensures JobsFilled(jobs, old(out[..]), out[..])
    ensures jobs != [] ==> ScheduleFree(old(out[..]), JobLogs(jobs), out[..])
  {
    ghost var done: set<nat> := {};
    for i := 0 to |jobs|
      invariant forall j: nat :: j in done <==> j in order[..i]
      invariant forall j :: j in done ==> j < |jobs|
      invariant Progress(old(out[..]), LogsSoFar(jobs, done), out[..])
      invariant forall j :: j in done ==> JobDone(jobs[j], out[..])
    {
      var j: nat := order[i];
      assert j !in done;
      ghost var current := out[..];
      RunJob(out, jobs[j]);
      JobProgress(old(out[..]), jobs, done, current, j);
      forall k | k in done ensures JobDone(jobs[k], out[..]) {
        JobKeeps(current, jobs, j, k);
      }
      done := done + {j};
    }
    AllRun(order, |jobs|);
    AllJobsFilled(old(out[..]), jobs, done, out[..]);
  }

  lemma AllJobsFilled<T>(buffer: seq<T>, jobs: seq<FillJob<T>>, done: set<nat>, current: seq<T>)
    requires ValidJobs(jobs, |buffer|) && forall j: nat :: j in done <==> j < |jobs|
    requires Progress(buffer, LogsSoFar(jobs, done), current)
    requires forall j :: j in done ==> JobDone(jobs[j], current)
    ensures JobsFilled(jobs, buffer, current)
    ensures jobs != [] ==> ScheduleFree(buffer, JobLogs(jobs), current)
  {
    var logs := LogsSoFar(jobs, done);
    forall j | 0 <= j < |jobs| ensures JobDone(jobs[j], current) {
      assert j as nat in done;
    }
    forall pos | 0 <= pos < |buffer| && OutsideJobs(jobs, pos) ensures current[pos] == buffer[pos] {
      forall j | j in logs ensures !Touches(logs[j], pos) {
        JobTouches(jobs[j], pos);
      }
      assert UnwrittenBy(logs, pos);
    }
    if jobs != [] {
      assert LogsOf(logs, |jobs|) == JobLogs(jobs);
      forall t, u, pos | 0 <= t < |jobs| && 0 <= u < |jobs| &&
                         Touches(JobLogs(jobs)[t], pos) && Touches(JobLogs(jobs)[u], pos)
        ensures t == u
      {
        JobTouches(jobs[t], pos);
        JobTouches(jobs[u], pos);
      }
      ProgressDone(buffer, logs, |jobs|, current);
    }
  }

  // ---- jobs whose windows follow one another ----

  /** Job `j` fills `[bounds[j], bounds[j + 1])`. */
  ghost predicate Consecutive<T>(jobs: seq<FillJob<T>>, bounds: seq<int>) {
    && |bounds| == |jobs| + 1 && bounds[0] == 0
    && forall j :: 0 <= j < |jobs| ==> jobs[j].at == bounds[j] && JobEnd(jobs[j]) == bounds[j + 1]
  }

  function JobData<T>(jobs: seq<FillJob<T>>): seq<seq<T>> {
    seq(|jobs|, j requires 0 <= j < |jobs| => jobs[j].data)
  }

  lemma ConsecutiveValid<T>(jobs: seq<FillJob<T>>, bounds: seq<int>)
    requires Consecutive(jobs, bounds)
    ensures PrefixSums(bounds, Lengths(JobData(jobs)))
    ensures |Flat(JobData(jobs))| == bounds[|jobs|]
    ensures ValidJobs(jobs, bounds[|jobs|])
  {
    forall j | 0 <= j < |jobs| ensures bounds[j + 1] == bounds[j] + Lengths(JobData(jobs))[j] {
      assert JobEnd(jobs[j]) == jobs[j].at + |jobs[j].data|;
    }
    PrefixSumsSorted(bounds, Lengths(JobData(jobs)));
    FlatLength(JobData(jobs), bounds);
    forall j | 0 <= j < |jobs| ensures JobEnd(jobs[j]) <= bounds[|jobs|] {
      assert bounds[j + 1] <= bounds[|jobs|];
    }
    forall j, k | 0 <= j < |jobs| && 0 <= k < |jobs| && j != k
      ensures JobEnd(jobs[j]) <= jobs[k].at || JobEnd(jobs[k]) <= jobs[j].at
    {
      assert if j < k then bounds[j + 1] <= bounds[k] else bounds[k + 1] <= bounds[j];
    }
  }

  /** Consecutive windows, all done, hold the concatenation of the blocks. */
  lemma ConsecutiveFilled<T>(jobs: seq<FillJob<T>>, bounds: seq<int>, out: seq<T>)
    requires Consecutive(jobs, bounds) && |out| == bounds[|jobs|]
    requires forall j :: 0 <= j < |jobs| ==> JobDone(jobs[j], out)
    ensures out == Flat(JobData(jobs))
  {
    ConsecutiveValid(jobs, bounds);
    var data := JobData(jobs);
    forall g | 0 <= g < |out| ensures out[g] == Flat(data)[g] {
      var j := FlatLocate(data, bounds, g);
      assert JobDone(jobs[j], out);
      assert out[jobs[j].at..JobEnd(jobs[j])][g - bounds[j]] == data[j][g - bounds[j]];
    }
  }
}
