/**
 Compaction as a step machine: lock, read, write a target, release, rename. A step may
 fail wherever the code can raise, a writer may hold the lock first, and the machine may
 crash after any step. A crash keeps what has been synced; of an unsynced file nothing
 is known, and the directory may come back in any version it has had.
 */
module CompactProtocol {
  import opened Sequences
  import opened Files
  import opened Compaction
  import RecordIndex

  type Inode = nat

  type Directory = map<string, Inode>

  datatype Node = Node(bytes: seq<Byte>, synced: bool)

  datatype Lock = Free | Ours | Writers

  datatype Disk = Disk(names: Directory, versions: seq<Directory>, nodes: map<Inode, Node>, lock: Lock)

  /** Why the run ends. `Stranded`: the target is complete, but unlock, close or rename failed. */
  datatype Outcome = Done | Missing | Contended | Unreadable | CopyFailed | WriteFailed | UnlinkFailed | Stranded

  datatype Phase =
    | Start
    | FdOpen
    | Locked
    | HeaderRead
    | CopyingWhole
    | IndexRead
    | Writing
    | Cleaning
    | Written
    | Released
    | Closed
    | Finally(outcome: Outcome)
    | Ended(outcome: Outcome)

  /** One call: `target` is the temporary name, or the output path when not in place. */
  datatype Job = Job(src: string, target: string, inPlace: bool, single: seq<Byte> -> bool,
                     compacted: seq<Byte> -> seq<Byte>)

  /**
   `source` and `made` are the inodes of the source and of the target, `base` is the source
   when it was locked, `stale` says whether the target name was taken from the start, and
   `created` whether this run has opened it.
   */
  datatype State = State(phase: Phase, fdOpen: bool, lockAcquired: bool, disk: Disk, source: Inode, made: Inode,
                         base: seq<Byte>, stale: bool, created: bool)

  // ---- file system operations ----

  /** `open(path, "wb")`: truncate the file, or make a new one. */
  ghost predicate Create(d: Disk, path: string, e: Disk, made: Inode) {
    && e.lock == d.lock
    && (if path in d.names then made == d.names[path] && e.names == d.names && e.versions == d.versions
        else made !in d.nodes && e.names == d.names[path := made] && e.versions == d.versions + [e.names])
    && e.nodes == d.nodes[made := Node([], false)]
  }

  function SetNode(d: Disk, inode: Inode, node: Node): Disk { d.(nodes := d.nodes[inode := node]) }

  function SetNames(d: Disk, names: Directory): Disk { d.(names := names, versions := d.versions + [names]) }

  function Unlink(d: Disk, path: string): Disk {
    if path in d.names then SetNames(d, d.names - {path}) else d
  }

  /** `os.replace`: one directory change. */
  function Rename(d: Disk, from: string, to: string): Disk
    requires from in d.names
  {
    SetNames(d, (d.names - {from})[to := d.names[from]])
  }

  /** What a restart may find. */
  ghost predicate Crash(d: Disk, e: Disk) {
    && e.names in d.versions
    && e.nodes.Keys == d.nodes.Keys
    && forall i :: i in d.nodes && d.nodes[i].synced ==> e.nodes[i] == d.nodes[i]
  }

  function Content(d: Disk, path: string): Option<seq<Byte>> {
    if path in d.names && d.names[path] in d.nodes then Some(d.nodes[d.names[path]].bytes) else None
  }

  // ---- the steps of `compact_file` ----

  ghost predicate Ready(j: Job, s: State) {
    && s.phase == Start && !s.fdOpen && !s.lockAcquired && !s.created && s.disk.lock != Ours
    && j.src != j.target
    && (forall p :: p in s.disk.names ==> s.disk.names[p] in s.disk.nodes)
    && s.disk.versions == [s.disk.names]
    && (j.src in s.disk.names ==>
          && s.source == s.disk.names[j.src]
          && s.disk.nodes[s.source] == Node(s.base, true))
    && (s.stale <==> j.target in s.disk.names)
  }

  /** The target's name is a hard link of the source; the code compares resolved paths only. */
  ghost predicate Linked(j: Job, s: State) {
    j.src in s.disk.names && j.target in s.disk.names && s.disk.names[j.target] == s.source
  }

  ghost predicate Init(j: Job, s: State) { Ready(j, s) && !Linked(j, s) }

  function Goto(s: State, phase: Phase): State { s.(phase := phase) }

  /** One step of the code, with every exit an exception can take. */
  ghost predicate Step(j: Job, s: State, t: State) {
    match s.phase
    case Start =>
      t == if j.src in s.disk.names then s.(phase := FdOpen, fdOpen := true) else Goto(s, Ended(Missing))
    case FdOpen =>
      t == if s.disk.lock == Free
           then s.(phase := Locked, lockAcquired := true, disk := s.disk.(lock := Ours))
           else Goto(s, Finally(Contended))
    case Locked => t == Goto(s, HeaderRead) || t == Goto(s, Finally(Unreadable))
    case HeaderRead =>
      if j.single(s.base) then
        if j.inPlace then t == Goto(s, Finally(Done))
        else t == Goto(s, Finally(CopyFailed)) || (!Linked(j, s) && CreateTarget(j, s, t, CopyingWhole))
      else t == Goto(s, IndexRead) || t == Goto(s, Finally(Unreadable))
    case CopyingWhole =>
      || t == Goto(s, Finally(CopyFailed))
      || (exists bytes :: WriteSome(s, t, bytes))
      || t == s.(phase := Finally(Done), disk := SetNode(s.disk, s.made, Node(s.base, false)))
    case IndexRead => t == Goto(s, Cleaning) || CreateTarget(j, s, t, Writing)
    case Writing =>
      || t == Goto(s, Cleaning)
      || (exists bytes :: WriteSome(s, t, bytes))
      || t == s.(phase := Written, disk := SetNode(s.disk, s.made, Node(j.compacted(s.base), true)))
    case Cleaning =>
      || t == s.(phase := Finally(WriteFailed), disk := Unlink(s.disk, j.target))
      || t == Goto(s, Finally(UnlinkFailed))
    case Written =>
      || t == s.(phase := Released, lockAcquired := false, disk := s.disk.(lock := Free))
      || t == Goto(s, Finally(Stranded))
    case Released => t == s.(phase := Closed, fdOpen := false) || t == Goto(s, Finally(Stranded))
    case Closed =>
      if j.inPlace then
        || (j.target in s.disk.names && t == s.(phase := Finally(Done), disk := Rename(s.disk, j.target, j.src)))
        || t == Goto(s, Finally(Stranded))
      else t == Goto(s, Finally(Done))
    case Finally(outcome) =>
      t == s.(phase := Ended(outcome), fdOpen := false, lockAcquired := false,
              disk := if s.lockAcquired then s.disk.(lock := Free) else s.disk)
    case Ended(_) => false
  }

  ghost predicate CreateTarget(j: Job, s: State, t: State, phase: Phase) {
    && Create(s.disk, j.target, t.disk, t.made)
    && t == s.(phase := phase, disk := t.disk, made := t.made, created := true)
  }

  /** Any bytes so far: buffered writes reach the file in any portions. */
  ghost predicate WriteSome(s: State, t: State, bytes: seq<Byte>) {
    t == s.(disk := SetNode(s.disk, s.made, Node(bytes, false)))
  }

  /** A writer takes the lock, commits a new version of the source, and releases. */
  ghost predicate WriterStep(s: State, t: State) {
    || (s.disk.lock == Free && t == s.(disk := s.disk.(lock := Writers)))
    || (s.disk.lock == Writers && t == s.(disk := s.disk.(lock := Free)))
    || (s.disk.lock == Writers && s.source in s.disk.nodes
        && exists bytes :: t == s.(base := bytes, disk := SetNode(s.disk, s.source, Node(bytes, true))))
  }

  /** Between the unlock and the rename no writer comes in; afterwards the run is over. */
  ghost predicate Next(j: Job, s: State, t: State) {
    Step(j, s, t) || ((s.phase in {Start, FdOpen} || HasLock(s.phase)) && WriterStep(s, t))
  }

  ghost predicate Steps(j: Job, run: seq<State>) {
    && run != [] && Ready(j, run[0])
    && forall i :: 0 <= i < |run| - 1 ==> Next(j, run[i], run[i + 1])
  }

  ghost predicate Run(j: Job, run: seq<State>) { Steps(j, run) && Init(j, run[0]) }

  // ---- the invariant ----

  ghost predicate HasLock(phase: Phase) {
    phase in {Locked, HeaderRead, CopyingWhole, IndexRead, Writing, Cleaning, Written}
  }

  /** The source name leads to the source, or, once renamed in place, to the complete target. */
  ghost predicate SourceNamed(j: Job, s: State, names: Directory) {
    && j.src in names
    && (names[j.src] == s.source ||
        (j.inPlace && names[j.src] == s.made && s.made in s.disk.nodes
         && s.disk.nodes[s.made] == Node(j.compacted(s.base), true) && s.phase in {Finally(Done), Ended(Done)}))
  }

  ghost predicate Safe(j: Job, s: State) {
    && s.source in s.disk.nodes && s.disk.nodes[s.source] == Node(s.base, true)
    && s.disk.names in s.disk.versions
    && (forall v :: v in s.disk.versions ==> SourceNamed(j, s, v))
    && (s.phase in {CopyingWhole, Writing, Written, Released, Closed} ==>
          s.made != s.source && j.target in s.disk.names && s.disk.names[j.target] == s.made && s.made in s.disk.nodes)
    && (j.target in s.disk.names ==> s.disk.names[j.target] != s.source)
    && (s.phase in {Written, Released, Closed} ==> s.disk.nodes[s.made] == Node(j.compacted(s.base), true))
    && (s.phase != Finally(Done) && s.phase != Ended(Done) ==> j.src in s.disk.names && s.disk.names[j.src] == s.source)
  }

  ghost predicate LockHeld(s: State) {
    && (s.lockAcquired <==> s.disk.lock == Ours)
    && (HasLock(s.phase) ==> s.lockAcquired)
    && (s.phase in {Start, FdOpen, Released, Closed} || s.phase.Ended? ==> !s.lockAcquired)
    && (s.phase.Ended? || s.phase in {Start, Closed} ==> !s.fdOpen)
  }

  predicate Is(phase: Phase, outcome: Outcome) { phase == Finally(outcome) || phase == Ended(outcome) }

  /** The target's name is taken from the start, or since this run has opened it, until it is unlinked or renamed. */
  ghost predicate TargetTracked(j: Job, s: State) {
    && (j.target in s.disk.names <==>
          (s.stale || s.created) && !Is(s.phase, WriteFailed) && !(j.inPlace && s.created && Is(s.phase, Done)))
    && (s.created ==> s.phase in {CopyingWhole, Writing, Cleaning, Written, Released, Closed} ||
                      Is(s.phase, Done) || (Is(s.phase, CopyFailed) && !j.inPlace) || Is(s.phase, WriteFailed) ||
                      Is(s.phase, UnlinkFailed) || Is(s.phase, Stranded))
    && (s.phase in {CopyingWhole, Writing, Written, Released, Closed} ==> s.created)
    && (s.phase == CopyingWhole ==> !j.inPlace && j.single(s.base))
    && (s.phase in {IndexRead, Writing, Cleaning, Written, Released, Closed} ==> !j.single(s.base))
    && (Is(s.phase, Stranded) ==>
          && s.created && s.made in s.disk.nodes && s.disk.nodes[s.made] == Node(j.compacted(s.base), true)
          && j.target in s.disk.names && s.disk.names[j.target] == s.made)
    && (Is(s.phase, Done) ==>
          && (s.created <==> !(j.inPlace && j.single(s.base)))
          && Content(s.disk, if j.inPlace then j.src else j.target) == Some(Result(j, s.base)))
  }

  /** What the call is to leave: a source of one record as it is, any other one compacted. */
  function Result(j: Job, base: seq<Byte>): seq<Byte> {
    if j.single(base) then base else j.compacted(base)
  }

  ghost predicate Inv(j: Job, s: State) {
    && j.src != j.target && s.phase != Finally(Missing)
    && LockHeld(s) && TargetTracked(j, s)
    && (s.phase == Start || s.phase == Ended(Missing) || Safe(j, s))
    && (s.phase == Start ==> Init(j, s))
    && (s.phase == Ended(Missing) ==> j.src !in s.disk.names)
  }

  lemma InitInv(j: Job, s: State)
    requires Init(j, s)
    ensures Inv(j, s)
  {
  }

  lemma WriterKeepsInv(j: Job, s: State, t: State)
    requires Inv(j, s) && WriterStep(s, t) && (s.phase in {Start, FdOpen} || HasLock(s.phase))
    ensures Inv(j, t)
  {
  }

  lemma EarlyStepKeepsInv(j: Job, s: State, t: State)
    requires Inv(j, s) && Step(j, s, t) && s.phase in {Start, FdOpen, Locked}
    ensures Inv(j, t)
  {
  }

  lemma CreateKeepsInv(j: Job, s: State, t: State, phase: Phase)
    requires Inv(j, s) && CreateTarget(j, s, t, phase)
    requires
      || (s.phase == IndexRead && phase == Writing)
      || (s.phase == HeaderRead && phase == CopyingWhole && !j.inPlace && j.single(s.base))
    ensures Inv(j, t)
  {
  }

  lemma HeaderKeepsInv(j: Job, s: State, t: State)
    requires Inv(j, s) && Step(j, s, t) && s.phase == HeaderRead
    ensures Inv(j, t)
  {
    if t.phase == CopyingWhole {
      CreateKeepsInv(j, s, t, CopyingWhole);
    }
  }

  lemma CopyKeepsInv(j: Job, s: State, t: State)
    requires Inv(j, s) && Step(j, s, t) && s.phase == CopyingWhole
    ensures Inv(j, t)
  {
  }

  lemma WriteKeepsInv(j: Job, s: State, t: State)
    requires Inv(j, s) && Step(j, s, t) && s.phase in {IndexRead, Writing}
    ensures Inv(j, t)
  {
    if s.phase == IndexRead && t.phase != Cleaning {
      CreateKeepsInv(j, s, t, Writing);
    }
  }

  lemma ReleaseKeepsInv(j: Job, s: State, t: State)
    requires Inv(j, s) && Step(j, s, t) && s.phase in {Written, Released}
    ensures Inv(j, t)
  {
    hide CreateTarget;
    hide WriteSome;
    hide Rename;
    hide Unlink;
    hide SetNode;
  }

  lemma CleaningKeepsInv(j: Job, s: State, t: State)
    requires Inv(j, s) && Step(j, s, t) && s.phase == Cleaning
    ensures Inv(j, t)
  {
  }

  lemma RenameKeepsInv(j: Job, s: State, t: State)
    requires Inv(j, s) && Step(j, s, t) && s.phase == Closed
    ensures Inv(j, t)
  {
  }

  lemma FinallyKeepsInv(j: Job, s: State, t: State)
    requires Inv(j, s) && Step(j, s, t) && s.phase.Finally?
    ensures Inv(j, t)
  {
  }

  lemma NextKeepsInv(j: Job, s: State, t: State)
    requires Inv(j, s) && Next(j, s, t)
    ensures Inv(j, t)
  {
    if !Step(j, s, t) {
      WriterKeepsInv(j, s, t);
    } else if s.phase in {Start, FdOpen, Locked} {
      EarlyStepKeepsInv(j, s, t);
    } else if s.phase == HeaderRead {
      HeaderKeepsInv(j, s, t);
    } else if s.phase == CopyingWhole {
      CopyKeepsInv(j, s, t);
    } else if s.phase in {IndexRead, Writing} {
      WriteKeepsInv(j, s, t);
    } else if s.phase == Cleaning {
      CleaningKeepsInv(j, s, t);
    } else if s.phase in {Written, Released} {
      ReleaseKeepsInv(j, s, t);
    } else if s.phase == Closed {
      RenameKeepsInv(j, s, t);
    } else {
      FinallyKeepsInv(j, s, t);
    }
  }

  lemma {:induction false} RunKeepsInv(j: Job, run: seq<State>, i: nat)
    requires Run(j, run) && i < |run|
    ensures Inv(j, run[i])
    decreases i
  {
    if i == 0 {
      InitInv(j, run[0]);
    } else {
      RunKeepsInv(j, run, i - 1);
      NextKeepsInv(j, run[i - 1], run[i - 1 + 1]);
    }
  }

  // ---- what every run guarantees ----

  /**
   Crash safety: whatever step a run has reached, and whatever a crash then leaves, the
   source path holds the complete old file or, only after a finished in-place run, the
   complete compacted file.
   */
  lemma SourceAlwaysComplete(j: Job, run: seq<State>, i: nat, after: Disk)
    requires Run(j, run) && i < |run| && j.src in run[0].disk.names
    requires Crash(run[i].disk, after) || after == run[i].disk
    ensures Complete(j, run[i], after)
  {
    RunKeepsInv(j, run, i);
    SourceStays(j, run, i);
    var s := run[i];
    assert after.names in s.disk.versions;
    assert s.phase != Start ==> SourceNamed(j, s, after.names);
  }

  ghost predicate Complete(j: Job, s: State, after: Disk) {
    || Content(after, j.src) == Some(s.base)
    || (j.inPlace && Is(s.phase, Done) && Content(after, j.src) == Some(j.compacted(s.base)))
  }

  ghost predicate NotMissing(j: Job, s: State) {
    && !Is(s.phase, Missing)
    && (s.phase == Start ==> j.src in s.disk.names)
  }

  lemma WriterNotMissing(j: Job, s: State, t: State)
    requires WriterStep(s, t) && NotMissing(j, s)
    ensures NotMissing(j, t)
  {
  }

  lemma StepNotMissing(j: Job, s: State, t: State)
    requires Step(j, s, t) && NotMissing(j, s)
    ensures NotMissing(j, t)
  {
    if s.phase in {FdOpen, Locked, HeaderRead, CopyingWhole, IndexRead, Writing} {
      EarlyNotMissing(j, s, t);
    } else {
      hide SetNode;
      hide Unlink;
      hide Rename;
    }
  }

  lemma EarlyNotMissing(j: Job, s: State, t: State)
    requires Step(j, s, t) && s.phase in {FdOpen, Locked, HeaderRead, CopyingWhole, IndexRead, Writing}
    ensures t.phase != Start && !Is(t.phase, Missing)
  {
    hide Create;
    hide SetNode;
    hide Linked;
  }

  /** A run that starts with a source has one throughout. */
  lemma {:induction false} SourceStays(j: Job, run: seq<State>, i: nat)
    requires Run(j, run) && i < |run| && j.src in run[0].disk.names
    ensures NotMissing(j, run[i])
    decreases i
  {
    hide Step;
    hide WriterStep;
    if i > 0 {
      SourceStays(j, run, i - 1);
      assert Next(j, run[i - 1], run[i - 1 + 1]);
      if Step(j, run[i - 1], run[i]) {
        StepNotMissing(j, run[i - 1], run[i]);
      } else {
        WriterNotMissing(j, run[i - 1], run[i]);
      }
    }
  }

  /**
   The source survives every run from `s` exactly if the target is not another name of its
   inode: opening that name truncates the source.
   */
  lemma SurvivesIffNotLinked(j: Job, s: State)
    requires Ready(j, s) && j.src in s.disk.names && s.disk.lock == Free && !j.single(s.base) && s.base != []
    ensures !Linked(j, s) <==> forall run: seq<State>, i ::
              Steps(j, run) && run[0] == s && 0 <= i < |run| ==> Complete(j, run[i], run[i].disk)
  {
    if Linked(j, s) {
      var run := LinkTruncated(j, s);
      assert !Complete(j, run[5], run[5].disk);
    } else {
      forall run: seq<State>, i | Steps(j, run) && run[0] == s && 0 <= i < |run|
        ensures Complete(j, run[i], run[i].disk)
      {
        SourceAlwaysComplete(j, run, i, run[i].disk);
      }
    }
  }

  /** The run that reaches the opened target. */
  lemma LinkTruncated(j: Job, s: State) returns (run: seq<State>)
    requires Ready(j, s) && Linked(j, s) && s.disk.lock == Free && !j.single(s.base)
    ensures Steps(j, run) && run[0] == s && |run| == 6
    ensures run[5].phase == Writing && run[5].base == s.base && Content(run[5].disk, j.src) == Some([])
  {
    run := ToIndex(j, s);
    var c := run[4];
    var t := c.(phase := Writing, made := s.source, created := true,
                disk := SetNode(c.disk, s.source, Node([], false)));
    assert Create(c.disk, j.target, t.disk, s.source);
    assert CreateTarget(j, c, t, Writing) && Step(j, c, t);
    StepsNext(j, run, t);
    run := run + [t];
  }

  /** The lock: never taken from a writer, and neither it nor the descriptor is kept by a run that has ended. */
  lemma LockReleased(j: Job, run: seq<State>, i: nat)
    requires Run(j, run) && i < |run| && run[i].phase.Ended?
    ensures run[i].disk.lock != Ours && !run[i].lockAcquired && !run[i].fdOpen
  {
    RunKeepsInv(j, run, i);
  }

  /** While a writer holds the lock the run neither reads nor writes: it is before the lock, or giving up. */
  lemma WriterUndisturbed(j: Job, run: seq<State>, i: nat)
    requires Run(j, run) && i < |run| && run[i].disk.lock == Writers
    ensures !HasLock(run[i].phase)
  {
    RunKeepsInv(j, run, i);
  }

  /**
   The module promises that on any error the temporary file is removed. Exactly: a run that
   has ended has left a target if the name was there before or it has opened one, except
   where writing failed and the unlink worked, or an in-place run renamed it. In place,
   where the name was free, that is after a failed unlock, close or rename, or a failed
   unlink of a target it had opened.
   */
  lemma TemporaryRemoved(j: Job, run: seq<State>, i: nat)
    requires Run(j, run) && i < |run| && run[i].phase.Ended?
    ensures j.target in run[i].disk.names <==>
              && (j.target in run[0].disk.names || run[i].created)
              && run[i].phase != Ended(WriteFailed)
              && !(j.inPlace && run[i].created && run[i].phase == Ended(Done))
    ensures j.inPlace && j.target !in run[0].disk.names ==>
              (j.target in run[i].disk.names <==>
               run[i].phase == Ended(Stranded) || (run[i].phase == Ended(UnlinkFailed) && run[i].created))
  {
    RunKeepsInv(j, run, i);
    StaleStays(j, run, i);
  }

  lemma {:induction false} StaleStays(j: Job, run: seq<State>, i: nat)
    requires Run(j, run) && i < |run|
    ensures run[i].stale == run[0].stale
    decreases i
  {
    hide Step;
    if i > 0 {
      StaleStays(j, run, i - 1);
      assert Next(j, run[i - 1], run[i - 1 + 1]);
      if Step(j, run[i - 1], run[i]) {
        StepKeepsStale(j, run[i - 1], run[i]);
      }
    }
  }

  lemma StepKeepsStale(j: Job, s: State, t: State)
    requires Step(j, s, t)
    ensures t.stale == s.stale && t.source == s.source
  {
    hide Create;
    hide SetNode;
    hide Unlink;
    hide Rename;
    hide Linked;
    if s.phase in {HeaderRead, IndexRead, CopyingWhole, Writing} {
      WritingKeepsStale(j, s, t);
    }
  }

  lemma WritingKeepsStale(j: Job, s: State, t: State)
    requires Step(j, s, t) && s.phase in {HeaderRead, IndexRead, CopyingWhole, Writing}
    ensures t.stale == s.stale && t.source == s.source
  {
    hide Create;
    hide SetNode;
  }

  /** After a failed unlock, close or rename the target stays behind, complete, next to an untouched source. */
  lemma StrandedComplete(j: Job, run: seq<State>, i: nat)
    requires Run(j, run) && i < |run| && run[i].phase == Ended(Stranded)
    ensures Content(run[i].disk, j.target) == Some(j.compacted(run[i].base))
    ensures Content(run[i].disk, j.src) == Some(run[i].base)
  {
    RunKeepsInv(j, run, i);
  }

  /**
   An in-place run that has finished shows the compacted file and no temporary name, or, if
   the source was compact already, source and target name as they were.
   */
  lemma FinishedInPlace(j: Job, run: seq<State>, i: nat)
    requires Run(j, run) && i < |run| && run[i].phase == Ended(Done) && j.inPlace
    ensures var base := run[i].base;
            && Content(run[i].disk, j.src) == Some(if j.single(base) then base else j.compacted(base))
            && (j.target in run[i].disk.names <==> j.single(base) && j.target in run[0].disk.names)
  {
    RunKeepsInv(j, run, i);
    StaleStays(j, run, i);
  }

  /** With an output path, a run that has finished shows the copied or compacted file there, beside the source. */
  lemma FinishedOutOfPlace(j: Job, run: seq<State>, i: nat)
    requires Run(j, run) && i < |run| && run[i].phase == Ended(Done) && !j.inPlace
    ensures var base := run[i].base;
            && Content(run[i].disk, j.target) == Some(if j.single(base) then base else j.compacted(base))
            && Content(run[i].disk, j.src) == Some(base)
  {
    RunKeepsInv(j, run, i);
  }

  // ---- runs that there are ----

  lemma StepsNext(j: Job, run: seq<State>, t: State)
    requires Steps(j, run) && Step(j, run[|run| - 1], t)
    ensures Steps(j, run + [t])
  {
    var next := run + [t];
    forall i | 0 <= i < |next| - 1 ensures Next(j, next[i], next[i + 1]) {
      if i == |run| - 1 {
        assert next[i] == run[|run| - 1] && next[i + 1] == t;
      } else {
        assert next[i] == run[i] && next[i + 1] == run[i + 1];
      }
    }
  }

  /** Up to the header walk of a file of several records. */
  lemma ToIndex(j: Job, s: State) returns (run: seq<State>)
    requires Ready(j, s) && j.src in s.disk.names && s.disk.lock == Free && !j.single(s.base)
    ensures Steps(j, run) && |run| == 5 && run[0] == s
    ensures run[4] == s.(phase := IndexRead, fdOpen := true, lockAcquired := true, disk := s.disk.(lock := Ours))
  {
    var a := s.(phase := FdOpen, fdOpen := true);
    var b := a.(phase := Locked, lockAcquired := true, disk := a.disk.(lock := Ours));
    run := [s, a, b, Goto(b, HeaderRead), Goto(b, IndexRead)];
    forall i | 0 <= i < |run| - 1 ensures Next(j, run[i], run[i + 1]) {
      assert Step(j, run[i], run[i + 1]);
    }
  }

  /** The inode that opening the target for writing gives: the one that has the name, or a new one. */
  predicate Opens(j: Job, d: Disk, made: Inode) {
    if j.target in d.names then made == d.names[j.target] else made !in d.nodes
  }

  lemma OpenTarget(j: Job, s: State, made: Inode, phase: Phase) returns (t: State)
    requires Opens(j, s.disk, made)
    ensures CreateTarget(j, s, t, phase) && t.made == made
  {
    var nodes := s.disk.nodes[made := Node([], false)];
    var names := s.disk.names[j.target := made];
    t := s.(phase := phase, made := made, created := true,
            disk := if j.target in s.disk.names then s.disk.(nodes := nodes)
                    else s.disk.(names := names, versions := s.disk.versions + [names], nodes := nodes));
  }

  /** On to the complete target, the released lock and the closed descriptor. */
  lemma ToClosed(j: Job, s: State, made: Inode) returns (run: seq<State>)
    requires Init(j, s) && j.src in s.disk.names && s.disk.lock == Free
    requires !j.single(s.base) && Opens(j, s.disk, made)
    ensures Steps(j, run) && |run| == 9 && run[0] == s
    ensures run[6].phase == Written && run[7].phase == Released && run[8].phase == Closed
    ensures run[8].base == s.base && run[8].disk.lock == Free
  {
    run := ToIndex(j, s);
    var c := run[4];
    var d := OpenTarget(j, c, made, Writing);
    assert Step(j, c, d);
    var e := d.(phase := Written, disk := SetNode(d.disk, made, Node(j.compacted(s.base), true)));
    var f := e.(phase := Released, lockAcquired := false, disk := e.disk.(lock := Free));
    StepsNext(j, run, d);
    StepsNext(j, run + [d], e);
    StepsNext(j, run + [d] + [e], f);
    StepsNext(j, run + [d] + [e] + [f], f.(phase := Closed, fdOpen := false));
    run := run + [d] + [e] + [f] + [f.(phase := Closed, fdOpen := false)];
  }

  /** A source of one record, up to the end of the copy, or of nothing in place. */
  lemma ToCopied(j: Job, s: State, made: Inode) returns (run: seq<State>)
    requires Init(j, s) && j.src in s.disk.names && s.disk.lock == Free
    requires j.single(s.base) && Opens(j, s.disk, made)
    ensures Steps(j, run) && run[0] == s
    ensures var last := run[|run| - 1];
            last.phase == Finally(Done) && last.base == s.base && last.lockAcquired
  {
    var a := s.(phase := FdOpen, fdOpen := true);
    var b := a.(phase := Locked, lockAcquired := true, disk := a.disk.(lock := Ours));
    var c := Goto(b, HeaderRead);
    run := [s] + [a] + [b] + [c];
    StepsNext(j, [s], a);
    StepsNext(j, [s] + [a], b);
    StepsNext(j, [s] + [a] + [b], c);
    if j.inPlace {
      StepsNext(j, run, Goto(c, Finally(Done)));
      run := run + [Goto(c, Finally(Done))];
    } else {
      var d := OpenTarget(j, c, made, CopyingWhole);
      assert Step(j, c, d);
      StepsNext(j, run, d);
      var e := d.(phase := Finally(Done), disk := SetNode(d.disk, d.made, Node(d.base, false)));
      StepsNext(j, run + [d], e);
      run := run + [d] + [e];
    }
  }

  lemma CloseStep(j: Job, s: State) returns (h: State)
    requires Inv(j, s) && s.phase == Closed && s.disk.lock == Free
    ensures Step(j, s, h) && h.phase == Finally(Done) && h.base == s.base
    ensures h.lockAcquired || h.disk.lock == Free
  {
    h := s.(phase := Finally(Done), disk := if j.inPlace then Rename(s.disk, j.target, j.src) else s.disk);
  }

  lemma EndStep(j: Job, s: State) returns (t: State)
    requires s.phase.Finally?
    ensures Step(j, s, t) && t.phase == Ended(s.phase.outcome) && t.base == s.base
    ensures s.lockAcquired || s.disk.lock == Free ==> t.disk.lock == Free
  {
    t := s.(phase := Ended(s.phase.outcome), fdOpen := false, lockAcquired := false,
            disk := if s.lockAcquired then s.disk.(lock := Free) else s.disk);
  }

  /** Undisturbed, the machine runs to its end, whatever the job. */
  lemma CompactionCompletes(j: Job, s: State, made: Inode) returns (run: seq<State>)
    requires Init(j, s) && j.src in s.disk.names && s.disk.lock == Free && Opens(j, s.disk, made)
    ensures Run(j, run) && run[0] == s
    ensures var last := run[|run| - 1];
            var result := if j.single(s.base) then s.base else j.compacted(s.base);
            && last.phase == Ended(Done) && last.base == s.base && last.disk.lock == Free
            && (if j.inPlace then
                  && Content(last.disk, j.src) == Some(result)
                  && (j.target in last.disk.names <==> j.single(s.base) && j.target in s.disk.names)
                else
                  Content(last.disk, j.target) == Some(result) && Content(last.disk, j.src) == Some(s.base))
  {
    hide Inv;
    hide Step;
    hide Content;
    if j.single(s.base) {
      run := ToCopied(j, s, made);
    } else {
      run := ToClosed(j, s, made);
      RunKeepsInv(j, run, 8);
      var h := CloseStep(j, run[8]);
      StepsNext(j, run, h);
      run := run + [h];
    }
    var last := EndStep(j, run[|run| - 1]);
    StepsNext(j, run, last);
    run := run + [last];
    if j.inPlace {
      FinishedInPlace(j, run, |run| - 1);
    } else {
      FinishedOutOfPlace(j, run, |run| - 1);
    }
  }

  /** Directory versions are only ever added. */
  lemma StepKeepsVersions(j: Job, s: State, t: State)
    requires Step(j, s, t)
    ensures s.disk.versions <= t.disk.versions
  {
    if s.phase in {HeaderRead, IndexRead} {
      OpeningKeepsVersions(j, s, t);
    } else if s.phase in {CopyingWhole, Writing} {
      WritingKeepsVersions(j, s, t);
    } else {
      LaterKeepsVersions(j, s, t);
    }
  }

  lemma LaterKeepsVersions(j: Job, s: State, t: State)
    requires Step(j, s, t) && s.phase !in {HeaderRead, IndexRead, CopyingWhole, Writing}
    ensures s.disk.versions <= t.disk.versions
  {
    match s.phase
    case Cleaning => hide Rename;
    case Closed => hide Unlink;
    case _ => hide *;
  }

  lemma OpeningKeepsVersions(j: Job, s: State, t: State)
    requires Step(j, s, t) && s.phase in {HeaderRead, IndexRead}
    ensures s.disk.versions <= t.disk.versions
  {
    hide Linked;
    hide Create;
    if t.disk != s.disk {
      assert Create(s.disk, j.target, t.disk, t.made);
      CreateKeepsVersions(s.disk, j.target, t.disk, t.made);
    }
  }

  lemma CreateKeepsVersions(d: Disk, path: string, e: Disk, made: Inode)
    requires Create(d, path, e, made)
    ensures d.versions <= e.versions
  {
  }

  lemma WritingKeepsVersions(j: Job, s: State, t: State)
    requires Step(j, s, t) && s.phase in {CopyingWhole, Writing}
    ensures s.disk.versions == t.disk.versions
  {
  }

  lemma {:induction false} FirstVersionKept(j: Job, run: seq<State>, i: nat)
    requires Run(j, run) && i < |run|
    ensures run[0].disk.names in run[i].disk.versions
    decreases i
  {
    hide Step;
    if i > 0 {
      FirstVersionKept(j, run, i - 1);
      assert Next(j, run[i - 1], run[i - 1 + 1]);
      if Step(j, run[i - 1], run[i]) {
        StepKeepsVersions(j, run[i - 1], run[i]);
        var v :| 0 <= v < |run[i - 1].disk.versions| && run[i - 1].disk.versions[v] == run[0].disk.names;
        assert run[i].disk.versions[v] == run[0].disk.names;
      }
    }
  }

  /**
   What `SourceAlwaysComplete` allows for does happen: after a finished in-place run a crash
   may bring back the old file or keep the new one.
   */
  lemma CrashShowsEither(j: Job, s: State, made: Inode) returns (run: seq<State>, back: Disk, kept: Disk)
    requires Init(j, s) && j.inPlace && j.src in s.disk.names && s.disk.lock == Free
    requires !j.single(s.base) && Opens(j, s.disk, made)
    ensures Run(j, run) && run[0] == s && run[|run| - 1].phase == Ended(Done)
    ensures Crash(run[|run| - 1].disk, back) && Content(back, j.src) == Some(s.base)
    ensures Crash(run[|run| - 1].disk, kept) && Content(kept, j.src) == Some(j.compacted(s.base))
  {
    run := CompactionCompletes(j, s, made);
    RunKeepsInv(j, run, |run| - 1);
    FirstVersionKept(j, run, |run| - 1);
    hide Step;
    kept := run[|run| - 1].disk;
    SourceKept(j, run, |run| - 1);
    back := kept.(names := s.disk.names);
  }

  lemma {:induction false} SourceKept(j: Job, run: seq<State>, i: nat)
    requires Run(j, run) && i < |run| && j.src in run[0].disk.names
    ensures run[i].source == run[0].source == run[0].disk.names[j.src]
    decreases i
  {
    hide Step;
    if i > 0 {
      SourceKept(j, run, i - 1);
      assert Next(j, run[i - 1], run[i - 1 + 1]);
      if Step(j, run[i - 1], run[i]) {
        StepKeepsStale(j, run[i - 1], run[i]);
      }
    }
  }

  /** What has been written and not synced may be anything after a crash. */
  lemma CrashTearsTarget(j: Job, s: State, made: Inode, bytes: seq<Byte>) returns (run: seq<State>, after: Disk)
    requires Init(j, s) && j.src in s.disk.names && s.disk.lock == Free
    requires !j.single(s.base) && Opens(j, s.disk, made)
    ensures Run(j, run) && run[0] == s && run[|run| - 1].phase == Writing
    ensures Crash(run[|run| - 1].disk, after) && Content(after, j.target) == Some(bytes)
  {
    run := ToIndex(j, s);
    var t := OpenTarget(j, run[4], made, Writing);
    assert Step(j, run[4], t);
    StepsNext(j, run, t);
    run := run + [t];
    RunKeepsInv(j, run, 5);
    after := SetNode(t.disk, made, Node(bytes, false));
  }

  /** The unlock, the close or the rename may each be what fails: three runs that leave the temporary file. */
  lemma FailureStrands(j: Job, s: State, made: Inode, failing: Phase) returns (run: seq<State>)
    requires Init(j, s) && j.inPlace && j.src in s.disk.names && s.disk.lock == Free
    requires !j.single(s.base) && j.target !in s.disk.names && made !in s.disk.nodes
    requires failing in {Written, Released, Closed}
    ensures Run(j, run) && run[0] == s && |run| > 2
    ensures run[|run| - 3].phase == failing && run[|run| - 1].phase == Ended(Stranded)
    ensures Content(run[|run| - 1].disk, j.target) == Some(j.compacted(run[|run| - 1].base))
  {
    hide Inv;
    hide Step;
    var whole := ToClosed(j, s, made);
    var n := if failing == Written then 7 else if failing == Released then 8 else 9;
    assert whole[n - 1].phase == failing;
    StepsPrefix(j, whole, n);
    RunKeepsInv(j, whole, n - 1);
    var g, h := StrandSteps(j, whole[n - 1]);
    StepsNext(j, whole[..n], g);
    StepsNext(j, whole[..n] + [g], h);
    run := whole[..n] + [g] + [h];
    StrandedComplete(j, run, |run| - 1);
  }

  /** A failure before there is a complete target, and where it can happen. */
  predicate Fails(j: Job, s: State, outcome: Outcome) {
    match outcome
    case Missing => j.src !in s.disk.names
    case Contended => j.src in s.disk.names && s.disk.lock == Writers
    case Unreadable => j.src in s.disk.names && s.disk.lock == Free
    case CopyFailed => j.src in s.disk.names && s.disk.lock == Free && j.single(s.base) && !j.inPlace
    case WriteFailed => j.src in s.disk.names && s.disk.lock == Free && !j.single(s.base)
    case UnlinkFailed => j.src in s.disk.names && s.disk.lock == Free && !j.single(s.base)
    case _ => false
  }

  /** Each of these failures ends some run. */
  lemma FailureReached(j: Job, s: State, outcome: Outcome) returns (run: seq<State>)
    requires Ready(j, s) && Fails(j, s, outcome)
    ensures Steps(j, run) && run[0] == s && run[|run| - 1].phase == Ended(outcome)
  {
    if outcome == Missing {
      StepsNext(j, [s], Goto(s, Ended(Missing)));
      return [s] + [Goto(s, Ended(Missing))];
    }
    run := ToFailure(j, s, outcome);
    var last := EndStep(j, run[|run| - 1]);
    StepsNext(j, run, last);
    run := run + [last];
  }

  lemma ToFailure(j: Job, s: State, outcome: Outcome) returns (run: seq<State>)
    requires Ready(j, s) && Fails(j, s, outcome) && outcome != Missing
    ensures Steps(j, run) && run[0] == s && run[|run| - 1].phase == Finally(outcome)
  {
    if outcome in {WriteFailed, UnlinkFailed} {
      run := ToIndex(j, s);
      var d := Goto(run[4], Cleaning);
      StepsNext(j, run, d);
      var unlinked := if outcome == WriteFailed then Unlink(d.disk, j.target) else d.disk;
      var e := d.(phase := Finally(outcome), disk := unlinked);
      StepsNext(j, run + [d], e);
      run := run + [d] + [e];
    } else {
      var a := s.(phase := FdOpen, fdOpen := true);
      var b := a.(phase := Locked, lockAcquired := true, disk := a.disk.(lock := Ours));
      var c := Goto(b, HeaderRead);
      StepsNext(j, [s], a);
      run := [s] + [a];
      if outcome != Contended {
        StepsNext(j, run, b);
        run := run + [b];
      }
      if outcome == CopyFailed {
        StepsNext(j, run, c);
        run := run + [c];
      }
      var last := Goto(run[|run| - 1], Finally(outcome));
      StepsNext(j, run, last);
      run := run + [last];
    }
  }

  lemma StepsPrefix(j: Job, run: seq<State>, n: nat)
    requires Steps(j, run) && 0 < n <= |run|
    ensures Steps(j, run[..n])
  {
    forall i | 0 <= i < n - 1 ensures Next(j, run[..n][i], run[..n][i + 1]) {
      assert Next(j, run[i], run[i + 1]);
    }
  }

  lemma StrandSteps(j: Job, s: State) returns (g: State, h: State)
    requires Inv(j, s) && j.inPlace && s.phase in {Written, Released, Closed}
    ensures Step(j, s, g) && Step(j, g, h) && h.phase == Ended(Stranded)
  {
    g := Goto(s, Finally(Stranded));
    h := g.(phase := Ended(Stranded), fdOpen := false, lockAcquired := false,
            disk := if g.lockAcquired then g.disk.(lock := Free) else g.disk);
  }

  /**
   The lock is given up before the rename. After a run up to there, a writer that takes the
   lock and commits loses what it committed: without the guard in `Next` the guarantee fails.
   */
  lemma CommitInWindowIsLost(j: Job, s: State, made: Inode, bytes: seq<Byte>)
    returns (run: seq<State>, taken: State, committed: State, renamed: State)
    requires Init(j, s) && j.inPlace && j.src in s.disk.names && s.disk.lock == Free
    requires !j.single(s.base) && j.target !in s.disk.names && made !in s.disk.nodes
    requires bytes != j.compacted(s.base)
    ensures Run(j, run) && run[0] == s && run[|run| - 1].phase == Closed
    ensures WriterStep(run[|run| - 1], taken) && WriterStep(taken, committed) && Step(j, committed, renamed)
    ensures Content(committed.disk, j.src) == Some(bytes)
    ensures renamed.phase == Finally(Done) && Content(renamed.disk, j.src) == Some(j.compacted(s.base)) != Some(bytes)
  {
    hide Inv;
    hide Step;
    hide WriterStep;
    run := ToClosed(j, s, made);
    RunKeepsInv(j, run, 8);
    taken, committed, renamed := WindowSteps(j, run[8], bytes);
  }

  lemma WindowSteps(j: Job, g: State, bytes: seq<Byte>) returns (taken: State, committed: State, renamed: State)
    requires Inv(j, g) && j.inPlace && g.phase == Closed && g.disk.lock == Free && bytes != j.compacted(g.base)
    ensures WriterStep(g, taken) && WriterStep(taken, committed) && Step(j, committed, renamed)
    ensures Content(committed.disk, j.src) == Some(bytes)
    ensures renamed.phase == Finally(Done) && Content(renamed.disk, j.src) == Some(j.compacted(g.base)) != Some(bytes)
  {
    taken := g.(disk := g.disk.(lock := Writers));
    committed := taken.(base := bytes, disk := SetNode(taken.disk, g.source, Node(bytes, true)));
    renamed := committed.(phase := Finally(Done), disk := Rename(committed.disk, j.target, j.src));
  }

  /** In terms of tables: what a crash leaves at the source path opens to the source's logical table. */
  lemma TableSurvives(j: Job, run: seq<State>, i: nat, after: Disk, image: Image, f: File, header: seq<Byte>,
                      crc: RecordIndex.Checksum)
    requires Run(j, run) && i < |run| && j.src in run[0].disk.names
    requires Crash(run[i].disk, after) || after == run[i].disk
    requires image.bytes == run[i].base && Opened(image, crc) == Some(f) && RowCount(f) == image.committed <= INT64_MAX
    requires j.compacted(run[i].base) == Compacted(image, f, header, crc).bytes
    ensures exists kept: Image :: Opened(kept, crc).Some? && Content(after, j.src) == Some(kept.bytes)
              && SameTable(image.bytes, f, kept.bytes, Opened(kept, crc).value)
  {
    SourceAlwaysComplete(j, run, i, after);
    CompactionPreserves(image, f, header, crc, header);
    var out := Compacted(image, f, header, crc);
    if Content(after, j.src) == Some(image.bytes) {
      assert SameTable(image.bytes, f, image.bytes, Opened(image, crc).value);
    } else {
      assert Content(after, j.src) == Some(out.bytes);
    }
  }
}
