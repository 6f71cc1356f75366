/**
 Several in-place compactions of one file at once. Each is a run of the step machine of
 `CompactProtocol`; they share the directory, the files and the locks, and all use the same
 temporary name. A lock belongs to the inode that was opened, not to the path.
 */
module CompactRivals {
  import opened Sequences
  import opened CompactProtocol

  /** One call under way. */
  datatype Proc = Proc(phase: Phase, fdOpen: bool, lockAcquired: bool, source: Inode, made: Inode, base: seq<Byte>,
                       created: bool)

  /** `locks` says which call holds the lock of an inode. */
  datatype World = World(names: Directory, versions: seq<Directory>, nodes: map<Inode, Node>, locks: map<Inode, nat>,
                         procs: seq<Proc>)

  /** A call opens what the path names at that moment. */
  function Opening(j: Job, w: World, p: Proc): Proc {
    if p.phase == Start && j.src in w.names && w.names[j.src] in w.nodes
    then p.(source := w.names[j.src], base := w.nodes[w.names[j.src]].bytes)
    else p
  }

  function LockSeen(w: World, inode: Inode, i: nat): Lock {
    if inode !in w.locks then Free else if w.locks[inode] == i then Ours else Writers
  }

  /** The world as call `i` sees it: to a call, another call is one more holder of the lock. */
  function View(j: Job, w: World, i: nat): State
    requires i < |w.procs|
  {
    var p := Opening(j, w, w.procs[i]);
    State(p.phase, p.fdOpen, p.lockAcquired, Disk(w.names, w.versions, w.nodes, LockSeen(w, p.source, i)),
          p.source, p.made, p.base, false, p.created)
  }

  function LocksAfter(w: World, i: nat, t: State): map<Inode, nat> {
    if t.disk.lock == Ours then w.locks[t.source := i]
    else if LockSeen(w, t.source, i) == Ours then w.locks - {t.source}
    else w.locks
  }

  function Put(w: World, i: nat, t: State): World
    requires i < |w.procs|
  {
    World(t.disk.names, t.disk.versions, t.disk.nodes, LocksAfter(w, i, t),
          w.procs[i := Proc(t.phase, t.fdOpen, t.lockAcquired, t.source, t.made, t.base, t.created)])
  }

  predicate InWindow(phase: Phase) { phase in {Released, Closed} }

  /** No call stands between its unlock and its rename on this inode. */
  ghost predicate NobodyInWindow(w: World, inode: Inode) {
    forall k :: 0 <= k < |w.procs| && InWindow(w.procs[k].phase) ==> w.procs[k].source != inode
  }

  /**
   Call `i` takes a step. The record headers are read by path: if the path no longer names the
   locked inode, it names a file of one record, and the walk for several fails at its end. When
   `guarded`, nobody takes the lock of a call that stands before its rename.
   */
  ghost predicate ProcStep(j: Job, w: World, i: nat, t: State, guarded: bool) {
    && i < |w.procs| && Step(j, View(j, w, i), t)
    && (t.phase == IndexRead && w.procs[i].phase == HeaderRead ==> j.src in w.names && w.names[j.src] == t.source)
    && (guarded && t.phase == Locked && w.procs[i].phase == FdOpen ==> NobodyInWindow(w, t.source))
  }

  ghost predicate WorldNext(j: Job, w: World, v: World, guarded: bool) {
    exists i, t :: ProcStep(j, w, i, t, guarded) && v == Put(w, i, t)
  }

  ghost predicate Runs(j: Job, run: seq<World>, guarded: bool) {
    && run != [] && forall k :: 0 <= k < |run| - 1 ==> WorldNext(j, run[k], run[k + 1], guarded)
  }

  /** Calls about to start on a complete file. */
  ghost predicate Outset(j: Job, good: seq<Byte> -> bool, w: World) {
    && j.inPlace && j.src != j.target && w.locks == map[] && w.versions == [w.names]
    && (forall path :: path in w.names ==> w.names[path] in w.nodes)
    && j.src in w.names && w.nodes[w.names[j.src]].synced && good(w.nodes[w.names[j.src]].bytes)
    && (j.target in w.names ==> w.names[j.target] != w.names[j.src])
    && forall i :: 0 <= i < |w.procs| ==>
         w.procs[i].phase == Start && !w.procs[i].fdOpen && !w.procs[i].lockAcquired && !w.procs[i].created
  }

  /** Compacting what is good gives what is good. */
  ghost predicate KeepsGood(j: Job, good: seq<Byte> -> bool) { forall b :: good(b) ==> good(j.compacted(b)) }

  // ---- the invariant ----

  predicate Working(phase: Phase) { phase in {IndexRead, Writing, Cleaning, Written, Released, Closed} }

  predicate Busy(phase: Phase) { phase in {Locked, HeaderRead} || Working(phase) }

  predicate Making(phase: Phase) { phase in {Writing, Written, Released, Closed} }

  ghost predicate IsSource(j: Job, w: World, inode: Inode) {
    exists v :: v in w.versions && j.src in v && v[j.src] == inode
  }

  /** Every version of the directory shows a complete good file at the source path, and the target is none of them. */
  ghost predicate DiskSound(j: Job, good: seq<Byte> -> bool, w: World) {
    && w.names in w.versions
    && (forall v :: v in w.versions ==> j.src in v)
    && (forall inode :: IsSource(j, w, inode) ==>
          inode in w.nodes && w.nodes[inode].synced && good(w.nodes[inode].bytes))
    && (j.target in w.names ==> w.names[j.target] in w.nodes && !IsSource(j, w, w.names[j.target]))
  }

  /** What holds of one call. */
  ghost predicate ProcSound(j: Job, w: World, i: nat)
    requires i < |w.procs|
  {
    var p := w.procs[i];
    && (p.phase == FdOpen || Busy(p.phase) ==>
          IsSource(j, w, p.source) && p.source in w.nodes && w.nodes[p.source].bytes == p.base)
    && (p.lockAcquired ==> p.source in w.locks && w.locks[p.source] == i && (HasLock(p.phase) || p.phase.Finally?))
    && (HasLock(p.phase) ==> p.lockAcquired)
    && (Working(p.phase) ==> j.src in w.names && w.names[j.src] == p.source)
    && (Making(p.phase) ==>
          j.target in w.names && w.names[j.target] == p.made && p.made in w.nodes && p.made != p.source)
    && (p.phase in {Written, Released, Closed} ==> w.nodes[p.made] == Node(j.compacted(p.base), true))
    && p.phase != CopyingWhole
  }

  /** Busy calls have different sources; in particular only one works on the file. */
  ghost predicate Exclusive(w: World) {
    forall i, k :: 0 <= i < k < |w.procs| && Busy(w.procs[i].phase) && Busy(w.procs[k].phase) ==>
      w.procs[i].source != w.procs[k].source
  }

  ghost predicate Sound(j: Job, good: seq<Byte> -> bool, w: World) {
    && j.inPlace && j.src != j.target && DiskSound(j, good, w) && Exclusive(w)
    && (forall i :: 0 <= i < |w.procs| ==> ProcSound(j, w, i))
  }

  lemma OutsetSound(j: Job, good: seq<Byte> -> bool, w: World)
    requires Outset(j, good, w)
    ensures Sound(j, good, w)
  {
    forall inode | IsSource(j, w, inode) ensures inode == w.names[j.src] {
    }
  }

  /** While one call works, no other does. */
  lemma OnlyWorker(j: Job, good: seq<Byte> -> bool, w: World, i: nat, k: nat)
    requires Sound(j, good, w) && i < |w.procs| && k < |w.procs| && i != k && Working(w.procs[i].phase)
    ensures !Working(w.procs[k].phase)
  {
    assert ProcSound(j, w, i) && ProcSound(j, w, k);
  }

  // ---- each step keeps it ----

  function Placed(w: World, i: nat, p: Proc): World
    requires i < |w.procs|
  {
    w.(procs := w.procs[i := p])
  }

  /** Only call `i` changes, and not into the way of another. */
  lemma Quiet(j: Job, good: seq<Byte> -> bool, w: World, i: nat, p: Proc)
    requires Sound(j, good, w) && i < |w.procs| && ProcSound(j, Placed(w, i, p), i)
    requires Busy(p.phase) ==> Busy(w.procs[i].phase) && p.source == w.procs[i].source
    ensures Sound(j, good, Placed(w, i, p))
  {
    var v := Placed(w, i, p);
    forall k | 0 <= k < |v.procs| ensures ProcSound(j, v, k) {
      if k != i {
        OthersKept(j, w, v, k);
      }
    }
    assert forall inode :: IsSource(j, v, inode) <==> IsSource(j, w, inode);
  }

  lemma OthersKept(j: Job, w: World, v: World, k: nat)
    requires k < |w.procs| == |v.procs| && v.procs[k] == w.procs[k] && ProcSound(j, w, k)
    requires v.names == w.names && v.versions == w.versions && v.nodes == w.nodes && v.locks == w.locks
    ensures ProcSound(j, v, k)
  {
    assert IsSource(j, w, w.procs[k].source) ==> IsSource(j, v, w.procs[k].source);
  }

  /** A step that leaves the disk alone is a change of the call only. */
  lemma SameDisk(j: Job, w: World, i: nat, t: State)
    requires i < |w.procs| && t.disk == View(j, w, i).disk && t.source == View(j, w, i).source
    ensures Put(w, i, t) == Placed(w, i, Proc(t.phase, t.fdOpen, t.lockAcquired, t.source, t.made, t.base, t.created))
  {
    if t.disk.lock == Ours {
      assert w.locks[t.source := i] == w.locks;
    }
  }

  lemma StartSound(j: Job, good: seq<Byte> -> bool, w: World, i: nat, t: State, guarded: bool)
    requires Sound(j, good, w) && ProcStep(j, w, i, t, guarded) && w.procs[i].phase == Start
    ensures Sound(j, good, Put(w, i, t))
  {
    assert ProcSound(j, w, i);
    SameDisk(j, w, i, t);
    assert IsSource(j, w, w.names[j.src]);
    var p := Proc(t.phase, t.fdOpen, t.lockAcquired, t.source, t.made, t.base, t.created);
    assert IsSource(j, Placed(w, i, p), w.names[j.src]);
    Quiet(j, good, w, i, p);
  }

  /** The steps without an effect on disk or locks. */
  predicate Turns(s: Phase, t: Phase) {
    match s
    case FdOpen => t == Finally(Contended)
    case Locked => t == HeaderRead || t == Finally(Unreadable)
    case HeaderRead => t == IndexRead || t == Finally(Unreadable) || t == Finally(CompactProtocol.Outcome.Done)
    case IndexRead => t == Cleaning
    case Writing => t == Cleaning
    case Cleaning => t == Finally(UnlinkFailed)
    case Written => t == Finally(Stranded)
    case Released => t == Closed || t == Finally(Stranded)
    case Closed => t == Finally(Stranded)
    case _ => false
  }

  ghost predicate OnlyTurned(s: State, t: State) {
    && t.disk == s.disk && t.source == s.source && t.made == s.made && t.base == s.base
    && t.lockAcquired == s.lockAcquired
  }

  lemma EarlyTurn(j: Job, s: State, t: State)
    requires j.inPlace && Step(j, s, t) && Turns(s.phase, t.phase) && s.phase in {FdOpen, Locked, HeaderRead, IndexRead}
    ensures OnlyTurned(s, t)
  {
  }

  lemma LateTurn(j: Job, s: State, t: State)
    requires j.inPlace && Step(j, s, t) && Turns(s.phase, t.phase)
    requires s.phase in {Writing, Cleaning, Written, Released, Closed}
    ensures OnlyTurned(s, t)
  {
  }

  /** Such a step changes the call's phase, and perhaps closes its descriptor. */
  lemma TurnIs(j: Job, w: World, i: nat, t: State, guarded: bool)
    requires ProcStep(j, w, i, t, guarded) && j.inPlace && Turns(w.procs[i].phase, t.phase)
    ensures Put(w, i, t) == Placed(w, i, w.procs[i].(phase := t.phase, fdOpen := t.fdOpen, created := t.created))
    ensures t.phase == IndexRead ==> j.src in w.names && w.names[j.src] == w.procs[i].source
  {
    if w.procs[i].phase in {FdOpen, Locked, HeaderRead, IndexRead} {
      EarlyTurn(j, View(j, w, i), t);
    } else {
      LateTurn(j, View(j, w, i), t);
    }
    SameDisk(j, w, i, t);
  }

  lemma TurnSound(j: Job, good: seq<Byte> -> bool, w: World, i: nat, t: State, guarded: bool)
    requires Sound(j, good, w) && ProcStep(j, w, i, t, guarded) && Turns(w.procs[i].phase, t.phase)
    ensures Sound(j, good, Put(w, i, t))
  {
    hide Step;
    hide View;
    hide Put;
    TurnIs(j, w, i, t, guarded);
    assert ProcSound(j, w, i);
    var p := w.procs[i].(phase := t.phase, fdOpen := t.fdOpen, created := t.created);
    assert IsSource(j, w, p.source) ==> IsSource(j, Placed(w, i, p), p.source);
    Quiet(j, good, w, i, p);
  }

  // ---- lock and unlock ----

  lemma LockSound(j: Job, good: seq<Byte> -> bool, w: World, i: nat, t: State)
    requires Sound(j, good, w) && ProcStep(j, w, i, t, true) && w.procs[i].phase == FdOpen && t.phase == Locked
    ensures Sound(j, good, Put(w, i, t))
  {
    assert ProcSound(j, w, i);
    var v := Put(w, i, t);
    var source := w.procs[i].source;
    assert t.disk.lock == Ours && source !in w.locks && v.locks == w.locks[source := i];
    forall k | 0 <= k < |v.procs| ensures ProcSound(j, v, k) {
      assert ProcSound(j, w, k);
      assert IsSource(j, w, w.procs[k].source) ==> IsSource(j, v, w.procs[k].source);
    }
    assert forall inode :: IsSource(j, v, inode) <==> IsSource(j, w, inode);
    forall a, b | 0 <= a < b < |v.procs| && Busy(v.procs[a].phase) && Busy(v.procs[b].phase)
      ensures v.procs[a].source != v.procs[b].source
    {
      if a == i || b == i {
        var k := if a == i then b else a;
        assert ProcSound(j, w, k);
        assert HasLock(w.procs[k].phase) || InWindow(w.procs[k].phase);
      }
    }
  }

  /** What giving the lock back is: at the unlock, or at the very end if it is still held. */
  ghost predicate GivesBack(w: World, v: World, i: nat) {
    && i < |w.procs| && |v.procs| == |w.procs|
    && v.names == w.names && v.versions == w.versions && v.nodes == w.nodes
    && v.procs == w.procs[i := v.procs[i]]
    && v.procs[i].source == w.procs[i].source && v.procs[i].made == w.procs[i].made
    && v.procs[i].base == w.procs[i].base && !v.procs[i].lockAcquired
    && v.locks == (if w.procs[i].lockAcquired then w.locks - {w.procs[i].source} else w.locks)
    && ((w.procs[i].phase == Written && v.procs[i].phase == Released) ||
        (w.procs[i].phase.Finally? && v.procs[i].phase.Ended?))
  }

  lemma UnlockIs(j: Job, w: World, i: nat, t: State)
    requires ProcStep(j, w, i, t, true) && ProcSound(j, w, i)
    requires (w.procs[i].phase == Written && t.phase == Released) || (w.procs[i].phase.Finally? && t.phase.Ended?)
    ensures GivesBack(w, Put(w, i, t), i)
  {
  }

  lemma UnlockSound(j: Job, good: seq<Byte> -> bool, w: World, i: nat, v: World)
    requires Sound(j, good, w) && GivesBack(w, v, i)
    ensures Sound(j, good, v)
  {
    assert ProcSound(j, w, i);
    forall k | 0 <= k < |v.procs| ensures ProcSound(j, v, k) {
      assert ProcSound(j, w, k);
      assert IsSource(j, w, w.procs[k].source) ==> IsSource(j, v, w.procs[k].source);
    }
    assert forall inode :: IsSource(j, v, inode) <==> IsSource(j, w, inode);
  }

  // ---- the target ----

  /** Only files and names at the target change, by the one call that works, which may go on to `p`. */
  ghost predicate TargetOnly(j: Job, w: World, v: World, i: nat, inode: Inode) {
    && i < |w.procs| && |v.procs| == |w.procs| && Working(w.procs[i].phase)
    && v.procs == w.procs[i := v.procs[i]] && v.locks == w.locks
    && v.procs[i].source == w.procs[i].source && v.procs[i].base == w.procs[i].base
    && v.procs[i].lockAcquired == w.procs[i].lockAcquired
    && (Busy(v.procs[i].phase) ==> HasLock(v.procs[i].phase))
    && v.names - {j.target} == w.names - {j.target}
    && v.versions in {w.versions, w.versions + [v.names]} && v.names in v.versions
    && v.nodes.Keys >= w.nodes.Keys
    && forall k :: k in w.nodes && k != inode ==> v.nodes[k] == w.nodes[k]
  }

  lemma TargetSources(j: Job, w: World, v: World, i: nat, inode: Inode, k: Inode)
    requires TargetOnly(j, w, v, i, inode) && j.src != j.target && j.src in w.names && w.names in w.versions
    ensures j.src in v.names && v.names[j.src] == w.names[j.src]
    ensures IsSource(j, v, k) <==> IsSource(j, w, k)
  {
    assert j.src in w.names - {j.target} && j.src in v.names - {j.target};
    if IsSource(j, v, k) {
      var names :| names in v.versions && j.src in names && names[j.src] == k;
      if names == v.names {
        assert w.names[j.src] == k;
      }
    }
    if IsSource(j, w, k) {
      var names :| names in w.versions && j.src in names && names[j.src] == k;
      assert names in v.versions;
    }
  }

  lemma TargetSound(j: Job, good: seq<Byte> -> bool, w: World, v: World, i: nat, inode: Inode)
    requires Sound(j, good, w) && TargetOnly(j, w, v, i, inode) && !IsSource(j, w, inode)
    requires j.target in v.names ==> v.names[j.target] in v.nodes && !IsSource(j, w, v.names[j.target])
    requires IsSource(j, v, w.procs[i].source) ==> ProcSound(j, v, i)
    ensures Sound(j, good, v)
  {
    assert ProcSound(j, w, i);
    forall k: Inode ensures IsSource(j, v, k) <==> IsSource(j, w, k) {
      TargetSources(j, w, v, i, inode, k);
    }
    TargetSources(j, w, v, i, inode, 0);
    assert IsSource(j, w, w.names[j.src]);
    forall k | 0 <= k < |v.procs| ensures ProcSound(j, v, k) {
      if k != i {
        OnlyWorker(j, good, w, i, k);
        assert ProcSound(j, w, k);
      }
    }
    forall names | names in v.versions ensures j.src in names {
      if names !in w.versions {
        assert names == v.names;
      }
    }
  }

  lemma CreateSound(j: Job, good: seq<Byte> -> bool, w: World, i: nat, t: State)
    requires Sound(j, good, w) && ProcStep(j, w, i, t, true) && w.procs[i].phase == IndexRead && t.phase == Writing
    ensures Sound(j, good, Put(w, i, t))
  {
    assert ProcSound(j, w, i);
    var v := Put(w, i, t);
    assert Create(View(j, w, i).disk, j.target, t.disk, t.made);
    LockStays(w, i, t);
    assert IsSource(j, w, w.names[j.src]) && !IsSource(j, w, t.made);
    TargetSources(j, w, v, i, t.made, w.procs[i].source);
    TargetSound(j, good, w, v, i, t.made);
  }

  /** A step that does not touch the lock leaves all locks as they are. */
  lemma LockStays(w: World, i: nat, t: State)
    requires i < |w.procs| && t.disk.lock == LockSeen(w, t.source, i)
    ensures LocksAfter(w, i, t) == w.locks
  {
    if t.disk.lock == Ours {
      assert w.locks[t.source := i] == w.locks;
    }
  }

  lemma WriteSound(j: Job, good: seq<Byte> -> bool, w: World, i: nat, t: State)
    requires Sound(j, good, w) && ProcStep(j, w, i, t, true) && w.procs[i].phase == Writing
    requires t.phase == Writing || t.phase == Written
    ensures Sound(j, good, Put(w, i, t))
  {
    assert ProcSound(j, w, i);
    var v := Put(w, i, t);
    LockStays(w, i, t);
    assert IsSource(j, w, w.names[j.src]) && !IsSource(j, w, t.made);
    TargetSources(j, w, v, i, t.made, w.procs[i].source);
    TargetSound(j, good, w, v, i, t.made);
  }

  lemma UnlinkSound(j: Job, good: seq<Byte> -> bool, w: World, i: nat, t: State)
    requires Sound(j, good, w) && ProcStep(j, w, i, t, true)
    requires w.procs[i].phase == Cleaning && t.phase == Finally(WriteFailed)
    ensures Sound(j, good, Put(w, i, t))
  {
    assert ProcSound(j, w, i);
    var v := Put(w, i, t);
    LockStays(w, i, t);
    if j.target in w.names {
      TargetSources(j, w, v, i, w.names[j.target], w.procs[i].source);
      TargetSound(j, good, w, v, i, w.names[j.target]);
    } else {
      SameDisk(j, w, i, t);
      Quiet(j, good, w, i, Proc(t.phase, t.fdOpen, t.lockAcquired, t.source, t.made, t.base, t.created));
    }
  }

  /** The rename puts a complete good file at the source path, and the temporary name is free again. */
  lemma RenameSound(j: Job, good: seq<Byte> -> bool, w: World, i: nat, t: State)
    requires Sound(j, good, w) && KeepsGood(j, good) && ProcStep(j, w, i, t, true)
    requires w.procs[i].phase == Closed && t.phase == Finally(CompactProtocol.Outcome.Done)
    ensures Sound(j, good, Put(w, i, t))
  {
    assert ProcSound(j, w, i);
    var p := w.procs[i];
    var v := Put(w, i, t);
    LockStays(w, i, t);
    assert IsSource(j, w, p.source);
    forall inode | IsSource(j, v, inode) ensures inode == p.made || IsSource(j, w, inode) {
      var names :| names in v.versions && j.src in names && names[j.src] == inode;
      assert names in w.versions || names == v.names;
    }
    forall inode | IsSource(j, w, inode) ensures IsSource(j, v, inode) {
      var names :| names in w.versions && j.src in names && names[j.src] == inode;
      assert names in v.versions;
    }
    assert j.target !in v.names && v.nodes == w.nodes;
    forall k | 0 <= k < |v.procs| ensures ProcSound(j, v, k) {
      if k != i {
        OnlyWorker(j, good, w, i, k);
        assert ProcSound(j, w, k);
      }
    }
  }

  /** Which of the lemmas above is about the step. */
  lemma StepKinds(j: Job, s: State, t: State)
    requires j.inPlace && Step(j, s, t) && s.phase != Start && s.phase != CopyingWhole
    ensures
      || Turns(s.phase, t.phase) || (s.phase == FdOpen && t.phase == Locked)
      || (s.phase == Written && t.phase == Released) || (s.phase.Finally? && t.phase.Ended?)
      || (s.phase == IndexRead && t.phase == Writing)
      || (s.phase == Writing && (t.phase == Writing || t.phase == Written))
      || (s.phase == Cleaning && t.phase == Finally(WriteFailed))
      || (s.phase == Closed && t.phase == Finally(CompactProtocol.Outcome.Done))
  {
    hide Create;
    hide SetNode;
    hide Unlink;
    hide Rename;
    hide Linked;
  }

  lemma StepSound(j: Job, good: seq<Byte> -> bool, w: World, i: nat, t: State)
    requires Sound(j, good, w) && KeepsGood(j, good) && ProcStep(j, w, i, t, true)
    ensures Sound(j, good, Put(w, i, t))
  {
    assert ProcSound(j, w, i);
    var s := w.procs[i].phase;
    if s == Start {
      StartSound(j, good, w, i, t, true);
    } else {
      StepKinds(j, View(j, w, i), t);
      hide Step;
      hide Sound;
      hide ProcSound;
      hide Put;
      if Turns(s, t.phase) {
        TurnSound(j, good, w, i, t, true);
      } else if s == FdOpen {
        LockSound(j, good, w, i, t);
      } else if s == Written || s.Finally? {
        UnlockIs(j, w, i, t);
        UnlockSound(j, good, w, i, Put(w, i, t));
      } else if s == IndexRead {
        CreateSound(j, good, w, i, t);
      } else if s == Writing {
        WriteSound(j, good, w, i, t);
      } else if s == Cleaning {
        UnlinkSound(j, good, w, i, t);
      } else {
        RenameSound(j, good, w, i, t);
      }
    }
  }

  lemma {:induction false} RunSound(j: Job, good: seq<Byte> -> bool, run: seq<World>, k: nat)
    requires Runs(j, run, true) && Outset(j, good, run[0]) && KeepsGood(j, good) && k < |run|
    ensures Sound(j, good, run[k])
    decreases k
  {
    if k == 0 {
      OutsetSound(j, good, run[0]);
    } else {
      RunSound(j, good, run, k - 1);
      assert WorldNext(j, run[k - 1], run[k - 1 + 1], true);
      var i, t :| ProcStep(j, run[k - 1], i, t, true) && run[k] == Put(run[k - 1], i, t);
      StepSound(j, good, run[k - 1], i, t);
    }
  }

  // ---- what any number of calls guarantees ----

  function DiskOf(w: World): Disk { Disk(w.names, w.versions, w.nodes, Free) }

  /** The source path shows a good file. */
  ghost predicate Intact(j: Job, good: seq<Byte> -> bool, d: Disk) {
    Content(d, j.src).Some? && good(Content(d, j.src).value)
  }

  /**
   However many calls compact one file in place, whatever fails in them, in whatever order
   they take their steps and wherever a crash stops them: if none takes the lock of another
   that stands before its rename, the source path always shows a complete good file.
   */
  lemma SourceSurvivesRivals(j: Job, good: seq<Byte> -> bool, run: seq<World>, k: nat, after: Disk)
    requires Runs(j, run, true) && Outset(j, good, run[0]) && KeepsGood(j, good) && k < |run|
    requires Crash(DiskOf(run[k]), after) || after == DiskOf(run[k])
    ensures Intact(j, good, after)
  {
    RunSound(j, good, run, k);
    var w := run[k];
    assert after.names in w.versions;
    assert IsSource(j, w, after.names[j.src]);
  }

  // ---- and what happens when one enters the window ----

  lemma RunsNext(j: Job, run: seq<World>, i: nat, t: State)
    requires Runs(j, run, false) && ProcStep(j, run[|run| - 1], i, t, false)
    ensures Runs(j, run + [Put(run[|run| - 1], i, t)], false)
  {
    var next := run + [Put(run[|run| - 1], i, t)];
    forall k | 0 <= k < |next| - 1 ensures WorldNext(j, next[k], next[k + 1], false) {
      if k == |run| - 1 {
        assert next[k] == run[k] && next[k + 1] == Put(run[k], i, t);
      } else {
        assert WorldNext(j, run[k], run[k + 1], false);
      }
    }
  }

  /** Call `i` goes on to `phase`, with nothing else to it. */
  lemma GoesOn(j: Job, run: seq<World>, i: nat, phase: Phase) returns (next: seq<World>)
    requires Runs(j, run, false) && i < |run[|run| - 1].procs| && run[|run| - 1].procs[i].phase != Start
    requires ProcStep(j, run[|run| - 1], i, Goto(View(j, run[|run| - 1], i), phase), false)
    ensures Runs(j, next, false) && next[0] == run[0]
    ensures var w := run[|run| - 1]; next[|next| - 1] == Placed(w, i, w.procs[i].(phase := phase))
  {
    var w := run[|run| - 1];
    var t := Goto(View(j, w, i), phase);
    RunsNext(j, run, i, t);
    LockStays(w, i, t);
    next := run + [Put(w, i, t)];
  }

  /** A call opens the source. */
  lemma Opens(j: Job, run: seq<World>, i: nat) returns (next: seq<World>)
    requires Runs(j, run, false) && i < |run[|run| - 1].procs| && run[|run| - 1].procs[i].phase == Start
    requires var w := run[|run| - 1]; j.src in w.names && w.names[j.src] in w.nodes && w.locks == map[]
    ensures Runs(j, next, false) && next[0] == run[0]
    ensures var w := run[|run| - 1];
            next[|next| - 1] == Placed(w, i, Opening(j, w, w.procs[i]).(phase := FdOpen, fdOpen := true))
  {
    var w := run[|run| - 1];
    var t := View(j, w, i).(phase := FdOpen, fdOpen := true);
    assert ProcStep(j, w, i, t, false);
    RunsNext(j, run, i, t);
    LockStays(w, i, t);
    next := run + [Put(w, i, t)];
  }

  /** A call takes the free lock of the file it has opened and goes as far as the header walk. */
  lemma Enters(j: Job, run: seq<World>, i: nat) returns (next: seq<World>)
    requires Runs(j, run, false) && i < |run[|run| - 1].procs| && run[|run| - 1].procs[i].phase == FdOpen
    requires var w := run[|run| - 1];
             w.locks == map[] && j.src in w.names && w.names[j.src] == w.procs[i].source &&
             !j.single(w.procs[i].base)
    ensures Runs(j, next, false) && next[0] == run[0]
    ensures var w := run[|run| - 1];
            next[|next| - 1] == Placed(w, i, w.procs[i].(phase := IndexRead, lockAcquired := true))
                                .(locks := map[w.procs[i].source := i])
  {
    var w := run[|run| - 1];
    var s := View(j, w, i);
    var t := s.(phase := Locked, lockAcquired := true, disk := s.disk.(lock := Ours));
    assert ProcStep(j, w, i, t, false);
    RunsNext(j, run, i, t);
    next := run + [Put(w, i, t)];
    next := GoesOn(j, next, i, HeaderRead);
    next := GoesOn(j, next, i, IndexRead);
  }

  /** The first call, up to its rename, beside a second one that has opened the file. */
  lemma FirstWaits(j: Job, good: seq<Byte> -> bool, w: World, made: Inode) returns (run: seq<World>)
    requires Outset(j, good, w) && |w.procs| >= 2 && !j.single(w.nodes[w.names[j.src]].bytes)
    requires j.target !in w.names && made !in w.nodes
    ensures Runs(j, run, false) && run[0] == w
    ensures var v := run[|run| - 1];
            && v.names == w.names[j.target := made] && v.locks == map[] && made in v.nodes && |v.procs| == |w.procs|
            && v.procs[0].phase == Closed && !v.procs[0].lockAcquired
            && v.procs[1].phase == FdOpen && v.procs[1].source == w.names[j.src]
            && v.procs[1].base == w.nodes[w.names[j.src]].bytes
  {
    run := Opens(j, [w], 0);
    run := Opens(j, run, 1);
    run := Enters(j, run, 0);
    var v := run[|run| - 1];
    var s := View(j, v, 0);
    var names := v.names[j.target := made];
    var t := s.(phase := Writing, made := made, created := true,
                disk := Disk(names, v.versions + [names], v.nodes[made := Node([], false)], s.disk.lock));
    assert Create(s.disk, j.target, t.disk, made) && CreateTarget(j, s, t, Writing);
    assert ProcStep(j, v, 0, t, false);
    RunsNext(j, run, 0, t);
    run := run + [Put(v, 0, t)];
    run := Finishes(j, run);
  }

  /** It writes the whole file, unlocks and closes. */
  lemma Finishes(j: Job, run: seq<World>) returns (next: seq<World>)
    requires Runs(j, run, false) && 0 < |run[|run| - 1].procs| && run[|run| - 1].procs[0].phase == Writing
    requires var w := run[|run| - 1]; var p := w.procs[0]; p.lockAcquired && w.locks == map[p.source := 0]
    ensures Runs(j, next, false) && next[0] == run[0]
    ensures var w, v := run[|run| - 1], next[|next| - 1];
            && v.names == w.names && v.locks == map[] && v.nodes.Keys == w.nodes.Keys + {w.procs[0].made}
            && |v.procs| == |w.procs| && v.procs[0].phase == Closed && !v.procs[0].lockAcquired
            && forall k :: 0 < k < |v.procs| ==> v.procs[k] == w.procs[k]
  {
    var w := run[|run| - 1];
    var s := View(j, w, 0);
    var t := s.(phase := Written, disk := SetNode(s.disk, s.made, Node(j.compacted(s.base), true)));
    assert ProcStep(j, w, 0, t, false);
    RunsNext(j, run, 0, t);
    LockStays(w, 0, t);
    next := Unlocks(j, run + [Put(w, 0, t)]);
  }

  lemma Unlocks(j: Job, run: seq<World>) returns (next: seq<World>)
    requires Runs(j, run, false) && 0 < |run[|run| - 1].procs| && run[|run| - 1].procs[0].phase == Written
    requires var w := run[|run| - 1]; var p := w.procs[0]; p.lockAcquired && w.locks == map[p.source := 0]
    ensures Runs(j, next, false) && next[0] == run[0]
    ensures var w, v := run[|run| - 1], next[|next| - 1];
            && v.names == w.names && v.nodes == w.nodes && v.locks == map[]
            && |v.procs| == |w.procs| && v.procs[0].phase == Closed && !v.procs[0].lockAcquired
            && forall k :: 0 < k < |v.procs| ==> v.procs[k] == w.procs[k]
  {
    var w := run[|run| - 1];
    var s := View(j, w, 0);
    var t := s.(phase := Released, lockAcquired := false, disk := s.disk.(lock := Free));
    assert ProcStep(j, w, 0, t, false);
    RunsNext(j, run, 0, t);
    next := run + [Put(w, 0, t)];
    var v := next[|next| - 1];
    assert v.locks == map[];
    t := View(j, v, 0).(phase := Closed, fdOpen := false);
    assert ProcStep(j, v, 0, t, false);
    RunsNext(j, next, 0, t);
    LockStays(v, 0, t);
    next := next + [Put(v, 0, t)];
  }

  /**
   Two calls on one file. While the first stands before its rename, the second takes the lock,
   opens the same temporary name and so empties the finished file; the first renames it over
   the source. When the second then fails to write, its unlink finds nothing to remove. Both
   have ended, the first one well, and the source is empty.
   */
  lemma RivalEmpties(j: Job, good: seq<Byte> -> bool, w: World, made: Inode) returns (run: seq<World>)
    requires Outset(j, good, w) && |w.procs| >= 2 && !j.single(w.nodes[w.names[j.src]].bytes)
    requires j.target !in w.names && made !in w.nodes
    ensures Runs(j, run, false) && run[0] == w
    ensures var v := run[|run| - 1];
            && |v.procs| == |w.procs| && v.procs[0].phase == Ended(CompactProtocol.Outcome.Done)
            && v.procs[1].phase == Ended(WriteFailed)
            && Content(DiskOf(v), j.src) == Some([]) && j.target !in v.names
  {
    run := FirstWaits(j, good, w, made);
    run := Enters(j, run, 1);
    var v := run[|run| - 1];
    var s := View(j, v, 1);
    var t := s.(phase := Writing, made := made, created := true, disk := SetNode(s.disk, made, Node([], false)));
    assert Create(s.disk, j.target, t.disk, made) && CreateTarget(j, s, t, Writing);
    assert ProcStep(j, v, 1, t, false);
    RunsNext(j, run, 1, t);
    LockStays(v, 1, t);
    run := run + [Put(v, 1, t)];
    run := Empties(j, run, made);
  }

  lemma Empties(j: Job, run: seq<World>, made: Inode) returns (next: seq<World>)
    requires Runs(j, run, false) && j.inPlace && j.src != j.target
    requires var w := run[|run| - 1];
             && |w.procs| >= 2 && w.procs[0].phase == Closed && !w.procs[0].lockAcquired
             && w.procs[1].phase == Writing && w.procs[1].lockAcquired && w.locks == map[w.procs[1].source := 1]
             && j.target in w.names && w.names[j.target] == made && made in w.nodes && w.nodes[made] == Node([], false)
    ensures Runs(j, next, false) && next[0] == run[0]
    ensures var w, v := run[|run| - 1], next[|next| - 1];
            && |v.procs| == |w.procs| && v.procs[0].phase == Ended(CompactProtocol.Outcome.Done)
            && v.procs[1].phase == Ended(WriteFailed)
            && Content(DiskOf(v), j.src) == Some([]) && j.target !in v.names
  {
    next := Renames(j, run);
    next := GivesUp(j, next);
  }

  /** The second call fails to write; there is nothing at the target to unlink. */
  lemma GivesUp(j: Job, run: seq<World>) returns (next: seq<World>)
    requires Runs(j, run, false)
    requires var w := run[|run| - 1];
             && |w.procs| >= 2 && w.procs[1].phase == Writing && w.procs[1].lockAcquired
             && w.locks == map[w.procs[1].source := 1] && j.target !in w.names
    ensures Runs(j, next, false) && next[0] == run[0]
    ensures var w, v := run[|run| - 1], next[|next| - 1];
            && v.names == w.names && v.nodes == w.nodes && |v.procs| == |w.procs|
            && v.procs[0] == w.procs[0] && v.procs[1].phase == Ended(WriteFailed)
  {
    next := GoesOn(j, run, 1, Cleaning);
    next := GoesOn(j, next, 1, Finally(WriteFailed));
    var v := next[|next| - 1];
    var s := View(j, v, 1);
    var t := s.(phase := Ended(WriteFailed), fdOpen := false, lockAcquired := false, disk := s.disk.(lock := Free));
    assert ProcStep(j, v, 1, t, false);
    RunsNext(j, next, 1, t);
    next := next + [Put(v, 1, t)];
  }

  /** The first call renames what is there and ends. */
  lemma Renames(j: Job, run: seq<World>) returns (next: seq<World>)
    requires Runs(j, run, false) && j.inPlace && j.src != j.target
    requires var w := run[|run| - 1];
             0 < |w.procs| && w.procs[0].phase == Closed && !w.procs[0].lockAcquired && j.target in w.names
    ensures Runs(j, next, false) && next[0] == run[0]
    ensures var w, v := run[|run| - 1], next[|next| - 1];
            && j.target !in v.names && j.src in v.names && v.names[j.src] == w.names[j.target]
            && v.nodes == w.nodes && v.locks == w.locks && |v.procs| == |w.procs|
            && v.procs[0].phase == Ended(CompactProtocol.Outcome.Done)
            && forall k :: 0 < k < |v.procs| ==> v.procs[k] == w.procs[k]
  {
    var w := run[|run| - 1];
    var s := View(j, w, 0);
    var t := s.(phase := Finally(CompactProtocol.Outcome.Done), disk := Rename(s.disk, j.target, j.src));
    assert ProcStep(j, w, 0, t, false);
    RunsNext(j, run, 0, t);
    LockStays(w, 0, t);
    next := run + [Put(w, 0, t)];
    var v := next[|next| - 1];
    t := View(j, v, 0).(phase := Ended(CompactProtocol.Outcome.Done), fdOpen := false, lockAcquired := false);
    assert ProcStep(j, v, 0, t, false);
    RunsNext(j, next, 0, t);
    LockStays(v, 0, t);
    next := next + [Put(v, 0, t)];
  }

  /** The source survives every run of two calls or more exactly if none may enter another's window. */
  lemma SurvivesIffWindowClosed(j: Job, good: seq<Byte> -> bool, w: World, made: Inode, guarded: bool)
    requires Outset(j, good, w) && KeepsGood(j, good) && !good([])
    requires |w.procs| >= 2 && !j.single(w.nodes[w.names[j.src]].bytes)
    requires j.target !in w.names && made !in w.nodes
    ensures guarded <==> forall run: seq<World>, k ::
              Runs(j, run, guarded) && run[0] == w && 0 <= k < |run| ==> Intact(j, good, DiskOf(run[k]))
  {
    if guarded {
      forall run: seq<World>, k | Runs(j, run, guarded) && run[0] == w && 0 <= k < |run|
        ensures Intact(j, good, DiskOf(run[k]))
      {
        SourceSurvivesRivals(j, good, run, k, DiskOf(run[k]));
      }
    } else {
      var run := RivalEmpties(j, good, w, made);
      assert !Intact(j, good, DiskOf(run[|run| - 1]));
    }
  }
}
