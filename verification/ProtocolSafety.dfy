/** Lock exclusion, in every disciplined run. */
module ProtocolSafety {
  import opened FirstFit
  import opened Protocol
  import opened ProtocolAccounting
  import opened ProtocolSession
  import opened ProtocolReferences
  import opened ProtocolPending

  /** A locked file is held by its owner alone. */
  ghost predicate Held(f: File) {
    f.locked != 0 ==> OnlyHolder(f, f.locked)
  }

  ghost predicate AllHeld(s: State) {
    forall n :: n in s.files ==> Held(s.files[n])
  }

  ghost predicate Inv(s: State) {
    Accounted(s) && AllExact(s) && AllQueued(s) && AllHeld(s)
  }

  // ---------- discipline ----------

  /** The `open` tries to lock an unlocked existing file. */
  ghost predicate OpensToLock(s: State, name: Name, create: bool, lock: bool) {
    && name != "" && |s.fds| != MAX_OPEN_FILES && !create && lock && name in s.files
    && s.files[name].locked == 0 && s.files[name].pending == 0
  }

  /** No process opens a file with a lock that only others have open. */
  ghost predicate HeldOpen(s: State, name: Name, create: bool, lock: bool, pid: Pid) {
    OpensToLock(s, name, create, lock) ==> pid in s.files[name].refs || s.files[name].refs == []
  }

  /**
   * A blocked process makes no further call, no file with a pending lock is evicted, no name is
   * created again over open descriptors, and no process locks by `open` a file that only others hold.
   */
  ghost predicate Disciplined(s: State, e: Event) {
    Orderly(s, e) && FreshNames(s, e) && (e.EvOpen? ==> HeldOpen(s, e.name, e.create, e.lock, e.pid))
  }

  ghost predicate DisciplinedRun(s: State, es: seq<Event>)
    requires Possible(s, es)
    decreases |es|
  {
    es == [] || (Disciplined(s, es[0]) && DisciplinedRun(Step(s, es[0]).0, es[1..]))
  }

  // ---------- single files ----------

  /** Losing references, or the lock, keeps a file held. */
  lemma LessHeld(f: File, g: File)
    requires Held(f) && (g.locked == f.locked || g.locked == 0)
    requires forall p: Pid :: Count(g, p) <= Count(f, p)
    ensures Held(g)
  {
    assert forall p: Pid :: Count(g, p) > 0 ==> Count(f, p) > 0;
  }

  lemma IncreasedHeld(f: File, pid: Pid)
    requires Held(f) && (f.locked == 0 || f.locked == pid)
    ensures Held(IncreaseRefs(f, pid))
  {
    forall p: Pid
      ensures Count(IncreaseRefs(f, pid), p) == Count(f, p) + if p == pid then 1 else 0
    {
      IncreaseCount(f, pid, p);
    }
  }

  lemma LockedHeld(f: File, pid: Pid, pending: nat)
    requires OnlyHolder(f, pid)
    ensures Held(f.(locked := pid, pending := pending))
  {
    assert forall p: Pid :: Count(f.(locked := pid, pending := pending), p) == Count(f, p);
  }

  lemma DroppedHeld(f: File, pid: Pid, n: nat)
    requires Held(f) && f.refCount == |f.refs|
    ensures Held(DropRefs(f, pid, n).file)
  {
    DropRefsLoses(f, pid, n);
    LessHeld(f, DropRefs(f, pid, n).file);
  }

  // ---------- the steps ----------

  lemma FinishOpenHeld(s: State, name: Name, pid: Pid)
    requires AllHeld(s) && name in s.files && (s.files[name].locked == 0 || s.files[name].locked == pid)
    ensures AllHeld(FinishOpen(s, name, pid).0)
  {
    hide Held, FirstFree, IncreaseRefs;
    IncreasedHeld(s.files[name], pid);
  }

  lemma CompletedHeld(s: State, name: Name, pid: Pid, opening: bool)
    requires AllHeld(s) && name in s.files && s.files[name].locked == pid
    ensures AllHeld(Completed(s, name, pid, opening).0)
  {
    if opening {
      FinishOpenHeld(s, name, pid);
    }
  }

  /** A process that need not wait for a file it has open, or nobody has, holds it alone. */
  lemma Alone(s: State, name: Name, pid: Pid)
    requires Accounted(s) && name in s.files && !MustWait(s.files[name], pid)
    requires pid in s.files[name].refs || s.files[name].refs == []
    ensures OnlyHolder(s.files[name], pid)
  {
    assert Covered(s, name);
    MustWaitIff(s.files[name], pid);
    CountPositive(s.files[name], pid);
  }

  lemma LockInodeHeld(s: State, name: Name, pid: Pid, opening: bool)
    requires Accounted(s) && AllHeld(s) && name in s.files && s.files[name].locked == 0
    requires s.files[name].pending == 0 ==> pid in s.files[name].refs || s.files[name].refs == []
    ensures AllHeld(LockInode(s, name, pid, opening).0)
  {
    hide Accounted, MustWait, Completed, OnlyHolder;
    var f := s.files[name];
    if f.pending == 0 && !MustWait(f, pid) {
      Alone(s, name, pid);
      LockedHeld(f, pid, f.pending);
      CompletedHeld(WithFile(s, name, f.(locked := pid)), name, pid, opening);
    }
  }

  lemma OpenFileHeld(s: State, name: Name, lock: bool, pid: Pid)
    requires Accounted(s) && AllHeld(s) && name in s.files
    requires lock && s.files[name].locked == 0 && s.files[name].pending == 0 ==>
      pid in s.files[name].refs || s.files[name].refs == []
    ensures AllHeld(OpenFile(s, name, lock, pid).0)
  {
    hide Accounted, AllHeld, FinishOpen, LockInode;
    var f := s.files[name];
    if f.locked == 0 && lock {
      LockInodeHeld(s, name, pid, true);
    } else if f.locked == 0 || f.locked == pid {
      FinishOpenHeld(s, name, pid);
    }
  }

  lemma OpenHeld(s: State, name: Name, create: bool, lock: bool, pid: Pid, room: bool)
    requires Accounted(s) && AllHeld(s) && HeldOpen(s, name, create, lock, pid)
    ensures AllHeld(Open(s, name, create, lock, pid, room).0)
  {
    hide Accounted, OpenFile, Held;
    if Creates(s, name, create, room) {
      CreatedAccounted(s, name);
      NewHeld();
      OpenFileHeld(Created(s, name), name, lock, pid);
    } else if name != "" && |s.fds| != MAX_OPEN_FILES && !create && name in s.files {
      OpenFileHeld(s, name, lock, pid);
    }
  }

  lemma NewHeld()
    ensures Held(File(0, [], 0, 0))
  {
  }

  lemma LockHeld(s: State, fd: nat, pid: Pid)
    requires Accounted(s) && AllExact(s) && AllHeld(s)
    ensures AllHeld(Lock(s, fd, pid).0)
  {
    if Lookup(s, fd, pid) == Done && s.fds[fd].name in s.files && s.files[s.fds[fd].name].locked == 0 {
      var name := s.fds[fd].name;
      assert Exact(s, name);
      hide Accounted, AllExact, AllHeld, LockInode;
      HolderCounts(s, fd);
      CountPositive(s.files[name], pid);
      LockInodeHeld(s, name, pid, false);
    }
  }

  lemma ResumeHeld(s: State, pid: Pid)
    requires Accounted(s) && AllQueued(s) && AllHeld(s) && pid in s.waits && s.waits[pid].awake
    ensures AllHeld(Resume(s, pid).0)
  {
    var w := s.waits[pid];
    assert w.name in s.files;
    hide Accounted, AllQueued, MustWait, Completed, Held, OnlyHolder;
    if !MustWait(s.files[w.name], pid) {
      var f := s.files[w.name];
      AloneAfterWait(s, pid);
      Granted(s, pid);
      LockedHeld(f, pid, 0);
      hide Resume;
      var t := s.(files := s.files[w.name := f.(locked := pid, pending := 0)], waits := s.waits - {pid});
      CompletedHeld(t, w.name, pid, w.opening);
    }
  }

  lemma DroppedAllHeld(s: State, name: Name, pid: Pid, n: nat)
    requires Accounted(s) && AllHeld(s) && name in s.files
    ensures AllHeld(Dropped(s, name, pid, n).0)
  {
    assert Covered(s, name);
    hide Accounted, Held, DropRefs;
    DroppedHeld(s.files[name], pid, n);
  }

  lemma CloseHeld(s: State, fd: nat, pid: Pid)
    requires Accounted(s) && AllHeld(s)
    ensures AllHeld(Close(s, fd, pid).0)
  {
    hide Accounted, Held, Dropped;
    if Lookup(s, fd, pid) == Done && s.fds[fd].name in s.files {
      DroppedAllHeld(s, s.fds[fd].name, pid, 1);
      DroppedFds(s, s.fds - {fd}, s.fds[fd].name, pid);
    }
  }

  lemma UnlockHeld(s: State, fd: nat, pid: Pid)
    requires AllHeld(s)
    ensures AllHeld(Unlock(s, fd, pid).0)
  {
  }

  lemma {:induction false} SessionFilesHeld(s: State, names: seq<Name>, pid: Pid)
    requires Accounted(s) && AllHeld(s) && forall n :: n in names ==> n in s.files
    ensures AllHeld(SessionFiles(s, names, pid).0)
    decreases |names|
  {
    if names != [] {
      SessionFilesStep(s, names, pid);
      SessionFileHeld(s, names[0], pid);
      SessionFileAccounted(s, names[0], pid);
      hide Accounted, AllHeld, SessionFiles, Dropped;
      if Dropped(s, names[0], pid, |FdsOf(s, names[0], pid)|).1 {
        SessionFilesHeld(SessionFile(s, names[0], pid), names[1..], pid);
      }
    }
  }

  lemma SessionFileHeld(s: State, name: Name, pid: Pid)
    requires Accounted(s) && AllHeld(s) && name in s.files
    ensures AllHeld(Dropped(s, name, pid, |FdsOf(s, name, pid)|).0) && AllHeld(SessionFile(s, name, pid))
  {
    hide Accounted, DropRefs, FdsOf;
    DroppedAllHeld(s, name, pid, |FdsOf(s, name, pid)|);
  }

  lemma RemoveSessionHeld(s: State, pid: Pid)
    requires Accounted(s) && AllHeld(s)
    ensures AllHeld(RemoveSession(s, pid).0)
  {
    hide Accounted, SessionFiles, Held;
    if s.order != [] {
      ListedFiles(s);
      SessionFilesHeld(s, s.order, pid);
    }
  }

  lemma StepHeld(s: State, e: Event)
    requires Inv(s) && Enabled(s, e) && Disciplined(s, e)
    ensures AllHeld(Step(s, e).0)
  {
    hide Accounted, AllExact, AllQueued, Open, Close, Lock, Unlock, Resume, RemoveSession, Held;
    match e
    case EvOpen(name, create, lock, pid, room) => OpenHeld(s, name, create, lock, pid, room);
    case EvClose(fd, pid) => CloseHeld(s, fd, pid);
    case EvLock(fd, pid) => LockHeld(s, fd, pid);
    case EvUnlock(fd, pid) => UnlockHeld(s, fd, pid);
    case EvRemoveSession(pid) => RemoveSessionHeld(s, pid);
    case EvResume(pid) => ResumeHeld(s, pid);
    case _ =>
  }

  /** A disciplined step keeps the invariant and never touches a destroyed inode. */
  lemma StepInv(s: State, e: Event)
    requires Inv(s) && Enabled(s, e) && Disciplined(s, e)
    ensures Inv(Step(s, e).0) && Step(s, e).1 != Undefined
  {
    hide Accounted, AllExact, AllQueued, AllHeld, Step, Orderly, FreshNames;
    StepAccounted(s, e);
    StepExact(s, e);
    StepQueued(s, e);
    StepHeld(s, e);
  }

  lemma {:induction false} RunInv(s: State, es: seq<Event>)
    requires Inv(s) && Possible(s, es) && DisciplinedRun(s, es)
    ensures Inv(Run(s, es))
    decreases |es|
  {
    hide Inv, Step, Disciplined;
    if es != [] {
      StepInv(s, es[0]);
      RunInv(Step(s, es[0]).0, es[1..]);
    }
  }

  // ---------- exclusion ----------

  /** Every descriptor of a locked file belongs to the process that locked it. */
  ghost predicate Exclusive(s: State) {
    forall fd :: fd in s.fds && s.fds[fd].name in s.files && s.files[s.fds[fd].name].locked != 0 ==>
      s.fds[fd].owner == s.files[s.fds[fd].name].locked
  }

  lemma HeldExclusive(s: State)
    requires AllExact(s) && AllHeld(s)
    ensures Exclusive(s)
  {
    forall fd | fd in s.fds && s.fds[fd].name in s.files && s.files[s.fds[fd].name].locked != 0
      ensures s.fds[fd].owner == s.files[s.fds[fd].name].locked
    {
      assert Exact(s, s.fds[fd].name) && Held(s.files[s.fds[fd].name]);
      HolderCounts(s, fd);
    }
  }

  /**
   * Lock exclusion: in every disciplined run the descriptors of a locked file belong to the lock
   * owner, so no other process passes the guard of `read` and `write` - although the guard looks
   * at the stale copy, whose lock field is always 0 or the descriptor's owner.
   */
  lemma LockExclusion(es: seq<Event>, name: Name, fd: nat, pid: Pid)
    requires Possible(Init, es) && DisciplinedRun(Init, es)
    requires var s := Run(Init, es);
             name in s.files && s.files[name].locked != 0 && fd in s.fds && s.fds[fd].name == name
    ensures var s := Run(Init, es);
            && s.fds[fd].owner == s.files[name].locked
            && (s.fds[fd].copyLocked == 0 || s.fds[fd].copyLocked == s.fds[fd].owner)
            && (Access(s, fd, pid) == Done <==> pid == s.files[name].locked)
  {
    RunInv(Init, es);
    HeldExclusive(Run(Init, es));
  }

  // ---------- the discipline is needed ----------

  /** All descriptors of the name belong to the process. */
  ghost predicate OwnsAll(s: State, name: Name, pid: Pid) {
    forall fd :: fd in s.fds && s.fds[fd].name == name ==> s.fds[fd].owner == pid
  }

  /**
   * An `open` keeps exclusion if and only if it does not lock a new file over another process's
   * open descriptors, and does not lock a file that only others hold.
   */
  lemma OpenExclusiveIff(s: State, name: Name, create: bool, lock: bool, pid: Pid, room: bool)
    requires Accounted(s) && AllExact(s) && Exclusive(s)
    ensures Exclusive(Open(s, name, create, lock, pid, room).0) <==>
            && (lock && Creates(s, name, create, room) ==> OwnsAll(s, name, pid))
            && HeldOpen(s, name, create, lock, pid)
  {
    hide Accounted, AllExact, FirstFree, MustWait;
    if Creates(s, name, create, room) {
      CreateExclusiveIff(s, name, lock, pid);
    } else if OpensToLock(s, name, create, lock) {
      LockExclusiveIff(s, name, pid, room);
    }
  }

  lemma CreateExclusiveIff(s: State, name: Name, lock: bool, pid: Pid)
    requires Exclusive(s) && Creates(s, name, true, true)
    ensures Exclusive(Open(s, name, true, lock, pid, true).0) <==> (lock ==> OwnsAll(s, name, pid))
  {
    var fd := FirstFree(s.fds.Keys, 0);
    CreateOpens(s, name, lock, pid, fd);
    hide Open, FirstFree;
    var t := Open(s, name, true, lock, pid, true).0;
    if lock && !OwnsAll(s, name, pid) {
      var other :| other in s.fds && s.fds[other].name == name && s.fds[other].owner != pid;
      assert t.fds[other] == s.fds[other];
    }
  }

  lemma LockExclusiveIff(s: State, name: Name, pid: Pid, room: bool)
    requires Accounted(s) && AllExact(s) && Exclusive(s) && OpensToLock(s, name, false, true)
    ensures Exclusive(Open(s, name, false, true, pid, room).0) <==>
            pid in s.files[name].refs || s.files[name].refs == []
  {
    hide Accounted, AllExact, MustWait, FirstFree, Exclusive;
    var t := Open(s, name, false, true, pid, room).0;
    var f := s.files[name];
    if MustWait(f, pid) {
      WaiterHolds(f, pid);
      SameExclusive(s, t);
    } else {
      var fd := FirstFree(s.fds.Keys, 0);
      assert t.files == s.files[name := IncreaseRefs(f.(locked := pid), pid)];
      LockedExclusiveIff(s, t, name, pid, fd);
      OwnsAllIff(s, name, pid);
    }
  }

  lemma WaiterHolds(f: File, pid: Pid)
    requires MustWait(f, pid)
    ensures pid in f.refs
  {
  }

  lemma SameExclusive(s: State, t: State)
    requires Exclusive(s) && t.fds == s.fds && t.files.Keys == s.files.Keys
    requires forall n :: n in s.files ==> t.files[n].locked == s.files[n].locked
    ensures Exclusive(t)
  {
  }

  /** Taking a lock keeps exclusion exactly if all descriptors belong to the process. */
  lemma LockedExclusiveIff(s: State, t: State, name: Name, pid: Pid, fd: nat)
    requires Exclusive(s) && name in s.files && fd !in s.fds
    requires t.fds == s.fds[fd := Desc(pid, name, pid)] && t.files.Keys == s.files.Keys
    requires forall n :: n in s.files && n != name ==> t.files[n] == s.files[n]
    requires t.files[name].locked == pid
    ensures Exclusive(t) <==> OwnsAll(s, name, pid)
  {
    if !OwnsAll(s, name, pid) {
      var other :| other in s.fds && s.fds[other].name == name && s.fds[other].owner != pid;
      assert t.fds[other] == s.fds[other];
    }
  }

  lemma OwnsAllIff(s: State, name: Name, pid: Pid)
    requires Accounted(s) && AllExact(s) && name in s.files && !MustWait(s.files[name], pid)
    ensures OwnsAll(s, name, pid) <==> pid in s.files[name].refs || s.files[name].refs == []
  {
    var f := s.files[name];
    assert Exact(s, name);
    if pid in f.refs || f.refs == [] {
      Alone(s, name, pid);
      forall fd | fd in s.fds && s.fds[fd].name == name
        ensures s.fds[fd].owner == pid
      {
        HolderCounts(s, fd);
      }
    } else {
      var q := f.refs[0];
      CountPositive(f, q);
      assert FdsOf(s, name, q) != {};
      var fd :| fd in FdsOf(s, name, q);
    }
  }

  /** An `open` keeps the whole invariant if and only if it is disciplined. */
  lemma OpenSafeIff(s: State, name: Name, create: bool, lock: bool, pid: Pid, room: bool)
    requires Inv(s) && pid !in s.waits
    ensures Inv(Open(s, name, create, lock, pid, room).0) <==> Disciplined(s, EvOpen(name, create, lock, pid, room))
  {
    hide Accounted, AllExact, AllQueued, AllHeld, Open, Exclusive, HeldOpen, Stale;
    var e := EvOpen(name, create, lock, pid, room);
    if Disciplined(s, e) {
      StepInv(s, e);
    } else {
      OpenExactIff(s, name, create, lock, pid, room);
      HeldExclusive(s);
      OpenExclusiveIff(s, name, create, lock, pid, room);
      if AllExact(Open(s, name, create, lock, pid, room).0) && AllHeld(Open(s, name, create, lock, pid, room).0) {
        HeldExclusive(Open(s, name, create, lock, pid, room).0);
      }
    }
  }

  /** An eviction keeps the invariant if and only if no lock is pending on the file. */
  lemma EvictSafeIff(s: State, name: Name)
    requires Inv(s) && name in s.files
    ensures Inv(Without(s, name)) <==> s.files[name].pending == 0
  {
    hide Accounted, AllExact, AllQueued, AllHeld;
    EvictQueuedIff(s, name);
    if s.files[name].pending == 0 {
      StepInv(s, EvEvict(name));
    }
  }

  /** An unlucky `open`: `q` locks a file that `p` has open, and `p` can still read and write it. */
  ghost function UnheldLock(name: Name, p: Pid, q: Pid): seq<Event> {
    [EvOpen(name, true, false, p, true), EvOpen(name, false, true, q, true)]
  }

  lemma ExclusionCanFail(name: Name, p: Pid, q: Pid)
    requires name != "" && p != q
    ensures Possible(Init, UnheldLock(name, p, q))
    ensures var s := Run(Init, UnheldLock(name, p, q));
            name in s.files && s.files[name].locked == q && Access(s, 0, p) == Done
  {
    var es := UnheldLock(name, p, q);
    FirstNumbers();
    CreateOpens(Init, name, false, p, 0);
    var s := Open(Init, name, true, false, p, true).0;
    LocksUnheld(s, name, p, q);
    var t := Open(s, name, false, true, q, true).0;
    hide Open, Access, Step, Enabled, Run, Possible, FirstFree;
    OpenStep(Init, es[0]);
    OpenStep(s, es[1]);
    OneStep(Init, es, 0, s);
    OneStep(s, es, 1, t);
    NoStep(t, es);
    NoStep(Init, es);
  }

  lemma LocksUnheld(s: State, name: Name, p: Pid, q: Pid)
    requires name != "" && p != q && s.files == map[name := File(0, [p], 1, 0)] && s.fds == map[0 := Desc(p, name, 0)]
    ensures var t := Open(s, name, false, true, q, true).0;
            name in t.files && t.files[name].locked == q && Access(t, 0, p) == Done
  {
    hide FirstFree;
  }
}
