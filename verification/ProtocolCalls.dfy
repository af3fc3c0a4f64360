/** What each call does to locks, references, descriptors and waiting processes, and when it answers what. */
module ProtocolCalls {
  import opened Wrappers
  import opened FirstFit
  import opened Protocol
  import opened ProtocolAccounting
  import opened ProtocolSession
  import opened ProtocolReferences
  import opened ProtocolPending
  import opened ProtocolSafety

  ghost predicate Owns(s: State, fd: nat, pid: Pid) {
    fd in s.fds && s.fds[fd].owner == pid
  }

  /** The descriptor is the process's, and its file is stored. */
  ghost predicate HasOpen(s: State, fd: nat, pid: Pid) {
    Owns(s, fd, pid) && s.fds[fd].name in s.files
  }

  /** The descriptor is the process's, and its file is stored and locked by the process. */
  ghost predicate HoldsLock(s: State, fd: nat, pid: Pid) {
    HasOpen(s, fd, pid) && s.files[s.fds[fd].name].locked == pid
  }

  /** Of the files, only one may have changed. */
  ghost predicate OneFile(s: State, t: State, name: Name) {
    && name in s.files && t.files.Keys == s.files.Keys && t.order == s.order
    && forall n :: n in s.files && n != name ==> t.files[n] == s.files[n]
  }

  /** Nothing but the lock of a file changed, if that. */
  ghost predicate LockSet(s: State, t: State, name: Name, locked: nat) {
    && OneFile(s, t, name) && t.fds == s.fds && t.waits == s.waits
    && t.files[name].locked == locked && t.files[name].pending == s.files[name].pending
    && t.files[name].refs == s.files[name].refs && t.files[name].refCount == s.files[name].refCount
  }

  /** The process sleeps until it can lock the file, and then goes on with its `open`, or its `lock`. */
  ghost predicate FellAsleep(s: State, t: State, name: Name, pid: Pid, opening: bool) {
    && OneFile(s, t, name) && t.fds == s.fds
    && t.waits == s.waits[pid := Wait(name, opening, false, false)]
    && t.files[name].locked == s.files[name].locked && t.files[name].pending == s.files[name].pending + 1
    && t.files[name].refs == s.files[name].refs && t.files[name].refCount == s.files[name].refCount
  }

  /** A process with a descriptor of the file has to wait exactly if another process has one. */
  lemma WaitsForOthers(s: State, name: Name, pid: Pid)
    requires Accounted(s) && AllExact(s) && name in s.files
    ensures MustWait(s.files[name], pid) <==> FdsOf(s, name, pid) != {} && !OwnsAll(s, name, pid)
  {
    assert Covered(s, name) && Exact(s, name);
    var f := s.files[name];
    MustWaitIff(f, pid);
    assert Count(f, pid) == |FdsOf(s, name, pid)|;
    if OwnsAll(s, name, pid) {
      forall p: Pid | Count(f, p) > 0
        ensures p == pid
      {
        assert FdsOf(s, name, p) != {};
        var fd :| fd in FdsOf(s, name, p);
      }
    } else {
      var fd :| fd in s.fds && s.fds[fd].name == name && s.fds[fd].owner != pid;
      HolderCounts(s, fd);
    }
  }

  // ---------- unlock ----------

  /** `unlock` succeeds exactly for the lock owner, and then takes away the lock and nothing else. */
  lemma UnlockIff(s: State, fd: nat, pid: Pid)
    ensures Unlock(s, fd, pid).1 == Done <==> HoldsLock(s, fd, pid)
    ensures Unlock(s, fd, pid).1 == Done ==> LockSet(s, Unlock(s, fd, pid).0, s.fds[fd].name, 0)
    ensures Unlock(s, fd, pid).1 != Done ==> Unlock(s, fd, pid).0 == s && Unlock(s, fd, pid).1.Failed?
    ensures Unlock(s, fd, pid).1 == Failed(EBUSY) <==>
            HasOpen(s, fd, pid) && s.files[s.fds[fd].name].locked != 0 && s.files[s.fds[fd].name].locked != pid
  {
  }

  /**
   * In every run in which blocked processes make no call and no file with a pending lock is evicted: a file is
   * closed to other processes while it is locked, and open to them after its owner unlocked it.
   */
  lemma UnlockLetsIn(es: seq<Event>, fd: nat, pid: Pid, q: Pid, room: bool)
    requires Possible(Init, es) && OrderlyRun(Init, es) && HoldsLock(Run(Init, es), fd, pid) && q != pid
    requires |Run(Init, es).fds| < MAX_OPEN_FILES
    ensures var s := Run(Init, es);
            var name := s.fds[fd].name;
            var t := Unlock(s, fd, pid).0;
            && Open(s, name, false, false, q, room) == Open(s, name, false, true, q, room) == (s, Failed(EBUSY))
            && Open(t, name, false, false, q, room).1.Opened?
  {
    var s := Run(Init, es);
    var name := s.fds[fd].name;
    RunQueued(Init, es);
    RunNamed(Init, es);
    LockedQuiet(s, name);
    UnlockIff(s, fd, pid);
    hide AllQueued, Accounted, Run, FirstFree, Possible, OrderlyRun, IncreaseRefs;
  }

  lemma FinishOpenNames(s: State, name: Name, pid: Pid)
    requires name in s.files
    ensures FinishOpen(s, name, pid).0.files.Keys == s.files.Keys
  {
    hide FirstFree, IncreaseRefs;
  }

  lemma LockInodeNames(s: State, name: Name, pid: Pid, opening: bool)
    requires name in s.files && s.files[name].locked == 0
    ensures LockInode(s, name, pid, opening).0.files.Keys == s.files.Keys
  {
    hide MustWait, FinishOpen;
    FinishOpenNames(WithFile(s, name, s.files[name].(locked := pid)), name, pid);
  }

  lemma OpenNames(s: State, name: Name, create: bool, lock: bool, pid: Pid, room: bool)
    ensures Open(s, name, create, lock, pid, room).0.files.Keys <= s.files.Keys + if name == "" then {} else {name}
  {
    hide LockInode, FinishOpen;
    var u := if create then Created(s, name) else s;
    if name in u.files {
      FinishOpenNames(u, name, pid);
      if u.files[name].locked == 0 {
        LockInodeNames(u, name, pid, true);
      }
    }
  }

  lemma LockNames(s: State, fd: nat, pid: Pid)
    ensures Lock(s, fd, pid).0.files.Keys == s.files.Keys
  {
    hide LockInode;
    if HasOpen(s, fd, pid) && s.files[s.fds[fd].name].locked == 0 {
      LockInodeNames(s, s.fds[fd].name, pid, false);
    }
  }

  lemma GrantNames(s: State, name: Name, pid: Pid, opening: bool)
    requires name in s.files
    ensures GrantLock(s, name, pid, opening).0.files.Keys == s.files.Keys
  {
    hide FinishOpen;
    var f := s.files[name];
    if f.pending > 0 {
      FinishOpenNames(WithFile(s, name, f.(locked := pid, pending := f.pending - 1)), name, pid);
    }
  }

  lemma ResumeNames(s: State, pid: Pid)
    requires pid in s.waits && s.waits[pid].awake
    ensures Resume(s, pid).0.files.Keys == s.files.Keys
  {
    hide MustWait, GrantLock;
    var w := s.waits[pid];
    if w.name in s.files {
      GrantNames(s.(waits := s.waits - {pid}), w.name, pid, w.opening);
    }
  }

  /** No stored file has an empty name. */
  lemma StepNamed(s: State, e: Event)
    requires "" !in s.files && Enabled(s, e)
    ensures "" !in Step(s, e).0.files
  {
    hide Open, Lock, Resume, DropRefs, FdsOf, SessionFiles;
    match e
    case EvOpen(name, create, lock, pid, room) => OpenNames(s, name, create, lock, pid, room);
    case EvLock(fd, pid) => LockNames(s, fd, pid);
    case EvResume(pid) => ResumeNames(s, pid);
    case EvRemoveSession(pid) => assert SessionFiles(s, s.order, pid).0.files.Keys == s.files.Keys;
    case _ =>
  }

  lemma {:induction false} RunNamed(s: State, es: seq<Event>)
    requires "" !in s.files && Possible(s, es)
    ensures "" !in Run(s, es).files
    decreases |es|
  {
    hide Step;
    if es != [] {
      StepNamed(s, es[0]);
      RunNamed(Step(s, es[0]).0, es[1..]);
    }
  }

  // ---------- lock ----------

  /** The process holds the lock of its descriptor's file, and nothing else changed. */
  ghost predicate TakesLock(s: State, t: State, fd: nat, pid: Pid) {
    HasOpen(s, fd, pid) && HoldsLock(t, fd, pid) && LockSet(s, t, s.fds[fd].name, pid)
  }

  ghost predicate AwaitsLock(s: State, t: State, fd: nat, pid: Pid) {
    HasOpen(s, fd, pid) && FellAsleep(s, t, s.fds[fd].name, pid, false)
  }

  /** A `lock` that succeeds leaves the file locked by its caller; it changes that lock and nothing else. */
  lemma LockTakes(s: State, fd: nat, pid: Pid)
    ensures var t, r := Lock(s, fd, pid).0, Lock(s, fd, pid).1;
            && (r == Done ==> TakesLock(s, t, fd, pid))
            && (r == Blocked ==> AwaitsLock(s, t, fd, pid))
            && (r != Done && r != Blocked ==> t == s && r.Failed?)
  {
    hide MustWait;
  }

  /** The answers of `lock`, told from the lock, the pending lock and the descriptors of the file. */
  lemma LockAnswers(s: State, fd: nat, pid: Pid)
    requires Accounted(s) && AllExact(s)
    ensures var r := Lock(s, fd, pid).1;
            && (r == Failed(EBADF) <==> fd !in s.fds)
            && (r == Failed(EPERM) <==> fd in s.fds && s.fds[fd].owner != pid)
            && (r == Failed(ENOENT) <==> Owns(s, fd, pid) && s.fds[fd].name !in s.files)
    ensures HasOpen(s, fd, pid) ==>
            var r, f := Lock(s, fd, pid).1, s.files[s.fds[fd].name];
            && (r == Failed(EBUSY) <==> f.locked != 0 && f.locked != pid)
            && (r == Failed(EDEADLK) <==> f.locked == 0 && f.pending > 0)
            && (r == Blocked <==> f.locked == 0 && f.pending == 0 && !OwnsAll(s, s.fds[fd].name, pid))
            && (r == Done <==>
                 f.locked == pid || (f.locked == 0 && f.pending == 0 && OwnsAll(s, s.fds[fd].name, pid)))
  {
    if HasOpen(s, fd, pid) {
      WaitsForOthers(s, s.fds[fd].name, pid);
      assert fd in FdsOf(s, s.fds[fd].name, pid);
    }
    hide Accounted, AllExact, OwnsAll, MustWait, FdsOf;
  }

  // ---------- open ----------

  /** The name is not empty, and a descriptor is free. */
  ghost predicate MayOpen(s: State, name: Name) {
    name != "" && |s.fds| != MAX_OPEN_FILES
  }

  /**
   * The process got the least unused descriptor, which copies the lock of the file, and one more reference.
   * If it was to lock the file, the file is now locked by the process; otherwise its lock stays.
   */
  ghost predicate Given(s: State, t: State, name: Name, lock: bool, pid: Pid, fd: nat) {
    && OneFile(s, t, name) && t.waits == s.waits
    && fd !in s.fds && (forall i: nat :: i < fd ==> i in s.fds)
    && t.fds == s.fds[fd := Desc(pid, name, t.files[name].locked)]
    && t.files[name].locked == (if lock then pid else s.files[name].locked)
    && t.files[name].pending == s.files[name].pending && t.files[name].refCount == s.files[name].refCount + 1
    && forall p: Pid :: Count(t.files[name], p) == Count(s.files[name], p) + if p == pid then 1 else 0
  }

  /** An unused descriptor, if there is one, and all smaller ones are used. */
  lemma FinishOpenGives(s: State, name: Name, pid: Pid)
    requires name in s.files
    ensures var t, r := FinishOpen(s, name, pid).0, FinishOpen(s, name, pid).1;
            if |s.fds| == MAX_OPEN_FILES then t == s && r == Failed(EMFILE)
            else r.Opened? && Given(s, t, name, false, pid, r.fd)
  {
    hide FirstFree;
    forall p: Pid
      ensures Count(IncreaseRefs(s.files[name], pid), p) == Count(s.files[name], p) + if p == pid then 1 else 0
    {
      IncreaseCount(s.files[name], pid, p);
    }
  }

  /** Taking the lock first. */
  lemma LockedFirst(s: State, u: State, t: State, name: Name, pid: Pid, fd: nat)
    requires LockSet(s, u, name, pid) && Given(u, t, name, false, pid, fd)
    ensures Given(s, t, name, true, pid, fd)
  {
    assert forall p: Pid :: Count(u.files[name], p) == Count(s.files[name], p);
  }

  lemma OpenLockGives(s: State, name: Name, pid: Pid)
    requires name in s.files && s.files[name].locked == 0 && |s.fds| != MAX_OPEN_FILES
    ensures var t, r := LockInode(s, name, pid, true).0, LockInode(s, name, pid, true).1;
            && (r.Opened? ==> Given(s, t, name, true, pid, r.fd))
            && (r == Blocked ==> FellAsleep(s, t, name, pid, true))
            && (r.Opened? <==> s.files[name].pending == 0 && !MustWait(s.files[name], pid))
            && (r == Blocked <==> s.files[name].pending == 0 && MustWait(s.files[name], pid))
            && (s.files[name].pending > 0 ==> t == s && r == Failed(EDEADLK))
  {
    hide MustWait, Given, FinishOpen;
    var u := WithFile(s, name, s.files[name].(locked := pid));
    FinishOpenGives(u, name, pid);
    var r := FinishOpen(u, name, pid);
    if r.1.Opened? {
      LockedFirst(s, u, r.0, name, pid, r.1.fd);
    }
  }

  /** Opening a stored file. */
  lemma OpenStored(s: State, name: Name, lock: bool, pid: Pid, room: bool)
    requires MayOpen(s, name) && name in s.files
    ensures var t, r, f := Open(s, name, false, lock, pid, room).0, Open(s, name, false, lock, pid, room).1, s.files[name];
            && (r.Opened? ==> Given(s, t, name, lock, pid, r.fd))
            && (r == Blocked ==> FellAsleep(s, t, name, pid, true))
            && (!r.Opened? && r != Blocked ==> t == s)
            && (r.Opened? <==>
                 || (f.locked == pid && (lock || f.pending == 0))
                 || (f.locked == 0 && f.pending == 0 && !(lock && MustWait(f, pid))))
            && (r == Blocked <==> f.locked == 0 && f.pending == 0 && lock && MustWait(f, pid))
            && (r == Failed(EDEADLK) <==> f.locked == 0 && f.pending > 0 && lock)
            && (r == Failed(EBUSY) <==> (f.locked != 0 && f.locked != pid) || (!lock && f.pending > 0))
  {
    hide MustWait, FinishOpen, Given, FellAsleep, LockInode;
    FinishOpenGives(s, name, pid);
    if s.files[name].locked == 0 {
      OpenLockGives(s, name, pid);
    } else if s.files[name].locked == pid && lock && FinishOpen(s, name, pid).1.Opened? {
      SameLock(s, FinishOpen(s, name, pid).0, name, pid, FinishOpen(s, name, pid).1.fd);
    }
  }

  lemma SameLock(s: State, t: State, name: Name, pid: Pid, fd: nat)
    requires Given(s, t, name, false, pid, fd) && s.files[name].locked == pid
    ensures Given(s, t, name, true, pid, fd)
  {
  }

  /** An `open` that creates succeeds exactly for a new name with room for it, and otherwise does nothing. */
  lemma OpenCreatesIff(s: State, name: Name, lock: bool, pid: Pid, room: bool)
    ensures var t, r := Open(s, name, true, lock, pid, room).0, Open(s, name, true, lock, pid, room).1;
            && (r.Opened? <==> MayOpen(s, name) && name !in s.files && room)
            && (r.Opened? ==> Given(s.(files := s.files[name := File(0, [], 0, 0)], order := s.order + [name]), t,
                                 name, lock, pid, r.fd))
            && (!r.Opened? ==> t == s && r.Failed?)
            && (r == Failed(EEXIST) <==> MayOpen(s, name) && name in s.files)
            && (r == Failed(EDQUOT) <==> MayOpen(s, name) && name !in s.files && !room)
  {
    hide FirstFree, Given, LockInode, FinishOpen;
    if MayOpen(s, name) && name !in s.files && room {
      var u := Created(s, name);
      assert !MustWait(u.files[name], pid);
      FinishOpenGives(u, name, pid);
      OpenLockGives(u, name, pid);
    }
  }

  /** The answers of `open`, told from the locks, pending locks and descriptors. */
  lemma OpenAnswers(s: State, name: Name, create: bool, lock: bool, pid: Pid, room: bool)
    requires Accounted(s) && AllExact(s)
    ensures var r := Open(s, name, create, lock, pid, room).1;
            && (r == Failed(EINVAL) <==> name == "")
            && (r == Failed(ENFILE) <==> name != "" && |s.fds| == MAX_OPEN_FILES)
            && (r == Failed(ENOENT) <==> MayOpen(s, name) && !create && name !in s.files)
            && (r == Failed(EEXIST) <==> MayOpen(s, name) && create && name in s.files)
            && (r == Failed(EDQUOT) <==> MayOpen(s, name) && create && name !in s.files && !room)
    ensures MayOpen(s, name) && !create && name in s.files ==>
            var r, f := Open(s, name, create, lock, pid, room).1, s.files[name];
            var waits := lock && FdsOf(s, name, pid) != {} && !OwnsAll(s, name, pid);
            && (r == Failed(EBUSY) <==> (f.locked != 0 && f.locked != pid) || (!lock && f.pending > 0))
            && (r == Failed(EDEADLK) <==> f.locked == 0 && f.pending > 0 && lock)
            && (r == Blocked <==> f.locked == 0 && f.pending == 0 && waits)
            && (r.Opened? <==>
                 || (f.locked == pid && (lock || f.pending == 0))
                 || (f.locked == 0 && f.pending == 0 && !waits))
  {
    if name in s.files {
      WaitsForOthers(s, name, pid);
      if MayOpen(s, name) {
        OpenStored(s, name, lock, pid, room);
      }
    }
    OpenCreatesIff(s, name, lock, pid, room);
    hide Accounted, AllExact, OwnsAll, MustWait, FdsOf, OpenFile;
  }

  // ---------- close, remove, read and write ----------

  lemma DropsOne(s: State, name: Name, pid: Pid)
    requires name in s.files && s.files[name].refCount == |s.files[name].refs|
    ensures var t, ok := Dropped(s, name, pid, 1).0, Dropped(s, name, pid, 1).1;
            && OneFile(s, t, name) && t.fds == s.fds && Woken(s, t)
            && t.files[name].locked == s.files[name].locked && t.files[name].pending == s.files[name].pending
            && (ok <==> Count(s.files[name], pid) > 0)
            && forall p: Pid :: Count(t.files[name], p) == Count(s.files[name], p) - if p == pid && ok then 1 else 0
  {
    hide DropRefs;
    DropRefsLoses(s.files[name], pid, 1);
    SignalWakes(s, Dropped(s, name, pid, 1).0, name);
  }

  /** `close` takes away the descriptor and one reference of the process, if it has one. It keeps the lock. */
  lemma CloseDoes(s: State, fd: nat, pid: Pid)
    requires Accounted(s)
    ensures var t, r := Close(s, fd, pid).0, Close(s, fd, pid).1;
            && (!Owns(s, fd, pid) ==> t == s && r == Failed(if fd in s.fds then EPERM else EBADF))
            && (Owns(s, fd, pid) ==> t.fds == s.fds - {fd} && t.order == s.order)
            && (Owns(s, fd, pid) && !HasOpen(s, fd, pid) ==> t.files == s.files && t.waits == s.waits && r == Done)
    ensures HasOpen(s, fd, pid) ==>
            var t, r, name := Close(s, fd, pid).0, Close(s, fd, pid).1, s.fds[fd].name;
            var f := s.files[name];
            && OneFile(s, t, name) && Woken(s, t)
            && t.files[name].locked == f.locked && t.files[name].pending == f.pending
            && (forall p: Pid :: Count(t.files[name], p) == Count(f, p) - if p == pid && r == Done then 1 else 0)
            && (r == Done <==> Count(f, pid) > 0) && (r != Done ==> r == Failed(EPERM))
    ensures AllExact(s) ==> (Close(s, fd, pid).1 == Done <==> Owns(s, fd, pid))
  {
    if HasOpen(s, fd, pid) {
      assert Covered(s, s.fds[fd].name);
      if AllExact(s) {
        HolderCounts(s, fd);
      }
      hide Accounted, AllExact, Exact, FdsOf, Dropped, Woken;
      DropsOne(s.(fds := s.fds - {fd}), s.fds[fd].name, pid);
      assert forall t :: Woken(s.(fds := s.fds - {fd}), t) ==> Woken(s, t);
    }
  }

  /** Only the lock owner can remove a file. The file is gone, its descriptors stay, and its waiters are orphans. */
  lemma RemoveIff(s: State, name: Name, pid: Pid)
    ensures var t, r := Remove(s, name, pid).0, Remove(s, name, pid).1;
            && (r == Done <==> name != "" && name in s.files && s.files[name].locked == pid)
            && (r == Failed(ENOENT) <==> name != "" && name !in s.files)
            && (r != Done ==> t == s && r.Failed?)
            && (r == Done ==>
                 && t.files == s.files - {name} && t.fds == s.fds && t.waits.Keys == s.waits.Keys
                 && multiset(t.order) == multiset(s.order) - multiset{name}
                 && forall p :: p in s.waits ==>
                      t.waits[p] == s.waits[p].(orphan := s.waits[p].orphan || s.waits[p].name == name))
  {
    hide DeleteFirst;
  }

  /**
   * The lock that the guard of `read` and `write` looks at never stops anyone in any run, because it is the
   * descriptor's copy: the guard lets through exactly the owner of a descriptor whose file is stored.
   */
  lemma AccessIff(es: seq<Event>, fd: nat, pid: Pid)
    requires Possible(Init, es)
    ensures Access(Run(Init, es), fd, pid) == Done <==> HasOpen(Run(Init, es), fd, pid)
    ensures Access(Run(Init, es), fd, pid) != Failed(EBUSY)
  {
    RunAccounted(Init, es);
  }

  // ---------- blocked calls ----------

  /** The process does not start to wait; if it goes on waiting, then for the same file and call. */
  ghost predicate Remembers(s: State, t: State, pid: Pid) {
    pid in t.waits ==>
      pid in s.waits && t.waits[pid].name == s.waits[pid].name && t.waits[pid].opening == s.waits[pid].opening
  }

  lemma OthersRemember(s: State, t: State, q: Pid, pid: Pid)
    requires t.waits - {q} == s.waits - {q} && q != pid
    ensures Remembers(s, t, pid)
  {
    assert pid in t.waits ==> pid in t.waits - {q} && pid in s.waits - {q} && (t.waits - {q})[pid] == (s.waits - {q})[pid];
  }

  lemma LockInodeWaits(s: State, name: Name, pid: Pid, opening: bool)
    requires name in s.files && s.files[name].locked == 0
    ensures LockInode(s, name, pid, opening).0.waits - {pid} == s.waits - {pid}
  {
    hide MustWait, FirstFree;
  }

  lemma OpenWaits(s: State, name: Name, create: bool, lock: bool, pid: Pid, room: bool)
    ensures Open(s, name, create, lock, pid, room).0.waits - {pid} == s.waits - {pid}
  {
    hide LockInode, FirstFree;
    var u := if create then Created(s, name) else s;
    if name in u.files && u.files[name].locked == 0 {
      LockInodeWaits(u, name, pid, true);
    }
  }

  lemma LockWaits(s: State, fd: nat, pid: Pid)
    ensures Lock(s, fd, pid).0.waits - {pid} == s.waits - {pid}
  {
    hide LockInode;
    if HasOpen(s, fd, pid) && s.files[s.fds[fd].name].locked == 0 {
      LockInodeWaits(s, s.fds[fd].name, pid, false);
    }
  }

  lemma GrantWaits(s: State, name: Name, pid: Pid, opening: bool)
    requires name in s.files
    ensures GrantLock(s, name, pid, opening).0.waits == s.waits
  {
    hide FirstFree;
  }

  lemma ResumeRemembers(s: State, q: Pid, pid: Pid)
    requires q in s.waits && s.waits[q].awake
    ensures Remembers(s, Resume(s, q).0, pid)
  {
    hide MustWait, GrantLock;
    var w := s.waits[q];
    if w.name in s.files {
      GrantWaits(s.(waits := s.waits - {q}), w.name, q, w.opening);
    }
  }

  lemma DropRemembers(s: State, name: Name, q: Pid, n: nat, pid: Pid)
    requires name in s.files
    ensures Remembers(s, Dropped(s, name, q, n).0, pid)
  {
    hide DropRefs;
  }

  lemma CloseRemembers(s: State, fd: nat, q: Pid, pid: Pid)
    ensures Remembers(s, Close(s, fd, q).0, pid)
  {
    hide Dropped;
    if HasOpen(s, fd, q) {
      DropRemembers(s.(fds := s.fds - {fd}), s.fds[fd].name, q, 1, pid);
    }
  }

  lemma {:induction false} SessionRemembers(s: State, names: seq<Name>, q: Pid, pid: Pid)
    ensures Remembers(s, SessionFiles(s, names, q).0, pid)
    decreases |names|
  {
    if names != [] && names[0] in s.files {
      SessionFilesStep(s, names, q);
      hide SessionFiles, Dropped, FdsOf;
      DropRemembers(s, names[0], q, |FdsOf(s, names[0], q)|, pid);
      SessionRemembers(SessionFile(s, names[0], q), names[1..], q, pid);
    }
  }

  lemma SameWaits(s: State, t: State, pid: Pid)
    requires t.waits == s.waits
    ensures Remembers(s, t, pid)
  {
  }

  lemma WithoutRemembers(s: State, name: Name, pid: Pid)
    ensures Remembers(s, Without(s, name), pid)
  {
  }

  lemma RemoveRemembers(s: State, name: Name, q: Pid, pid: Pid)
    ensures Remembers(s, Remove(s, name, q).0, pid)
  {
    hide Remembers, Without;
    WithoutRemembers(s, name, pid);
    SameWaits(s, s, pid);
  }

  lemma SpuriousRemembers(s: State, q: Pid, pid: Pid)
    requires q in s.waits
    ensures Remembers(s, s.(waits := s.waits[q := s.waits[q].(awake := true)]), pid)
  {
  }

  lemma SessionEndRemembers(s: State, q: Pid, pid: Pid)
    ensures Remembers(s, RemoveSession(s, q).0, pid)
  {
    hide SessionFiles;
    SessionRemembers(s, s.order, q, pid);
  }

  lemma UnlockKeepsWaits(s: State, fd: nat, pid: Pid)
    ensures Unlock(s, fd, pid).0.waits == s.waits
  {
  }

  /** A process that makes no call does not start to wait; if it waits, it waits for the same call until that goes on. */
  lemma StepRemembers(s: State, e: Event, pid: Pid)
    requires Enabled(s, e) && Caller(e) != Some(pid)
    ensures Remembers(s, Step(s, e).0, pid)
  {
    hide Open, Close, Lock, Unlock, Access, Remove, Resume, RemoveSession, Without, Remembers;
    match e
    case EvOpen(name, create, lock, q, room) =>
      OpenWaits(s, name, create, lock, q, room);
      OthersRemember(s, Open(s, name, create, lock, q, room).0, q, pid);
    case EvClose(fd, q) => CloseRemembers(s, fd, q, pid);
    case EvLock(fd, q) =>
      LockWaits(s, fd, q);
      OthersRemember(s, Lock(s, fd, q).0, q, pid);
    case EvUnlock(fd, q) =>
      UnlockKeepsWaits(s, fd, q);
      SameWaits(s, Unlock(s, fd, q).0, pid);
    case EvAccess(_, _) => SameWaits(s, s, pid);
    case EvRemove(name, q) => RemoveRemembers(s, name, q, pid);
    case EvRemoveSession(q) => SessionEndRemembers(s, q, pid);
    case EvSpurious(q) => SpuriousRemembers(s, q, pid);
    case EvResume(q) => ResumeRemembers(s, q, pid);
    case EvEvict(name) => WithoutRemembers(s, name, pid);
  }

  lemma {:induction false} RunRemembers(s: State, es: seq<Event>, pid: Pid)
    requires Possible(s, es) && forall e :: e in es ==> Caller(e) != Some(pid)
    ensures Remembers(s, Run(s, es), pid)
    decreases |es|
  {
    hide Step, Enabled, Caller;
    if es != [] {
      StepRemembers(s, es[0], pid);
      RunRemembers(Step(s, es[0]).0, es[1..], pid);
    }
  }

  /** What a woken call does: it goes back to sleep, or takes the lock, and an `open` then gets its descriptor. */
  lemma ResumeAnswers(s: State, pid: Pid)
    requires Accounted(s) && AllQueued(s) && pid in s.waits && s.waits[pid].awake
    ensures s.waits[pid].name in s.files
    ensures var t, r, w := Resume(s, pid).0, Resume(s, pid).1, s.waits[pid];
            var alone := OnlyHolder(s.files[w.name], pid);
            && (r == Blocked <==> !alone)
            && (r == Done <==> alone && !w.opening)
            && (r.Opened? <==> alone && w.opening && |s.fds| != MAX_OPEN_FILES)
            && (r == Failed(EMFILE) <==> alone && w.opening && |s.fds| == MAX_OPEN_FILES)
            && (r == Blocked ==> t == s.(waits := s.waits[pid := w.(awake := false)]))
            && (alone ==> pid !in t.waits && w.name in t.files && t.files[w.name].locked == pid)
            && (r.Opened? ==> HoldsLock(t, r.fd, pid) && r.fd !in s.fds && t.fds[r.fd].name == w.name)
  {
    var name := s.waits[pid].name;
    Waiting(s, pid);
    MustWaitIff(s.files[name], pid);
    assert Queued(s, name);
    hide MustWait, Accounted, AllQueued, OnlyHolder, FirstFree, GrantLock, IncreaseRefs;
    if OnlyHolder(s.files[name], pid) {
      hide Resume;
      AloneGranted(s, pid);
    }
  }

  lemma AloneGranted(s: State, pid: Pid)
    requires Accounted(s) && AllQueued(s) && pid in s.waits && s.waits[pid].awake
    requires !MustWait(s.files[s.waits[pid].name], pid)
    ensures var t, r, w := Resume(s, pid).0, Resume(s, pid).1, s.waits[pid];
            && (r == Done <==> !w.opening)
            && (r.Opened? <==> w.opening && |s.fds| != MAX_OPEN_FILES)
            && (r == Failed(EMFILE) <==> w.opening && |s.fds| == MAX_OPEN_FILES)
            && r != Blocked && pid !in t.waits && w.name in t.files && t.files[w.name].locked == pid
            && (r.Opened? ==> HoldsLock(t, r.fd, pid) && r.fd !in s.fds && t.fds[r.fd].name == w.name)
  {
    var w := s.waits[pid];
    assert w.name in s.files;
    Granted(s, pid);
    var t := s.(files := s.files[w.name := s.files[w.name].(locked := pid, pending := 0)], waits := s.waits - {pid});
    hide Accounted, AllQueued, MustWait, Resume, Completed;
    CompletedGives(t, w.name, pid, w.opening);
  }

  /** The end of a call that took the lock. */
  lemma CompletedGives(s: State, name: Name, pid: Pid, opening: bool)
    requires name in s.files && s.files[name].locked == pid
    ensures var t, r := Completed(s, name, pid, opening).0, Completed(s, name, pid, opening).1;
            && (r == Done <==> !opening)
            && (r.Opened? <==> opening && |s.fds| != MAX_OPEN_FILES)
            && (r == Failed(EMFILE) <==> opening && |s.fds| == MAX_OPEN_FILES)
            && r != Blocked && t.waits == s.waits && name in t.files && t.files[name].locked == pid
            && (r.Opened? ==> HoldsLock(t, r.fd, pid) && r.fd !in s.fds && t.fds[r.fd].name == name)
  {
    hide FinishOpen;
    FinishOpenGives(s, name, pid);
  }

  /**
   * In every run in which blocked processes make no call and no file with a pending lock is evicted: an `open` that
   * blocked, whatever happens until it goes on, opens the file once the process is its only holder.
   */
  lemma BlockedOpen(es: seq<Event>, name: Name, create: bool, lock: bool, pid: Pid, room: bool, later: seq<Event>)
    requires Possible(Init, es) && OrderlyRun(Init, es) && pid !in Run(Init, es).waits
    requires Open(Run(Init, es), name, create, lock, pid, room).1 == Blocked
    requires var s := Open(Run(Init, es), name, create, lock, pid, room).0;
             && Possible(s, later) && OrderlyRun(s, later) && (forall e :: e in later ==> Caller(e) != Some(pid))
             && Enabled(Run(s, later), EvResume(pid))
    ensures var s := Run(Open(Run(Init, es), name, create, lock, pid, room).0, later);
            var t, r := Resume(s, pid).0, Resume(s, pid).1;
            && name in s.files
            && (r == Blocked <==> !OnlyHolder(s.files[name], pid))
            && (r != Blocked ==> r.Opened? || (r == Failed(EMFILE) && |s.fds| == MAX_OPEN_FILES))
            && (r.Opened? ==> HoldsLock(t, r.fd, pid) && t.fds[r.fd].name == name)
  {
    var u := Run(Init, es);
    RunQueued(Init, es);
    var e := EvOpen(name, create, lock, pid, room);
    StepQueued(u, e);
    StepAccounted(u, e);
    var s := Open(u, name, create, lock, pid, room).0;
    OpenSleeps(u, name, create, lock, pid, room);
    hide Open, Accounted, AllQueued, Run, Possible, OrderlyRun, Caller, OnlyHolder, Resume;
    assert Step(u, e).0 == s;
    RunQueued(s, later);
    RunRemembers(s, later, pid);
    ResumeAnswers(Run(s, later), pid);
  }

  lemma OpenSleeps(s: State, name: Name, create: bool, lock: bool, pid: Pid, room: bool)
    requires Open(s, name, create, lock, pid, room).1 == Blocked
    ensures pid in Open(s, name, create, lock, pid, room).0.waits
    ensures Open(s, name, create, lock, pid, room).0.waits[pid] == Wait(name, true, false, false)
  {
    OpenCreatesIff(s, name, lock, pid, room);
    if MayOpen(s, name) && name in s.files && !create {
      OpenStored(s, name, lock, pid, room);
    }
    hide MustWait, FirstFree;
  }

  /** Likewise, a `lock` that blocked takes the lock. */
  lemma BlockedLock(es: seq<Event>, fd: nat, pid: Pid, later: seq<Event>)
    requires Possible(Init, es) && OrderlyRun(Init, es) && pid !in Run(Init, es).waits
    requires Lock(Run(Init, es), fd, pid).1 == Blocked
    requires var s := Lock(Run(Init, es), fd, pid).0;
             && Possible(s, later) && OrderlyRun(s, later) && (forall e :: e in later ==> Caller(e) != Some(pid))
             && Enabled(Run(s, later), EvResume(pid))
    ensures fd in Run(Init, es).fds
    ensures var s := Run(Lock(Run(Init, es), fd, pid).0, later);
            var name, t, r := Run(Init, es).fds[fd].name, Resume(s, pid).0, Resume(s, pid).1;
            && name in s.files
            && r == (if OnlyHolder(s.files[name], pid) then Done else Blocked)
            && (r == Done ==> name in t.files && t.files[name].locked == pid)
  {
    var u := Run(Init, es);
    RunQueued(Init, es);
    StepQueued(u, EvLock(fd, pid));
    StepAccounted(u, EvLock(fd, pid));
    LockTakes(u, fd, pid);
    var s := Lock(u, fd, pid).0;
    hide Lock, Accounted, AllQueued, Run, Possible, OrderlyRun, Caller, OnlyHolder, Resume;
    assert Step(u, EvLock(fd, pid)).0 == s;
    RunQueued(s, later);
    RunRemembers(s, later, pid);
    ResumeAnswers(Run(s, later), pid);
  }
}
