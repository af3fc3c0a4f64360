/** References are exactly the open descriptors, in every run that creates no name again over open descriptors. */
module ProtocolReferences {
  import opened FirstFit
  import opened Protocol
  import opened ProtocolAccounting
  import opened ProtocolSession

  /** The references on a file are exactly the descriptors. */
  ghost predicate Exact(s: State, name: Name)
    requires name in s.files
  {
    forall p: Pid :: Count(s.files[name], p) == |FdsOf(s, name, p)|
  }

  ghost predicate AllExact(s: State) {
    forall n :: n in s.files ==> Exact(s, n)
  }

  /** A descriptor of a removed file still carries the name. */
  ghost predicate Stale(s: State, name: Name) {
    name !in s.files && exists fd :: fd in s.fds && s.fds[fd].name == name
  }

  /** The `open` creates the file. */
  ghost predicate Creates(s: State, name: Name, create: bool, room: bool) {
    name != "" && |s.fds| != MAX_OPEN_FILES && create && name !in s.files && room
  }

  /** No name is created again while a descriptor naming it is open. */
  ghost predicate FreshNames(s: State, e: Event) {
    e.EvOpen? && Creates(s, e.name, e.create, e.room) ==> !Stale(s, e.name)
  }

  ghost predicate FreshRun(s: State, es: seq<Event>)
    requires Possible(s, es)
    decreases |es|
  {
    es == [] || (FreshNames(s, es[0]) && FreshRun(Step(s, es[0]).0, es[1..]))
  }

  // ---------- the steps ----------

  /** References and descriptors stay. */
  lemma SameExact(s: State, t: State)
    requires AllExact(s) && t.fds == s.fds
    requires forall n :: n in t.files ==> n in s.files && t.files[n].refs == s.files[n].refs
    ensures AllExact(t)
  {
    forall n, p: Pid | n in t.files
      ensures Count(t.files[n], p) == |FdsOf(t, n, p)|
    {
      assert Exact(s, n);
      SameFds(s, t, n, p);
    }
  }

  lemma CreatedExact(s: State, name: Name)
    requires AllExact(s) && name !in s.files && !Stale(s, name)
    ensures AllExact(Created(s, name))
  {
    var t := Created(s, name);
    forall n, p: Pid | n in t.files
      ensures Count(t.files[n], p) == |FdsOf(t, n, p)|
    {
      assert n != name ==> Exact(s, n);
      SameFds(s, t, n, p);
      assert n == name ==> FdsOf(t, n, p) == {};
    }
  }

  lemma FinishOpenExact(s: State, name: Name, pid: Pid)
    requires AllExact(s) && name in s.files
    ensures AllExact(FinishOpen(s, name, pid).0)
  {
    hide FirstFree;
    var t := FinishOpen(s, name, pid).0;
    if t != s {
      forall n, p: Pid | n in t.files
        ensures Count(t.files[n], p) == |FdsOf(t, n, p)|
      {
        assert Exact(s, n);
        AddedFd(s, t, FirstFree(s.fds.Keys, 0), name, pid, n, p);
        IncreaseCount(s.files[name], pid, p);
      }
    }
  }

  lemma CompletedExact(s: State, name: Name, pid: Pid, opening: bool)
    requires AllExact(s) && name in s.files
    ensures AllExact(Completed(s, name, pid, opening).0)
  {
    if opening {
      FinishOpenExact(s, name, pid);
    }
  }

  lemma LockInodeExact(s: State, name: Name, pid: Pid, opening: bool)
    requires AllExact(s) && name in s.files && s.files[name].locked == 0
    ensures AllExact(LockInode(s, name, pid, opening).0)
  {
    hide AllExact, MustWait, FinishOpen;
    var f := s.files[name];
    if f.pending > 0 {
    } else if MustWait(f, pid) {
      SameExact(s, LockInode(s, name, pid, opening).0);
    } else {
      var t := WithFile(s, name, f.(locked := pid));
      SameExact(s, t);
      CompletedExact(t, name, pid, opening);
    }
  }

  lemma OpenFileExact(s: State, name: Name, lock: bool, pid: Pid)
    requires AllExact(s) && name in s.files
    ensures AllExact(OpenFile(s, name, lock, pid).0)
  {
    hide AllExact, FinishOpen, LockInode;
    FinishOpenExact(s, name, pid);
    if s.files[name].locked == 0 {
      LockInodeExact(s, name, pid, true);
    }
  }

  lemma OpenExact(s: State, name: Name, create: bool, lock: bool, pid: Pid, room: bool)
    requires AllExact(s) && (Creates(s, name, create, room) ==> !Stale(s, name))
    ensures AllExact(Open(s, name, create, lock, pid, room).0)
  {
    hide AllExact, OpenFile, Stale;
    if Creates(s, name, create, room) {
      CreatedExact(s, name);
      OpenFileExact(Created(s, name), name, lock, pid);
    } else if name in s.files {
      OpenFileExact(s, name, lock, pid);
    }
  }

  lemma ResumeExact(s: State, pid: Pid)
    requires AllExact(s) && pid in s.waits && s.waits[pid].awake
    ensures AllExact(Resume(s, pid).0)
  {
    hide AllExact, MustWait, FinishOpen;
    var w := s.waits[pid];
    if w.name in s.files {
      if MustWait(s.files[w.name], pid) {
        SameExact(s, Resume(s, pid).0);
      } else {
        var f := s.files[w.name];
        var t := WithFile(s.(waits := s.waits - {pid}), w.name, f.(locked := pid));
        SameExact(s, t);
        SameExact(s, s.(waits := s.waits - {pid}));
        if f.pending > 0 {
          var u := WithFile(t, w.name, f.(locked := pid, pending := f.pending - 1));
          SameExact(s, u);
          assert t.files[w.name := u.files[w.name]] == s.files[w.name := u.files[w.name]];
          CompletedExact(u, w.name, pid, w.opening);
        }
      }
    }
  }

  /** The owner of a descriptor holds a reference. */
  lemma HolderCounts(s: State, fd: nat)
    requires fd in s.fds && s.fds[fd].name in s.files && Exact(s, s.fds[fd].name)
    ensures Count(s.files[s.fds[fd].name], s.fds[fd].owner) > 0
  {
    assert fd in FdsOf(s, s.fds[fd].name, s.fds[fd].owner);
  }

  lemma CloseExact(s: State, fd: nat, pid: Pid)
    requires Accounted(s) && AllExact(s)
    ensures AllExact(Close(s, fd, pid).0)
  {
    if Lookup(s, fd, pid) == Done {
      var name := s.fds[fd].name;
      var t := Close(s, fd, pid).0;
      if name in s.files {
        assert Covered(s, name) && Exact(s, name);
        HolderCounts(s, fd);
        DropRefsLoses(s.files[name], pid, 1);
      }
      hide DropRefs, Accounted;
      forall n, p: Pid | n in t.files
        ensures Count(t.files[n], p) == |FdsOf(t, n, p)|
      {
        assert Exact(s, n);
        RemovedFd(s, t, fd, n, p);
      }
    }
  }

  /** With exact references a session ends, and the references stay exact. */
  lemma RemoveSessionExact(s: State, pid: Pid)
    requires Accounted(s) && AllExact(s)
    ensures AllExact(RemoveSession(s, pid).0)
  {
    hide SessionFiles;
    if s.order != [] {
      var t := RemoveSession(s, pid).0;
      forall n | n in s.files
        ensures Balanced(s, n, pid)
      {
        assert Exact(s, n);
      }
      RemoveSessionEnds(s, pid);
      var u := SessionFiles(s, s.order, pid).0;
      forall n, p: Pid | n in t.files
        ensures Count(t.files[n], p) == |FdsOf(t, n, p)|
      {
        assert Exact(s, n);
        CloseAllFds(u, pid, n, p);
        SameFds(s, u, n, p);
      }
    }
  }

  /** Every step keeps references exact, evictions included, unless it creates a name again over open descriptors. */
  lemma StepExact(s: State, e: Event)
    requires Accounted(s) && AllExact(s) && Enabled(s, e) && FreshNames(s, e)
    ensures AllExact(Step(s, e).0)
  {
    hide AllExact, Accounted, Stale, OpenFile, DropRefs, SessionFiles;
    match e
    case EvOpen(name, create, lock, pid, room) => OpenExact(s, name, create, lock, pid, room);
    case EvClose(fd, pid) => CloseExact(s, fd, pid);
    case EvLock(fd, pid) => LockExact(s, fd, pid);
    case EvUnlock(fd, pid) => SameExact(s, Unlock(s, fd, pid).0);
    case EvAccess(fd, pid) =>
    case EvRemove(name, pid) => SameExact(s, Remove(s, name, pid).0);
    case EvRemoveSession(pid) => RemoveSessionExact(s, pid);
    case EvSpurious(pid) => SameExact(s, Step(s, e).0);
    case EvResume(pid) => ResumeExact(s, pid);
    case EvEvict(name) => SameExact(s, Without(s, name));
  }

  lemma LockExact(s: State, fd: nat, pid: Pid)
    requires AllExact(s)
    ensures AllExact(Lock(s, fd, pid).0)
  {
    hide AllExact, LockInode;
    if Lookup(s, fd, pid) == Done && s.fds[fd].name in s.files && s.files[s.fds[fd].name].locked == 0 {
      LockInodeExact(s, s.fds[fd].name, pid, false);
    }
  }

  lemma {:induction false} RunExact(s: State, es: seq<Event>)
    requires Accounted(s) && AllExact(s) && Possible(s, es) && FreshRun(s, es)
    ensures Accounted(Run(s, es)) && AllExact(Run(s, es))
    decreases |es|
  {
    hide Accounted, AllExact, Step, FreshNames;
    if es != [] {
      StepExact(s, es[0]);
      StepAccounted(s, es[0]);
      RunExact(Step(s, es[0]).0, es[1..]);
    }
  }

  /** Reference accounting: equality, in every run that creates no name again over open descriptors. */
  lemma ReferencesAreDescriptors(es: seq<Event>, name: Name, pid: Pid)
    requires Possible(Init, es) && FreshRun(Init, es) && name in Run(Init, es).files
    ensures Count(Run(Init, es).files[name], pid) == |FdsOf(Run(Init, es), name, pid)|
  {
    RunExact(Init, es);
    assert Exact(Run(Init, es), name);
  }

  // ---------- the condition is needed ----------

  /** An `open` keeps references exact if and only if it does not create a name again over open descriptors. */
  lemma OpenExactIff(s: State, name: Name, create: bool, lock: bool, pid: Pid, room: bool)
    requires AllExact(s)
    ensures AllExact(Open(s, name, create, lock, pid, room).0) <==>
            !(Creates(s, name, create, room) && Stale(s, name))
  {
    hide AllExact, Open, Stale;
    if Creates(s, name, create, room) && Stale(s, name) {
      StaleCreateBreaks(s, name, lock, pid);
    } else {
      OpenExact(s, name, create, lock, pid, room);
    }
  }

  lemma StaleCreateBreaks(s: State, name: Name, lock: bool, pid: Pid)
    requires Creates(s, name, true, true) && Stale(s, name)
    ensures !AllExact(Open(s, name, true, lock, pid, true).0)
  {
    var next := FirstFree(s.fds.Keys, 0);
    CreateOpens(s, name, lock, pid, next);
    hide Open, FirstFree;
    var t := Open(s, name, true, lock, pid, true).0;
    var fd :| fd in s.fds && s.fds[fd].name == name;
    var q := s.fds[fd].owner;
    AddedFd(s, t, next, name, pid, name, q);
    assert fd in FdsOf(s, name, q);
    assert Count(t.files[name], q) == if q == pid then 1 else 0;
    assert !Exact(t, name);
  }
}
