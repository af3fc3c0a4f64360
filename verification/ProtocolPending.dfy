/** Pending locks and wakeups, in every run that evicts no file with a pending lock. */
module ProtocolPending {
  import opened Wrappers
  import opened FirstFit
  import opened Protocol
  import opened ProtocolAccounting
  import opened ProtocolSession

  /** The process is the only one with references, if anyone has. */
  ghost predicate OnlyHolder(f: File, pid: nat) {
    forall p: Pid :: Count(f, p) > 0 ==> p == pid
  }

  ghost predicate Sleeper(s: State, p: Pid, name: Name) {
    p in s.waits && s.waits[p].name == name
  }

  /**
   * At most one process waits for the file, and it is counted as pending. It waits for an
   * unlocked file it has open, and it is awake as soon as nobody else has it open.
   */
  ghost predicate Queued(s: State, name: Name)
    requires name in s.files
  {
    var f := s.files[name];
    && f.pending <= 1
    && (f.pending == 0 ==> forall p: Pid :: !Sleeper(s, p, name))
    && (f.pending == 1 ==> exists p: Pid :: Sleeper(s, p, name))
    && (forall p: Pid, q: Pid :: Sleeper(s, p, name) && Sleeper(s, q, name) ==> p == q)
    && (forall p: Pid :: Sleeper(s, p, name) ==> f.locked == 0 && Count(f, p) > 0)
    && (forall p: Pid :: Sleeper(s, p, name) && OnlyHolder(f, p) ==> Awake(s, p))
  }

  /** Every file is in order, and nobody waits on a destroyed inode. */
  ghost predicate AllQueued(s: State) {
    && (forall n :: n in s.files ==> Queued(s, n))
    && (forall p :: p in s.waits ==> s.waits[p].name in s.files && !s.waits[p].orphan)
  }

  /** The process that makes the call, if the event is a call. */
  function Caller(e: Event): Option<Pid> {
    match e
    case EvOpen(_, _, _, pid, _) => Some(pid)
    case EvClose(_, pid) => Some(pid)
    case EvLock(_, pid) => Some(pid)
    case EvUnlock(_, pid) => Some(pid)
    case EvAccess(_, pid) => Some(pid)
    case EvRemove(_, pid) => Some(pid)
    case EvRemoveSession(pid) => Some(pid)
    case _ => None
  }

  /** A blocked process makes no further call, and no file with a pending lock is evicted. */
  ghost predicate Orderly(s: State, e: Event) {
    && (Caller(e).Some? ==> Caller(e).value !in s.waits)
    && (e.EvEvict? && e.name in s.files ==> s.files[e.name].pending == 0)
  }

  ghost predicate OrderlyRun(s: State, es: seq<Event>)
    requires Possible(s, es)
    decreases |es|
  {
    es == [] || (Orderly(s, es[0]) && OrderlyRun(Step(s, es[0]).0, es[1..]))
  }

  // ---------- who must wait ----------

  lemma {:induction false} OthersHold(refs: seq<Pid>, pid: Pid)
    ensures HasOthers(refs, pid) <==> exists p: Pid :: p != pid && multiset(refs)[p] > 0
  {
    if refs != [] {
      assert refs == [refs[0]] + refs[1..];
      OthersHold(refs[1..], pid);
      assert multiset(refs)[refs[0]] > 0;
      assert forall p: Pid :: p != refs[0] ==> multiset(refs)[p] == multiset(refs[1..])[p];
    }
  }

  lemma MustWaitIff(f: File, pid: Pid)
    requires f.refCount == |f.refs|
    ensures MustWait(f, pid) <==> Count(f, pid) > 0 && !OnlyHolder(f, pid)
  {
    OthersHold(f.refs, pid);
    CountPositive(f, pid);
    assert forall p: Pid :: Count(f, p) == multiset(f.refs)[p];
  }

  /** The one sleeper of a file with a pending lock. */
  lemma OneSleeper(s: State, name: Name, pid: Pid)
    requires name in s.files && Queued(s, name) && Sleeper(s, pid, name)
    ensures s.files[name].pending == 1 && s.files[name].locked == 0 && Count(s.files[name], pid) > 0
    ensures forall p: Pid :: Sleeper(s, p, name) ==> p == pid
  {
  }

  // ---------- changes ----------

  /** The file keeps lock, pending count and references; its sleepers stay, and stay awake. */
  lemma StaysQueued(s: State, t: State, n: Name)
    requires n in s.files && n in t.files && Queued(s, n)
    requires t.files[n].locked == s.files[n].locked && t.files[n].pending == s.files[n].pending
    requires forall p: Pid :: Count(t.files[n], p) == Count(s.files[n], p)
    requires forall p: Pid :: Sleeper(t, p, n) <==> Sleeper(s, p, n)
    requires forall p: Pid :: Sleeper(s, p, n) && Awake(s, p) ==> Awake(t, p)
    ensures Queued(t, n)
  {
  }

  lemma WokenSleepers(s: State, t: State, n: Name)
    requires Woken(s, t)
    ensures forall p: Pid :: Sleeper(t, p, n) <==> Sleeper(s, p, n)
    ensures forall p: Pid :: Sleeper(s, p, n) && Awake(s, p) ==> Awake(t, p)
  {
  }

  /** Nobody sleeps on the file `name`, before and after the change; other files stay. */
  lemma ChangedQuiet(s: State, t: State, name: Name)
    requires AllQueued(s) && t.waits == s.waits && name in t.files && t.files[name].pending == 0
    requires name in s.files ==> s.files[name].pending == 0
    requires t.files.Keys == s.files.Keys + {name}
    requires forall n :: n in s.files && n != name ==> t.files[n] == s.files[n]
    ensures AllQueued(t)
  {
    forall n | n in t.files
      ensures Queued(t, n)
    {
      assert n in s.files ==> Queued(s, n);
      WokenSleepers(s, t, n);
      if n != name {
        StaysQueued(s, t, n);
      }
    }
  }

  /** The files stay; sleepers may be woken. */
  lemma WokenQueued(s: State, t: State)
    requires AllQueued(s) && t.files == s.files && Woken(s, t)
    ensures AllQueued(t)
  {
    forall n | n in t.files
      ensures Queued(t, n)
    {
      WokenSleepers(s, t, n);
      StaysQueued(s, t, n);
    }
  }

  lemma SameQueued(s: State, t: State)
    requires AllQueued(s) && t.files == s.files && t.waits == s.waits
    ensures AllQueued(t)
  {
    WokenQueued(s, t);
  }

  /** A locked file has no pending lock. */
  lemma LockedQuiet(s: State, name: Name)
    requires AllQueued(s) && name in s.files && s.files[name].locked != 0
    ensures s.files[name].pending == 0
  {
    assert Queued(s, name);
  }

  /** Only the lock and the pending count of one file, and the waiting of one process for it, differ. */
  ghost predicate Changes(s: State, t: State, name: Name, pid: Pid)
    requires name in s.files
  {
    && t.files.Keys == s.files.Keys
    && (forall n :: n in s.files && n != name ==> t.files[n] == s.files[n])
    && t.files[name].refs == s.files[name].refs
    && (pid in s.waits ==> s.waits[pid].name == name)
    && (pid in t.waits ==> t.waits[pid].name == name && !t.waits[pid].orphan)
    && t.waits - {pid} == s.waits - {pid}
  }

  lemma OtherSleepers(s: State, t: State, name: Name, pid: Pid, n: Name, p: Pid)
    requires name in s.files && Changes(s, t, name, pid) && (n != name || p != pid)
    ensures Sleeper(t, p, n) <==> Sleeper(s, p, n)
    ensures Sleeper(s, p, n) ==> t.waits[p] == s.waits[p]
  {
    if p != pid {
      assert p in s.waits <==> p in s.waits - {pid};
      assert p in t.waits <==> p in t.waits - {pid};
    }
  }

  lemma ChangesQueued(s: State, t: State, name: Name, pid: Pid)
    requires AllQueued(s) && name in s.files && Changes(s, t, name, pid) && Queued(t, name)
    ensures AllQueued(t)
  {
    forall n | n in t.files && n != name
      ensures Queued(t, n)
    {
      forall p: Pid
        ensures Sleeper(t, p, n) <==> Sleeper(s, p, n)
        ensures Sleeper(s, p, n) ==> t.waits[p] == s.waits[p]
      {
        OtherSleepers(s, t, name, pid, n, p);
      }
      StaysQueued(s, t, n);
    }
    forall p | p in t.waits
      ensures t.waits[p].name in t.files && !t.waits[p].orphan
    {
      if p != pid {
        OtherSleepers(s, t, name, pid, t.waits[p].name, p);
      }
    }
  }

  /** The process `pid` starts to wait, or goes on waiting, for a file others hold. */
  lemma WaitQueued(s: State, t: State, name: Name, pid: Pid)
    requires AllQueued(s) && name in s.files && Changes(s, t, name, pid)
    requires s.files[name].refCount == |s.files[name].refs| && MustWait(s.files[name], pid)
    requires s.files[name].locked == 0 == t.files[name].locked
    requires Sleeper(t, pid, name) && t.files[name].pending == 1
    requires s.files[name].pending == 0 || Sleeper(s, pid, name)
    ensures AllQueued(t)
  {
    assert Queued(s, name);
    MustWaitIff(s.files[name], pid);
    assert forall p: Pid :: Count(t.files[name], p) == Count(s.files[name], p);
    forall p: Pid | Sleeper(t, p, name)
      ensures p == pid
    {
      if p != pid {
        OtherSleepers(s, t, name, pid, name, p);
      }
    }
    ChangesQueued(s, t, name, pid);
  }

  /** The process `pid` stops waiting, and nobody else waits. */
  lemma QuietQueued(s: State, t: State, name: Name, pid: Pid)
    requires AllQueued(s) && name in s.files && Changes(s, t, name, pid)
    requires t.files[name].pending == 0 && pid !in t.waits
    requires s.files[name].pending == 0 || Sleeper(s, pid, name)
    ensures AllQueued(t)
  {
    assert Queued(s, name);
    forall p: Pid
      ensures !Sleeper(t, p, name)
    {
      if p != pid {
        OtherSleepers(s, t, name, pid, name, p);
      }
    }
    ChangesQueued(s, t, name, pid);
  }

  // ---------- opening and locking ----------

  lemma FinishOpenQueued(s: State, name: Name, pid: Pid)
    requires AllQueued(s) && name in s.files && s.files[name].pending == 0
    ensures AllQueued(FinishOpen(s, name, pid).0)
  {
    hide AllQueued, FirstFree;
    ChangedQuiet(s, FinishOpen(s, name, pid).0, name);
  }

  lemma CompletedQueued(s: State, name: Name, pid: Pid, opening: bool)
    requires AllQueued(s) && name in s.files && s.files[name].pending == 0
    ensures AllQueued(Completed(s, name, pid, opening).0)
  {
    if opening {
      FinishOpenQueued(s, name, pid);
    }
  }

  lemma StartsWaiting(s: State, name: Name, pid: Pid, opening: bool)
    requires AllQueued(s) && name in s.files && s.files[name].locked == 0 && s.files[name].pending == 0
    requires s.files[name].refCount == |s.files[name].refs| && MustWait(s.files[name], pid) && pid !in s.waits
    ensures AllQueued(LockInode(s, name, pid, opening).0)
  {
    hide AllQueued, MustWait, Completed;
    var t := LockInode(s, name, pid, opening).0;
    assert t.waits - {pid} == s.waits - {pid};
    WaitQueued(s, t, name, pid);
  }

  lemma LocksAtOnce(s: State, name: Name, pid: Pid, opening: bool)
    requires AllQueued(s) && name in s.files && s.files[name].locked == 0 && s.files[name].pending == 0
    requires !MustWait(s.files[name], pid)
    ensures AllQueued(LockInode(s, name, pid, opening).0)
  {
    hide AllQueued, MustWait, Completed;
    var t := WithFile(s, name, s.files[name].(locked := pid));
    ChangedQuiet(s, t, name);
    CompletedQueued(t, name, pid, opening);
  }

  lemma LockInodeQueued(s: State, name: Name, pid: Pid, opening: bool)
    requires Accounted(s) && AllQueued(s) && name in s.files && s.files[name].locked == 0 && pid !in s.waits
    ensures AllQueued(LockInode(s, name, pid, opening).0)
  {
    assert Covered(s, name);
    hide Accounted, AllQueued, MustWait, Completed;
    if s.files[name].pending == 0 {
      if MustWait(s.files[name], pid) {
        StartsWaiting(s, name, pid, opening);
      } else {
        LocksAtOnce(s, name, pid, opening);
      }
    }
  }

  lemma OpenFileQueued(s: State, name: Name, lock: bool, pid: Pid)
    requires Accounted(s) && AllQueued(s) && name in s.files && pid !in s.waits
    ensures AllQueued(OpenFile(s, name, lock, pid).0)
  {
    hide Accounted, AllQueued, FinishOpen, LockInode;
    var f := s.files[name];
    if f.locked == 0 && lock {
      LockInodeQueued(s, name, pid, true);
    } else if f.locked == 0 || f.locked == pid {
      if f.locked != 0 {
        LockedQuiet(s, name);
      }
      if f.pending == 0 {
        FinishOpenQueued(s, name, pid);
      }
    }
  }

  lemma CreatedQueued(s: State, name: Name)
    requires AllQueued(s) && name !in s.files
    ensures AllQueued(Created(s, name))
  {
    hide AllQueued;
    ChangedQuiet(s, Created(s, name), name);
  }

  lemma OpenQueued(s: State, name: Name, create: bool, lock: bool, pid: Pid, room: bool)
    requires Accounted(s) && AllQueued(s) && pid !in s.waits
    ensures AllQueued(Open(s, name, create, lock, pid, room).0)
  {
    hide Accounted, AllQueued, OpenFile;
    if create && name !in s.files {
      CreatedQueued(s, name);
      CreatedAccounted(s, name);
      OpenFileQueued(Created(s, name), name, lock, pid);
    } else if name in s.files {
      OpenFileQueued(s, name, lock, pid);
    }
  }

  lemma LockQueued(s: State, fd: nat, pid: Pid)
    requires Accounted(s) && AllQueued(s) && pid !in s.waits
    ensures AllQueued(Lock(s, fd, pid).0)
  {
    hide Accounted, AllQueued, LockInode;
    if Lookup(s, fd, pid) == Done && s.fds[fd].name in s.files && s.files[s.fds[fd].name].locked == 0 {
      LockInodeQueued(s, s.fds[fd].name, pid, false);
    }
  }

  lemma UnlockQueued(s: State, fd: nat, pid: Pid)
    requires AllQueued(s)
    ensures AllQueued(Unlock(s, fd, pid).0)
  {
    hide AllQueued;
    var t := Unlock(s, fd, pid).0;
    if t != s {
      LockedQuiet(s, s.fds[fd].name);
      ChangedQuiet(s, t, s.fds[fd].name);
    }
  }

  // ---------- resuming ----------

  lemma Waiting(s: State, pid: Pid)
    requires Accounted(s) && AllQueued(s) && pid in s.waits
    ensures var name := s.waits[pid].name;
            && name in s.files && s.files[name].refCount == |s.files[name].refs| && !s.waits[pid].orphan
            && Sleeper(s, pid, name) && s.files[name].pending == 1 && s.files[name].locked == 0
  {
    var name := s.waits[pid].name;
    assert Covered(s, name) && Sleeper(s, pid, name);
    OneSleeper(s, name, pid);
  }

  /** A process that waited and need not wait any more is the only holder. */
  lemma AloneAfterWait(s: State, pid: Pid)
    requires Accounted(s) && AllQueued(s) && pid in s.waits && !MustWait(s.files[s.waits[pid].name], pid)
    ensures var f := s.files[s.waits[pid].name];
            OnlyHolder(f, pid) && f.locked == 0 && f.pending == 1
  {
    var name := s.waits[pid].name;
    assert Covered(s, name) && Sleeper(s, pid, name);
    OneSleeper(s, name, pid);
    MustWaitIff(s.files[name], pid);
  }

  /** It gets the lock. */
  lemma Granted(s: State, pid: Pid)
    requires Accounted(s) && AllQueued(s) && pid in s.waits && s.waits[pid].awake
    requires !MustWait(s.files[s.waits[pid].name], pid)
    ensures var w := s.waits[pid];
            var f := s.files[w.name];
            var t := s.(files := s.files[w.name := f.(locked := pid, pending := 0)], waits := s.waits - {pid});
            Resume(s, pid) == Completed(t, w.name, pid, w.opening)
  {
    assert s.waits[pid].name in s.files;
    hide Accounted, AllQueued, MustWait, FinishOpen;
    AloneAfterWait(s, pid);
  }

  lemma StillWaiting(s: State, pid: Pid)
    requires Accounted(s) && AllQueued(s) && pid in s.waits && MustWait(s.files[s.waits[pid].name], pid)
    ensures AllQueued(s.(waits := s.waits[pid := s.waits[pid].(awake := false)]))
  {
    Waiting(s, pid);
    hide MustWait, Accounted, AllQueued;
    var t := s.(waits := s.waits[pid := s.waits[pid].(awake := false)]);
    assert t.waits - {pid} == s.waits - {pid};
    WaitQueued(s, t, s.waits[pid].name, pid);
  }

  lemma GrantedQueued(s: State, pid: Pid)
    requires Accounted(s) && AllQueued(s) && pid in s.waits && s.waits[pid].awake
    requires !MustWait(s.files[s.waits[pid].name], pid)
    ensures AllQueued(Resume(s, pid).0)
  {
    Waiting(s, pid);
    hide MustWait, Accounted, AllQueued, Completed, Resume;
    Granted(s, pid);
    var w := s.waits[pid];
    var t := s.(files := s.files[w.name := s.files[w.name].(locked := pid, pending := 0)], waits := s.waits - {pid});
    QuietQueued(s, t, w.name, pid);
    CompletedQueued(t, w.name, pid, w.opening);
  }

  lemma ResumeQueued(s: State, pid: Pid)
    requires Accounted(s) && AllQueued(s) && pid in s.waits && s.waits[pid].awake
    ensures AllQueued(Resume(s, pid).0)
  {
    Waiting(s, pid);
    hide MustWait, Accounted, AllQueued;
    if MustWait(s.files[s.waits[pid].name], pid) {
      StillWaiting(s, pid);
    } else {
      hide Resume;
      GrantedQueued(s, pid);
    }
  }

  // ---------- dropping references ----------

  /** The drop that leaves another process alone signals, even if more drops are tried than there are references. */
  lemma {:induction false} LastDropSignals(f: File, pid: Pid, n: nat, p: Pid)
    requires f.refCount == |f.refs| && n > 0 && Count(f, pid) > 0 && p != pid
    requires OnlyHolder(DropRefs(f, pid, n).file, p)
    ensures DropRefs(f, pid, n).signal
    decreases n
  {
    hide DecreaseRefs, DropRefs, HasOthers;
    DecreaseLoses(f, pid);
    var g := DecreaseRefs(f, pid).value;
    DropsFirst(f, pid, n);
    DropsFirst(g, pid, n - 1);
    FirstDropSignals(f, pid, n);
    if n > 1 && Count(g, pid) > 0 {
      LastDropSignals(g, pid, n - 1, p);
    } else {
      DecreaseLoses(g, pid);
      assert DropRefs(f, pid, n).file == g;
      OtherLeft(g, pid, p);
    }
  }

  /** A drop signals if a later one does, or if now nobody or somebody else is left. */
  lemma FirstDropSignals(f: File, pid: Pid, n: nat)
    requires n > 0 && DecreaseRefs(f, pid).Some?
    ensures var g := DecreaseRefs(f, pid).value;
            DropRefs(g, pid, n - 1).signal || g.refCount == 0 || HasOthers(g.refs, pid) ==> DropRefs(f, pid, n).signal
  {
  }

  lemma OtherLeft(g: File, pid: Pid, p: Pid)
    requires g.refCount == |g.refs| && OnlyHolder(g, p) && p != pid
    ensures g.refCount == 0 || HasOthers(g.refs, pid)
  {
    OthersHold(g.refs, pid);
    if g.refCount > 0 {
      CountPositive(g, g.refs[0]);
      assert g.refs[0] == p;
      assert Count(g, p) == multiset(g.refs)[p];
    }
  }

  lemma DroppedFileQueued(s: State, name: Name, pid: Pid, n: nat)
    requires Accounted(s) && AllQueued(s) && name in s.files && pid !in s.waits
    ensures Queued(Dropped(s, name, pid, n).0, name)
  {
    hide DropRefs, Accounted, Awake, OnlyHolder, Lost;
    var t := Dropped(s, name, pid, n).0;
    var f, g := s.files[name], t.files[name];
    DroppedOthers(s, name, pid, n);
    forall p: Pid | Sleeper(t, p, name)
      ensures g.locked == 0 && Count(g, p) > 0
      ensures OnlyHolder(g, p) ==> Awake(t, p)
    {
      assert Sleeper(s, p, name) && p != pid;
      if OnlyHolder(g, p) {
        DropWakes(s, name, pid, n, p);
      }
    }
  }

  /** Dropping references leaves the sleepers, the lock, and the references of others. */
  lemma DroppedOthers(s: State, name: Name, pid: Pid, n: nat)
    requires Accounted(s) && name in s.files
    ensures var t := Dropped(s, name, pid, n).0;
            var f, g := s.files[name], t.files[name];
            && Woken(s, t) && g.locked == f.locked && g.pending == f.pending
            && (forall p: Pid :: Sleeper(t, p, name) <==> Sleeper(s, p, name))
            && (forall p: Pid :: p != pid ==> Count(g, p) == Count(f, p))
  {
    assert Covered(s, name);
    hide DropRefs, Accounted;
    var t := Dropped(s, name, pid, n).0;
    DropRefsLoses(s.files[name], pid, n);
    SignalWakes(s, t, name);
    WokenSleepers(s, t, name);
  }

  lemma DropWakes(s: State, name: Name, pid: Pid, n: nat, p: Pid)
    requires Accounted(s) && AllQueued(s) && name in s.files && p != pid && Sleeper(s, p, name)
    requires OnlyHolder(Dropped(s, name, pid, n).0.files[name], p)
    ensures Awake(Dropped(s, name, pid, n).0, p)
  {
    assert Covered(s, name);
    hide DropRefs, Accounted;
    var t := Dropped(s, name, pid, n).0;
    var f, g := s.files[name], t.files[name];
    SignalWakes(s, t, name);
    DropRefsLoses(f, pid, n);
    if n > 0 && Count(f, pid) > 0 {
      LastDropSignals(f, pid, n, p);
    } else {
      assert forall q: Pid :: Count(g, q) == Count(f, q);
    }
  }

  lemma DroppedQueued(s: State, name: Name, pid: Pid, n: nat)
    requires Accounted(s) && AllQueued(s) && name in s.files && pid !in s.waits
    ensures AllQueued(Dropped(s, name, pid, n).0)
  {
    hide DropRefs, Accounted;
    var t := Dropped(s, name, pid, n).0;
    SignalWakes(s, t, name);
    DroppedFileQueued(s, name, pid, n);
    forall m | m in t.files && m != name
      ensures Queued(t, m)
    {
      WokenSleepers(s, t, m);
      StaysQueued(s, t, m);
    }
  }

  lemma DroppedFds(s: State, fds: map<nat, Desc>, name: Name, pid: Pid)
    requires name in s.files
    ensures Dropped(s.(fds := fds), name, pid, 1).0 == Dropped(s, name, pid, 1).0.(fds := fds)
  {
  }

  lemma CloseQueued(s: State, fd: nat, pid: Pid)
    requires Accounted(s) && AllQueued(s) && pid !in s.waits
    ensures AllQueued(Close(s, fd, pid).0)
  {
    hide Accounted, AllQueued, Dropped;
    if Lookup(s, fd, pid) == Done {
      var name := s.fds[fd].name;
      var fds := s.fds - {fd};
      SameQueued(s, s.(fds := fds));
      if name in s.files {
        DroppedQueued(s, name, pid, 1);
        DroppedFds(s, fds, name, pid);
        SameQueued(Dropped(s, name, pid, 1).0, Close(s, fd, pid).0);
      }
    }
  }

  // ---------- removing ----------

  lemma WithoutQueued(s: State, name: Name)
    requires AllQueued(s) && name in s.files && s.files[name].pending == 0
    ensures AllQueued(Without(s, name))
  {
    var t := Without(s, name);
    NobodyWaits(s, name);
    hide Queued, DeleteFirst, Orphaned;
    forall n | n in t.files
      ensures Queued(t, n)
    {
      WokenSleepers(s, t, n);
      StaysQueued(s, t, n);
    }
  }

  lemma NobodyWaits(s: State, name: Name)
    requires name in s.files && Queued(s, name) && s.files[name].pending == 0
    ensures Orphaned(s.waits, name) == s.waits
  {
    forall p | p in s.waits
      ensures s.waits[p].name != name
    {
      assert Sleeper(s, p, s.waits[p].name);
    }
  }

  lemma RemoveQueued(s: State, name: Name, pid: Pid)
    requires AllQueued(s)
    ensures AllQueued(Remove(s, name, pid).0)
  {
    hide AllQueued, Without;
    if Remove(s, name, pid).1 == Done {
      LockedQuiet(s, name);
      WithoutQueued(s, name);
    }
  }

  /** A file can be evicted without harm if and only if no lock is pending on it. */
  lemma EvictQueuedIff(s: State, name: Name)
    requires AllQueued(s) && name in s.files
    ensures AllQueued(Without(s, name)) <==> s.files[name].pending == 0
  {
    assert Queued(s, name);
    if s.files[name].pending == 0 {
      WithoutQueued(s, name);
    } else {
      var p: Pid :| Sleeper(s, p, name);
      assert Without(s, name).waits[p].name !in Without(s, name).files;
    }
  }

  /** The harm: the waiter, once woken, uses the destroyed inode. */
  lemma EvictedWhileWaiting(s: State, name: Name)
    requires AllQueued(s) && name in s.files && s.files[name].pending > 0
    ensures exists p: Pid :: (
      && Sleeper(s, p, name) && Without(s, name).waits[p].orphan
      && Step(Step(Without(s, name), EvSpurious(p)).0, EvResume(p)).1 == Undefined)
  {
    assert Queued(s, name);
    var p: Pid :| Sleeper(s, p, name);
    var t := Step(Without(s, name), EvSpurious(p)).0;
    assert Step(t, EvResume(p)).1 == Undefined;
  }

  // ---------- ending a session ----------

  lemma SessionFileQueued(s: State, name: Name, pid: Pid)
    requires Accounted(s) && AllQueued(s) && name in s.files && pid !in s.waits
    ensures AllQueued(SessionFile(s, name, pid)) && AllQueued(Dropped(s, name, pid, |FdsOf(s, name, pid)|).0)
  {
    hide Accounted, AllQueued, DropRefs, FdsOf;
    var k := |FdsOf(s, name, pid)|;
    DroppedQueued(s, name, pid, k);
    var t := Dropped(s, name, pid, k).0;
    if t.files[name].locked == pid {
      LockedQuiet(t, name);
      ChangedQuiet(t, SessionFile(s, name, pid), name);
    }
  }

  lemma {:induction false} SessionFilesQueued(s: State, names: seq<Name>, pid: Pid)
    requires Accounted(s) && AllQueued(s) && pid !in s.waits && forall n :: n in names ==> n in s.files
    ensures AllQueued(SessionFiles(s, names, pid).0)
    decreases |names|
  {
    if names != [] {
      SessionFilesStep(s, names, pid);
      hide Accounted, AllQueued, DropRefs, FdsOf, SessionFiles;
      SessionFileAccounted(s, names[0], pid);
      SessionFileQueued(s, names[0], pid);
      if Dropped(s, names[0], pid, |FdsOf(s, names[0], pid)|).1 {
        SessionFilesQueued(SessionFile(s, names[0], pid), names[1..], pid);
      }
    }
  }

  lemma ListedFiles(s: State)
    requires Accounted(s)
    ensures forall n :: n in s.order ==> n in s.files
  {
  }

  lemma RemoveSessionQueued(s: State, pid: Pid)
    requires Accounted(s) && AllQueued(s) && pid !in s.waits
    ensures AllQueued(RemoveSession(s, pid).0)
  {
    hide Accounted, AllQueued, SessionFiles;
    if s.order != [] {
      ListedFiles(s);
      SessionFilesQueued(s, s.order, pid);
      var d := SessionFiles(s, s.order, pid);
      if d.1 {
        SameQueued(d.0, CloseAll(d.0, pid));
      }
    }
  }

  // ---------- every step, every run ----------

  /** Only a woken call can come across a destroyed inode. */
  lemma OnlyResumeUndefined(s: State, e: Event)
    requires Enabled(s, e) && !e.EvResume?
    ensures Step(s, e).1 != Undefined
  {
  }

  lemma ResumeDefined(s: State, pid: Pid)
    requires AllQueued(s) && pid in s.waits && s.waits[pid].awake
    ensures Resume(s, pid).1 != Undefined
  {
  }

  lemma SpuriousQueued(s: State, pid: Pid)
    requires AllQueued(s) && pid in s.waits
    ensures AllQueued(s.(waits := s.waits[pid := s.waits[pid].(awake := true)]))
  {
    hide AllQueued;
    WokenQueued(s, s.(waits := s.waits[pid := s.waits[pid].(awake := true)]));
  }

  /** A step keeps the protocol of pending locks, and never uses a destroyed inode. */
  lemma StepQueued(s: State, e: Event)
    requires Accounted(s) && AllQueued(s) && Enabled(s, e) && Orderly(s, e)
    ensures AllQueued(Step(s, e).0) && Step(s, e).1 != Undefined
  {
    if e.EvResume? {
      ResumeDefined(s, e.pid);
    } else {
      OnlyResumeUndefined(s, e);
    }
    hide Accounted, AllQueued, Open, Close, Lock, Unlock, Access, Remove, Resume, RemoveSession, Without;
    match e
    case EvOpen(name, create, lock, pid, room) => OpenQueued(s, name, create, lock, pid, room);
    case EvClose(fd, pid) => CloseQueued(s, fd, pid);
    case EvLock(fd, pid) => LockQueued(s, fd, pid);
    case EvUnlock(fd, pid) => UnlockQueued(s, fd, pid);
    case EvAccess(fd, pid) =>
    case EvRemove(name, pid) => RemoveQueued(s, name, pid);
    case EvRemoveSession(pid) => RemoveSessionQueued(s, pid);
    case EvSpurious(pid) => SpuriousQueued(s, pid);
    case EvResume(pid) => ResumeQueued(s, pid);
    case EvEvict(name) => WithoutQueued(s, name);
  }

  lemma {:induction false} RunQueued(s: State, es: seq<Event>)
    requires Accounted(s) && AllQueued(s) && Possible(s, es) && OrderlyRun(s, es)
    ensures Accounted(Run(s, es)) && AllQueued(Run(s, es))
    decreases |es|
  {
    hide Accounted, AllQueued, Step, Orderly;
    if es != [] {
      StepQueued(s, es[0]);
      StepAccounted(s, es[0]);
      RunQueued(Step(s, es[0]).0, es[1..]);
    }
  }

  lemma SleepersOf(s: State, name: Name)
    requires name in s.files && Queued(s, name)
    ensures s.files[name].pending == |set p | p in s.waits && s.waits[p].name == name| <= 1
  {
    var sleepers := set p | p in s.waits && s.waits[p].name == name;
    assert forall p: Pid :: Sleeper(s, p, name) <==> p in sleepers;
    if s.files[name].pending == 1 {
      var p: Pid :| Sleeper(s, p, name);
      assert sleepers == {p};
    } else {
      assert sleepers == {};
    }
  }

  /**
   * Pending locks: at most one process waits for a file, exactly when a lock is pending; the file
   * is unlocked, cannot be removed, and gains no reference.
   */
  lemma PendingLock(es: seq<Event>, name: Name, create: bool, lock: bool, pid: Pid, room: bool)
    requires Possible(Init, es) && OrderlyRun(Init, es) && name in Run(Init, es).files
    ensures var s := Run(Init, es);
            && s.files[name].pending == |set p | p in s.waits && s.waits[p].name == name| <= 1
            && (s.files[name].pending > 0 ==>
                 && s.files[name].locked == 0
                 && Remove(s, name, pid).0 == s
                 && Open(s, name, create, lock, pid, room).0 == s)
  {
    RunQueued(Init, es);
    PendingIsSafe(Run(Init, es), name, create, lock, pid, room);
  }

  lemma PendingIsSafe(s: State, name: Name, create: bool, lock: bool, pid: Pid, room: bool)
    requires AllQueued(s) && name in s.files
    ensures s.files[name].pending == |set p | p in s.waits && s.waits[p].name == name| <= 1
    ensures s.files[name].pending > 0 ==>
      s.files[name].locked == 0 && Remove(s, name, pid).0 == s && Open(s, name, create, lock, pid, room).0 == s
  {
    SleepersOf(s, name);
    if s.files[name].locked != 0 {
      LockedQuiet(s, name);
    }
  }

  /** No wakeup is lost: a waiter that has become the only holder is awake, and its next step locks the file. */
  lemma NoLostWakeup(es: seq<Event>, pid: Pid)
    requires Possible(Init, es) && OrderlyRun(Init, es) && pid in Run(Init, es).waits
    ensures var s := Run(Init, es);
            var name := s.waits[pid].name;
            && name in s.files
            && (OnlyHolder(s.files[name], pid) ==>
                 Enabled(s, EvResume(pid)) && Resume(s, pid).0.files[name].locked == pid)
            && (!OnlyHolder(s.files[name], pid) && s.waits[pid].awake ==> Resume(s, pid).1 == Blocked)
  {
    RunQueued(Init, es);
    WaiterIsWoken(Run(Init, es), pid);
  }

  lemma WaiterIsWoken(s: State, pid: Pid)
    requires Accounted(s) && AllQueued(s) && pid in s.waits
    ensures var name := s.waits[pid].name;
            && (OnlyHolder(s.files[name], pid) ==>
                 Enabled(s, EvResume(pid)) && Resume(s, pid).0.files[name].locked == pid)
            && (!OnlyHolder(s.files[name], pid) && s.waits[pid].awake ==> Resume(s, pid).1 == Blocked)
  {
    var name := s.waits[pid].name;
    assert Covered(s, name) && Queued(s, name) && Sleeper(s, pid, name);
    OneSleeper(s, name, pid);
    MustWaitIff(s.files[name], pid);
    hide MustWait, Accounted, OnlyHolder, FirstFree;
    if OnlyHolder(s.files[name], pid) {
      Granted(s, pid);
    }
  }

  /** No step of such a run uses a destroyed inode. */
  lemma NeverUndefined(es: seq<Event>, e: Event)
    requires Possible(Init, es) && OrderlyRun(Init, es)
    requires Enabled(Run(Init, es), e) && Orderly(Run(Init, es), e)
    ensures Step(Run(Init, es), e).1 != Undefined
  {
    RunQueued(Init, es);
    StepQueued(Run(Init, es), e);
  }
}
