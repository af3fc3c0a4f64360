/** What holds in every run, whatever the policy: references never exceed descriptors. */
module ProtocolAccounting {
  import opened FirstFit
  import opened Protocol

  ghost predicate NoDuplicates(s: seq<Name>) {
    forall n :: multiset(s)[n] <= 1
  }

  ghost function Count(f: File, pid: Pid): nat {
    multiset(f.refs)[pid]
  }

  /** The reference count is the length of the reference list, covered by the descriptors. */
  ghost predicate Covered(s: State, name: Name)
    requires name in s.files
  {
    && s.files[name].refCount == |s.files[name].refs|
    && forall p: Pid :: Count(s.files[name], p) <= |FdsOf(s, name, p)|
  }

  /** The list of file names agrees with the table, every file is covered, and no lock is copied from another process. */
  ghost predicate Accounted(s: State) {
    && NoDuplicates(s.order)
    && (forall n :: n in s.order <==> n in s.files)
    && (forall n :: n in s.files ==> Covered(s, n))
    && (forall fd :: fd in s.fds ==> s.fds[fd].copyLocked == 0 || s.fds[fd].copyLocked == s.fds[fd].owner)
  }

  lemma CountPositive(f: File, pid: Pid)
    ensures Count(f, pid) > 0 <==> pid in f.refs
  {
  }

  lemma IncreaseCount(f: File, pid: Pid, p: Pid)
    ensures Count(IncreaseRefs(f, pid), p) == Count(f, p) + if p == pid then 1 else 0
  {
  }

  lemma DecreaseCount(f: File, pid: Pid, p: Pid)
    requires DecreaseRefs(f, pid).Some?
    ensures Count(DecreaseRefs(f, pid).value, p) == Count(f, p) - if p == pid then 1 else 0
    ensures f.refCount == |f.refs| ==> DecreaseRefs(f, pid).value.refCount == |DecreaseRefs(f, pid).value.refs|
  {
    var g := DecreaseRefs(f, pid).value;
    assert pid in multiset(f.refs);
    assert |multiset(g.refs)| == |multiset(f.refs)| - 1;
  }

  /** Descriptors of other files or owners do not matter. */
  lemma AddedFd(s: State, t: State, fd: nat, name: Name, pid: Pid, n: Name, p: Pid)
    requires fd !in s.fds && fd in t.fds && t.fds[fd].name == name && t.fds[fd].owner == pid
    requires t.fds == s.fds[fd := t.fds[fd]]
    ensures |FdsOf(t, n, p)| == |FdsOf(s, n, p)| + if n == name && p == pid then 1 else 0
  {
    if n == name && p == pid {
      assert FdsOf(t, n, p) == FdsOf(s, n, p) + {fd};
    } else {
      assert FdsOf(t, n, p) == FdsOf(s, n, p);
    }
  }

  lemma RemovedFd(s: State, t: State, fd: nat, n: Name, p: Pid)
    requires fd in s.fds && t.fds == s.fds - {fd}
    ensures |FdsOf(t, n, p)| == |FdsOf(s, n, p)| - if n == s.fds[fd].name && p == s.fds[fd].owner then 1 else 0
  {
    if n == s.fds[fd].name && p == s.fds[fd].owner {
      assert FdsOf(t, n, p) == FdsOf(s, n, p) - {fd};
    } else {
      assert FdsOf(t, n, p) == FdsOf(s, n, p);
    }
  }

  lemma SameFds(s: State, t: State, n: Name, p: Pid)
    requires s.fds == t.fds
    ensures FdsOf(s, n, p) == FdsOf(t, n, p)
  {
  }

  /** A file that keeps its references keeps its accounts. */
  lemma SameAccounts(s: State, t: State)
    requires Accounted(s)
    requires t.fds == s.fds && t.order == s.order && t.files.Keys == s.files.Keys
    requires forall n :: n in s.files ==> t.files[n].refs == s.files[n].refs && t.files[n].refCount == s.files[n].refCount
    ensures Accounted(t)
  {
    forall n | n in t.files
      ensures Covered(t, n)
    {
      assert Covered(s, n);
      forall p: Pid
        ensures Count(t.files[n], p) <= |FdsOf(t, n, p)|
      {
        SameFds(s, t, n, p);
      }
    }
  }

  lemma FinishOpenAccounted(s: State, name: Name, pid: Pid)
    requires Accounted(s) && name in s.files && (s.files[name].locked == 0 || s.files[name].locked == pid)
    ensures Accounted(FinishOpen(s, name, pid).0)
  {
    var t := FinishOpen(s, name, pid).0;
    if t != s {
      var fd := FirstFree(s.fds.Keys, 0);
      forall n | n in t.files
        ensures Covered(t, n)
      {
        assert Covered(s, n);
        forall p: Pid
          ensures Count(t.files[n], p) <= |FdsOf(t, n, p)|
        {
          AddedFd(s, t, fd, name, pid, n, p);
          IncreaseCount(s.files[name], pid, p);
        }
      }
    }
  }

  lemma CompletedAccounted(s: State, name: Name, pid: Pid, opening: bool)
    requires Accounted(s) && name in s.files && s.files[name].locked == pid
    ensures Accounted(Completed(s, name, pid, opening).0)
  {
    if opening {
      FinishOpenAccounted(s, name, pid);
    }
  }

  lemma LockInodeAccounted(s: State, name: Name, pid: Pid, opening: bool)
    requires Accounted(s) && name in s.files && s.files[name].locked == 0
    ensures Accounted(LockInode(s, name, pid, opening).0)
  {
    var f := s.files[name];
    if f.pending > 0 {
    } else if MustWait(f, pid) {
      SameAccounts(s, LockInode(s, name, pid, opening).0);
    } else {
      var t := WithFile(s, name, f.(locked := pid));
      SameAccounts(s, t);
      CompletedAccounted(t, name, pid, opening);
    }
  }

  lemma CreatedAccounted(s: State, name: Name)
    requires Accounted(s) && name !in s.files
    ensures Accounted(Created(s, name))
  {
    var t := Created(s, name);
    forall n, p: Pid | n in t.files
      ensures t.files[n].refCount == |t.files[n].refs|
      ensures Count(t.files[n], p) <= |FdsOf(t, n, p)|
    {
      assert n != name ==> Covered(s, n);
      SameFds(s, t, n, p);
    }
  }

  lemma OpenAccounted(s: State, name: Name, create: bool, lock: bool, pid: Pid, room: bool)
    requires Accounted(s)
    ensures Accounted(Open(s, name, create, lock, pid, room).0)
  {
    if create && name !in s.files {
      CreatedAccounted(s, name);
      OpenFileAccounted(Created(s, name), name, lock, pid);
    } else if !create && name in s.files {
      OpenFileAccounted(s, name, lock, pid);
    }
  }

  lemma OpenFileAccounted(s: State, name: Name, lock: bool, pid: Pid)
    requires Accounted(s) && name in s.files
    ensures Accounted(OpenFile(s, name, lock, pid).0)
  {
    var f := s.files[name];
    if f.locked == 0 || f.locked == pid {
      FinishOpenAccounted(s, name, pid);
      if f.locked == 0 {
        LockInodeAccounted(s, name, pid, true);
      }
    }
  }

  lemma GrantLockAccounted(s: State, name: Name, pid: Pid, opening: bool)
    requires Accounted(s) && name in s.files
    ensures Accounted(GrantLock(s, name, pid, opening).0)
  {
    var f := s.files[name];
    var t := WithFile(s, name, f.(locked := pid));
    SameAccounts(s, t);
    if f.pending > 0 {
      var u := WithFile(s, name, f.(locked := pid, pending := f.pending - 1));
      SameAccounts(s, u);
      CompletedAccounted(u, name, pid, opening);
    }
  }

  lemma ResumeAccounted(s: State, pid: Pid)
    requires Accounted(s) && pid in s.waits && s.waits[pid].awake
    ensures Accounted(Resume(s, pid).0)
  {
    var w := s.waits[pid];
    var t := s.(waits := s.waits - {pid});
    SameAccounts(s, t);
    SameAccounts(s, s.(waits := s.waits[pid := w.(awake := false)]));
    if w.name in s.files {
      GrantLockAccounted(t, w.name, pid, w.opening);
    }
  }

  /** From `f` to `g` the process lost `k` references; no other reference and no lock changed. */
  ghost predicate Lost(f: File, g: File, pid: Pid, k: int) {
    && g.refCount == |g.refs|
    && g.locked == f.locked && g.pending == f.pending
    && forall p: Pid :: Count(g, p) == Count(f, p) - if p == pid then k else 0
  }

  lemma DecreaseLoses(f: File, pid: Pid)
    requires f.refCount == |f.refs|
    ensures DecreaseRefs(f, pid).Some? <==> Count(f, pid) > 0
    ensures DecreaseRefs(f, pid).Some? ==> Lost(f, DecreaseRefs(f, pid).value, pid, 1)
  {
    CountPositive(f, pid);
    if DecreaseRefs(f, pid).Some? {
      forall p: Pid
        ensures Count(DecreaseRefs(f, pid).value, p) == Count(f, p) - if p == pid then 1 else 0
      {
        DecreaseCount(f, pid, p);
      }
      DecreaseCount(f, pid, pid);
    }
  }

  lemma LosesMore(f: File, g: File, h: File, pid: Pid, k: int)
    requires Lost(f, g, pid, 1) && Lost(g, h, pid, k)
    ensures Lost(f, h, pid, k + 1)
  {
  }

  /** Dropping `n` references removes as many as there are, and fails if there are fewer. */
  lemma {:induction false} DropRefsLoses(f: File, pid: Pid, n: nat)
    requires f.refCount == |f.refs|
    ensures var d := DropRefs(f, pid, n);
            && (d.ok <==> n <= Count(f, pid))
            && Lost(f, d.file, pid, if d.ok then n else Count(f, pid))
    decreases n
  {
    hide DecreaseRefs, HasOthers, Lost, DropRefs, Count;
    DropsFirst(f, pid, n);
    LosesNothing(f, pid);
    if n > 0 {
      DecreaseLoses(f, pid);
      if DecreaseRefs(f, pid).Some? {
        var g := DecreaseRefs(f, pid).value;
        LosesOne(f, g, pid);
        DropRefsLoses(g, pid, n - 1);
        var d := DropRefs(g, pid, n - 1);
        LosesMore(f, g, d.file, pid, if d.ok then n - 1 else Count(g, pid));
      }
    }
  }

  /** Dropping references drops one, and then the rest. */
  lemma DropsFirst(f: File, pid: Pid, n: nat)
    ensures n == 0 ==> DropRefs(f, pid, n) == Drop(f, true, false)
    ensures n > 0 && DecreaseRefs(f, pid).None? ==> DropRefs(f, pid, n) == Drop(f, false, false)
    ensures n > 0 && DecreaseRefs(f, pid).Some? ==>
      var d := DropRefs(DecreaseRefs(f, pid).value, pid, n - 1);
      DropRefs(f, pid, n).file == d.file && DropRefs(f, pid, n).ok == d.ok
  {
  }

  lemma LosesNothing(f: File, pid: Pid)
    requires f.refCount == |f.refs|
    ensures Lost(f, f, pid, 0)
  {
  }

  lemma LosesOne(f: File, g: File, pid: Pid)
    requires Lost(f, g, pid, 1)
    ensures g.refCount == |g.refs| && Count(g, pid) == Count(f, pid) - 1
  {
  }

  lemma CloseCovered(s: State, fd: nat, pid: Pid, n: Name)
    requires Accounted(s) && Lookup(s, fd, pid) == Done && n in s.files
    requires s.fds[fd].name in s.files
    ensures Covered(Close(s, fd, pid).0, n)
  {
    var name := s.fds[fd].name;
    var u := s.(fds := s.fds - {fd});
    var t := Close(s, fd, pid).0;
    assert Covered(s, n) && Covered(s, name);
    DropRefsLoses(s.files[name], pid, 1);
    forall p: Pid
      ensures Count(t.files[n], p) <= |FdsOf(t, n, p)|
    {
      RemovedFd(s, t, fd, n, p);
      CountPositive(s.files[n], p);
    }
  }

  lemma CloseAccounted(s: State, fd: nat, pid: Pid)
    requires Accounted(s)
    ensures Accounted(Close(s, fd, pid).0)
  {
    if Lookup(s, fd, pid) == Done {
      var t := Close(s, fd, pid).0;
      forall n | n in t.files
        ensures Covered(t, n)
      {
        if s.fds[fd].name in s.files {
          CloseCovered(s, fd, pid, n);
        } else {
          assert Covered(s, n);
          forall p: Pid
            ensures Count(t.files[n], p) <= |FdsOf(t, n, p)|
          {
            RemovedFd(s, t, fd, n, p);
          }
        }
      }
    }
  }

  lemma RemoveAccounted(s: State, name: Name)
    requires Accounted(s) && name in s.files
    ensures Accounted(Without(s, name))
  {
    var t := Without(s, name);
    DeleteKeepsOrder(s.order, name);
    forall n | n in t.files
      ensures Covered(t, n)
    {
      assert Covered(s, n);
      forall p: Pid
        ensures Count(t.files[n], p) <= |FdsOf(t, n, p)|
      {
        SameFds(s, t, n, p);
      }
    }
  }

  lemma DeleteKeepsOrder(s: seq<Name>, x: Name)
    requires NoDuplicates(s)
    ensures NoDuplicates(DeleteFirst(s, x))
    ensures forall n :: n in DeleteFirst(s, x) <==> n in s && n != x
  {
    var r := DeleteFirst(s, x);
    forall n
      ensures n in r <==> n in s && n != x
    {
      assert n in r <==> multiset(r)[n] > 0;
      assert n in s <==> multiset(s)[n] > 0;
    }
  }

  /** Losing references keeps the accounts. */
  lemma FewerRefs(s: State, t: State)
    requires Accounted(s)
    requires t.fds == s.fds && t.order == s.order && t.files.Keys == s.files.Keys
    requires forall n :: n in s.files ==>
      t.files[n].refCount == |t.files[n].refs| && forall p: Pid :: Count(t.files[n], p) <= Count(s.files[n], p)
    ensures Accounted(t)
  {
    forall n | n in t.files
      ensures Covered(t, n)
    {
      assert Covered(s, n);
      forall p: Pid
        ensures Count(t.files[n], p) <= |FdsOf(t, n, p)|
      {
        SameFds(s, t, n, p);
      }
    }
  }

  /** One round of the loop of `remove_session`. */
  function SessionFile(s: State, name: Name, pid: Pid): State
    requires name in s.files
  {
    ReleaseLock(Dropped(s, name, pid, |FdsOf(s, name, pid)|).0, name, pid)
  }

  lemma CoveredCount(s: State, name: Name, pid: Pid)
    requires Accounted(s) && name in s.files
    ensures |FdsOf(s, name, pid)| >= Count(s.files[name], pid)
  {
    assert Covered(s, name);
  }

  lemma DroppedAccounted(s: State, name: Name, pid: Pid, n: nat)
    requires Accounted(s) && name in s.files && n >= Count(s.files[name], pid)
    ensures Accounted(Dropped(s, name, pid, n).0)
    ensures Dropped(s, name, pid, n).1 ==> Count(Dropped(s, name, pid, n).0.files[name], pid) == 0
  {
    hide DropRefs, NoDuplicates;
    assert Covered(s, name);
    DropRefsLoses(s.files[name], pid, n);
    FewerRefs(s, Dropped(s, name, pid, n).0);
  }

  lemma SessionFileAccounted(s: State, name: Name, pid: Pid)
    requires Accounted(s) && name in s.files
    ensures Accounted(SessionFile(s, name, pid))
    ensures Accounted(Dropped(s, name, pid, |FdsOf(s, name, pid)|).0)
    ensures Dropped(s, name, pid, |FdsOf(s, name, pid)|).1 ==> Count(SessionFile(s, name, pid).files[name], pid) == 0
    ensures forall n :: n in s.files && n != name ==> SessionFile(s, name, pid).files[n] == s.files[n]
  {
    var k := |FdsOf(s, name, pid)|;
    CoveredCount(s, name, pid);
    hide DropRefs, Accounted, FdsOf;
    DroppedAccounted(s, name, pid, k);
    var t := Dropped(s, name, pid, k).0;
    SameAccounts(t, ReleaseLock(t, name, pid));
  }

  /** The loop keeps the accounts; if it ends well, no file on the list has a reference of the process. */
  lemma {:induction false} SessionFilesAccounted(s: State, names: seq<Name>, pid: Pid, done: set<Name>)
    requires Accounted(s) && forall n :: n in names ==> n in s.files
    requires forall n :: n in done ==> n in s.files && Count(s.files[n], pid) == 0
    ensures var d := SessionFiles(s, names, pid);
            && Accounted(d.0)
            && (d.1 ==> forall n :: n in done || n in names ==> Count(d.0.files[n], pid) == 0)
    decreases |names|
  {
    if names != [] {
      SessionFileAccounted(s, names[0], pid);
      if Dropped(s, names[0], pid, |FdsOf(s, names[0], pid)|).1 {
        SessionFilesAccounted(SessionFile(s, names[0], pid), names[1..], pid, done + {names[0]});
      }
    }
  }

  lemma CloseAllFds(s: State, pid: Pid, n: Name, p: Pid)
    ensures FdsOf(CloseAll(s, pid), n, p) == if p == pid then {} else FdsOf(s, n, p)
  {
  }

  lemma RemoveSessionAccounted(s: State, pid: Pid)
    requires Accounted(s)
    ensures Accounted(RemoveSession(s, pid).0)
  {
    if s.order != [] {
      SessionFilesAccounted(s, s.order, pid, {});
      var d := SessionFiles(s, s.order, pid);
      if d.1 {
        var t := CloseAll(d.0, pid);
        forall n | n in t.files
          ensures Covered(t, n)
        {
          assert Covered(d.0, n) && n in s.order;
          forall p: Pid
            ensures Count(t.files[n], p) <= |FdsOf(t, n, p)|
          {
            CloseAllFds(d.0, pid, n, p);
          }
        }
      }
    }
  }

  lemma StepAccounted(s: State, e: Event)
    requires Accounted(s) && Enabled(s, e)
    ensures Accounted(Step(s, e).0)
  {
    match e
    case EvOpen(name, create, lock, pid, room) => OpenAccounted(s, name, create, lock, pid, room);
    case EvClose(fd, pid) => CloseAccounted(s, fd, pid);
    case EvLock(fd, pid) =>
      if Lookup(s, fd, pid) == Done && s.fds[fd].name in s.files && s.files[s.fds[fd].name].locked == 0 {
        LockInodeAccounted(s, s.fds[fd].name, pid, false);
      }
    case EvUnlock(fd, pid) => SameAccountsOfUnlock(s, fd, pid);
    case EvAccess(fd, pid) =>
    case EvRemove(name, pid) => if name in s.files { RemoveAccounted(s, name); }
    case EvRemoveSession(pid) => RemoveSessionAccounted(s, pid);
    case EvSpurious(pid) => SameAccounts(s, Step(s, e).0);
    case EvResume(pid) => ResumeAccounted(s, pid);
    case EvEvict(name) => RemoveAccounted(s, name);
  }

  lemma SameAccountsOfUnlock(s: State, fd: nat, pid: Pid)
    requires Accounted(s)
    ensures Accounted(Unlock(s, fd, pid).0)
  {
    SameAccounts(s, Unlock(s, fd, pid).0);
  }

  // ---------- how many references there can be ----------

  /** The references of other processes. */
  ghost function Others(refs: seq<Pid>, pid: Pid): (r: seq<Pid>)
    ensures |r| == |refs| - multiset(refs)[pid]
    ensures forall q: Pid :: multiset(r)[q] == if q == pid then 0 else multiset(refs)[q]
  {
    if refs == [] then []
    else
      assert refs == [refs[0]] + refs[1..];
      if refs[0] == pid then Others(refs[1..], pid) else [refs[0]] + Others(refs[1..], pid)
  }

  lemma {:induction false} ReferencesOf(s: State, name: Name, refs: seq<Pid>, fds: set<nat>)
    requires forall p: Pid :: p in refs ==> multiset(refs)[p] <= |FdsOf(s, name, p)| && FdsOf(s, name, p) <= fds
    ensures |refs| <= |fds|
    decreases |refs|
  {
    if refs != [] {
      var p := refs[0];
      var rest: seq<Pid> := Others(refs, p);
      assert multiset(refs)[p] > 0;
      forall q: Pid | q in rest
        ensures multiset(rest)[q] <= |FdsOf(s, name, q)| && FdsOf(s, name, q) <= fds - FdsOf(s, name, p)
      {
        assert multiset(rest)[q] > 0;
        assert q in multiset(refs);
      }
      ReferencesOf(s, name, rest, fds - FdsOf(s, name, p));
    }
  }

  /** A file never has more references than there are descriptors. */
  lemma ReferencesFit(s: State, name: Name)
    requires Accounted(s) && name in s.files
    ensures s.files[name].refCount <= |s.fds|
  {
    assert Covered(s, name);
    var f := s.files[name];
    forall p: Pid | p in f.refs
      ensures multiset(f.refs)[p] <= |FdsOf(s, name, p)| && FdsOf(s, name, p) <= s.fds.Keys
    {
      assert Count(f, p) == multiset(f.refs)[p];
    }
    ReferencesOf(s, name, f.refs, s.fds.Keys);
  }

  /** In every run, under every policy, references never exceed descriptors. */
  lemma {:induction false} RunAccounted(s: State, es: seq<Event>)
    requires Accounted(s) && Possible(s, es)
    ensures Accounted(Run(s, es))
    decreases |es|
  {
    if es != [] {
      StepAccounted(s, es[0]);
      RunAccounted(Step(s, es[0]).0, es[1..]);
    }
  }

  /** Reference accounting over all runs from the empty file system. */
  lemma ReferencesNeverExceedDescriptors(es: seq<Event>, name: Name, pid: Pid)
    requires Possible(Init, es) && name in Run(Init, es).files
    ensures var f := Run(Init, es).files[name];
            f.refCount == |f.refs| && Count(f, pid) <= |FdsOf(Run(Init, es), name, pid)|
  {
    RunAccounted(Init, es);
    assert Covered(Run(Init, es), name);
  }
}
