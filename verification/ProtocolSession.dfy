/** What `remove_session` does, in every state with accounted references. */
module ProtocolSession {
  import opened Wrappers
  import opened FirstFit
  import opened Protocol
  import opened ProtocolAccounting

  ghost predicate Awake(s: State, p: Pid) {
    p in s.waits && s.waits[p].awake
  }

  /** The same processes sleep on the same files; some may have been woken. */
  ghost predicate Woken(s: State, t: State) {
    && t.waits.Keys == s.waits.Keys
    && forall p :: p in s.waits ==> 
         t.waits[p].name == s.waits[p].name && t.waits[p].orphan == s.waits[p].orphan && (Awake(s, p) ==> Awake(t, p))
  }

  lemma SignalWakes(s: State, t: State, name: Name)
    requires t.waits == Signal(s.waits, name) || t.waits == s.waits
    ensures Woken(s, t)
    ensures t.waits == Signal(s.waits, name) ==>
      forall p: Pid :: p in s.waits && s.waits[p].name == name && !s.waits[p].orphan ==> Awake(t, p)
  {
  }

  lemma WokenTwice(s: State, t: State, u: State)
    requires Woken(s, t) && Woken(t, u)
    ensures Woken(s, u)
  {
  }

  /** Every descriptor of the process on the file is counted as a reference. */
  ghost predicate Balanced(s: State, name: Name, pid: Pid)
    requires name in s.files
  {
    Count(s.files[name], pid) == |FdsOf(s, name, pid)|
  }

  /** From `f` to `g` the process lost all its references, and its lock. */
  ghost predicate LeftFor(f: File, g: File, pid: Pid) {
    && Lost(f, g.(locked := f.locked), pid, Count(f, pid))
    && g.locked == if f.locked == pid then 0 else f.locked
  }

  // ---------- the loop over the files ----------

  lemma SessionFileLeft(s: State, name: Name, pid: Pid)
    requires Accounted(s) && name in s.files
    ensures Dropped(s, name, pid, |FdsOf(s, name, pid)|).1 <==> Balanced(s, name, pid)
    ensures Balanced(s, name, pid) ==> LeftFor(s.files[name], SessionFile(s, name, pid).files[name], pid)
    ensures Woken(s, SessionFile(s, name, pid)) && Woken(s, Dropped(s, name, pid, |FdsOf(s, name, pid)|).0)
  {
    assert Covered(s, name);
    var k := |FdsOf(s, name, pid)|;
    hide Accounted, FdsOf, DropRefs;
    DropRefsLoses(s.files[name], pid, k);
    SignalWakes(s, Dropped(s, name, pid, k).0, name);
    Released(s.files[name], DropRefs(s.files[name], pid, k).file, pid);
  }

  lemma Released(f: File, g: File, pid: Pid)
    requires Lost(f, g, pid, Count(f, pid))
    ensures LeftFor(f, if g.locked == pid then g.(locked := 0) else g, pid)
  {
  }

  lemma FirstName(names: seq<Name>)
    requires names != [] && NoDuplicates(names)
    ensures NoDuplicates(names[1..]) && names[0] !in names[1..]
    ensures forall n :: n in names <==> n == names[0] || n in names[1..]
  {
    assert names == [names[0]] + names[1..];
    forall n
      ensures multiset(names[1..])[n] == multiset(names)[n] - if n == names[0] then 1 else 0
    {
    }
    assert names[0] in names[1..] <==> names[0] in multiset(names[1..]);
  }

  lemma SessionFilesStep(s: State, names: seq<Name>, pid: Pid)
    requires names != [] && names[0] in s.files
    ensures var d := Dropped(s, names[0], pid, |FdsOf(s, names[0], pid)|);
            SessionFiles(s, names, pid) ==
            if d.1 then SessionFiles(SessionFile(s, names[0], pid), names[1..], pid) else d
  {
  }

  /** The loop leaves the files one by one, and fails at the first with a descriptor that is not counted. */
  lemma {:induction false} SessionFilesLeft(s: State, names: seq<Name>, pid: Pid)
    requires Accounted(s) && NoDuplicates(names) && forall n :: n in names ==> n in s.files
    ensures var d := SessionFiles(s, names, pid);
            && (d.1 <==> forall n :: n in names ==> Balanced(s, n, pid))
            && Woken(s, d.0)
            && (forall n :: n in s.files && n !in names ==> d.0.files[n] == s.files[n])
            && (d.1 ==> forall n :: n in names ==> LeftFor(s.files[n], d.0.files[n], pid))
    decreases |names|
  {
    if names != [] {
      var name := names[0];
      SessionFileLeft(s, name, pid);
      SessionFileAccounted(s, name, pid);
      FirstName(names);
      var u := SessionFile(s, name, pid);
      SessionFilesStep(s, names, pid);
      hide Accounted, NoDuplicates, LeftFor, FdsOf, DropRefs, Woken, SessionFiles;
      if Balanced(s, name, pid) {
        SessionFilesLeft(u, names[1..], pid);
        var d := SessionFiles(u, names[1..], pid);
        WokenTwice(s, u, d.0);
        forall n | n in names[1..]
          ensures Balanced(u, n, pid) <==> Balanced(s, n, pid)
        {
          SameFds(s, u, n, pid);
        }
      }
    }
  }

  // ---------- the session as a whole ----------

  /** What is left of a session: nothing of `pid`, and everything of everybody else. */
  ghost predicate SessionEnded(s: State, t: State, pid: Pid) {
    && t.files.Keys == s.files.Keys && t.order == s.order && Woken(s, t)
    && (forall fd :: fd in t.fds <==> fd in s.fds && s.fds[fd].owner != pid)
    && (forall fd :: fd in t.fds ==> t.fds[fd] == s.fds[fd])
    && forall n :: n in s.files ==>
         && t.files[n].pending == s.files[n].pending
         && t.files[n].locked == (if s.files[n].locked == pid then 0 else s.files[n].locked)
         && forall p: Pid :: Count(t.files[n], p) == if p == pid then 0 else Count(s.files[n], p)
  }

  /** With a file stored and exact references, `remove_session` succeeds and ends the session of `pid` only. */
  lemma RemoveSessionEnds(s: State, pid: Pid)
    requires Accounted(s) && s.order != [] && forall n :: n in s.files ==> Balanced(s, n, pid)
    ensures RemoveSession(s, pid).1 == Done
    ensures SessionEnded(s, RemoveSession(s, pid).0, pid)
  {
    hide SessionFiles, FdsOf;
    SessionFilesLeft(s, s.order, pid);
    var u := SessionFiles(s, s.order, pid).0;
    forall n: Name, p: Pid | n in s.files
      ensures Count(u.files[n], p) == if p == pid then 0 else Count(s.files[n], p)
    {
      assert LeftFor(s.files[n], u.files[n], pid);
      assert Count(u.files[n].(locked := s.files[n].locked), p) == Count(u.files[n], p);
    }
    forall n | n in s.files
      ensures u.files[n].pending == s.files[n].pending
      ensures u.files[n].locked == if s.files[n].locked == pid then 0 else s.files[n].locked
    {
      assert LeftFor(s.files[n], u.files[n], pid);
    }
  }

  /**
   * `remove_session` succeeds exactly if a file is stored and all descriptors of the process are
   * counted as references; otherwise all its descriptors stay open.
   */
  lemma RemoveSessionIff(s: State, pid: Pid)
    requires Accounted(s)
    ensures RemoveSession(s, pid).1 == Done <==>
            s.order != [] && forall n :: n in s.files ==> Count(s.files[n], pid) == |FdsOf(s, n, pid)|
    ensures RemoveSession(s, pid).1 != Done ==> RemoveSession(s, pid).0.fds == s.fds
    ensures s.order == [] ==> RemoveSession(s, pid).0 == s
  {
    if s.order != [] {
      SessionFilesLeft(s, s.order, pid);
      assert forall n :: n in s.files ==> (Balanced(s, n, pid) <==> Count(s.files[n], pid) == |FdsOf(s, n, pid)|);
    }
  }

  // ---------- a session that cannot be ended ----------

  /** `a` is removed, and created again by process `q` while process `p` still has the old file open. */
  ghost function Recreation(a: Name, b: Name, p: Pid, q: Pid): seq<Event> {
    [EvOpen(b, true, true, p, true), EvOpen(a, true, true, p, true), EvRemove(a, p), EvOpen(a, true, false, q, true)]
  }

  /** A state like the one after that run: the descriptor of `p` on `a` is not counted. */
  ghost predicate Recreated(s: State, a: Name, b: Name, p: Pid, q: Pid) {
    && s.order == [b, a] && s.files.Keys == {a, b} && s.waits == map[]
    && s.files[b] == File(p, [p], 1, 0) && s.files[a] == File(0, [q], 1, 0)
    && s.fds.Keys == {0, 1, 2} && s.fds[0] == Desc(p, b, p) && s.fds[1] == Desc(p, a, p) && s.fds[2] == Desc(q, a, 0)
  }

  /** A successful `open` that creates a file. */
  lemma CreateOpens(s: State, name: Name, lock: bool, pid: Pid, fd: nat)
    requires name != "" && name !in s.files && |s.fds| != MAX_OPEN_FILES && fd == FirstFree(s.fds.Keys, 0)
    ensures var locked := if lock then pid else 0;
            Open(s, name, true, lock, pid, true).0 ==
            State(s.files[name := File(locked, [pid], 1, 0)], s.order + [name],
              s.fds[fd := Desc(pid, name, locked)], s.waits)
    ensures Open(s, name, true, lock, pid, true).1 == Opened(fd)
  {
    hide FirstFree;
    var t := Created(s, name);
    var f := File(if lock then pid else 0, [], 0, 0);
    var u := WithFile(t, name, f);
    assert t.files[name := t.files[name]] == t.files;
    assert Open(s, name, true, lock, pid, true) == FinishOpen(u, name, pid);
    assert u.files[name := IncreaseRefs(f, pid)] == s.files[name := IncreaseRefs(f, pid)];
    assert IncreaseRefs(f, pid).refs == [pid];
  }

  lemma FirstNumbers()
    ensures FirstFree({}, 0) == 0 && FirstFree({0}, 0) == 1 && FirstFree({0, 1}, 0) == 2
  {
    assert {0, 1} - {0} == {1};
  }

  lemma OneStep(s: State, es: seq<Event>, i: nat, t: State)
    requires i < |es| && Enabled(s, es[i]) && Step(s, es[i]).0 == t
    ensures Possible(s, es[i..]) <==> Possible(t, es[i + 1..])
    ensures Possible(s, es[i..]) ==> Run(s, es[i..]) == Run(t, es[i + 1..])
  {
    assert es[i..][0] == es[i] && es[i..][1..] == es[i + 1..];
  }

  lemma OpenStep(s: State, e: Event)
    ensures e.EvOpen? ==> Enabled(s, e) && Step(s, e).0 == Open(s, e.name, e.create, e.lock, e.pid, e.room).0
    ensures e.EvRemove? ==> Enabled(s, e) && Step(s, e).0 == Remove(s, e.name, e.pid).0
  {
  }

  lemma NoStep(s: State, es: seq<Event>)
    ensures Possible(s, es[|es|..]) && Run(s, es[|es|..]) == s
    ensures es[0..] == es
  {
    assert es[|es|..] == [];
  }

  lemma TwoCreated(a: Name, b: Name, p: Pid) returns (s1: State, s2: State)
    requires a != b && a != "" && b != ""
    ensures s1 == Open(Init, b, true, true, p, true).0 && s2 == Open(s1, a, true, true, p, true).0
    ensures s2.files == map[b := File(p, [p], 1, 0), a := File(p, [p], 1, 0)] && s2.order == [b, a] && s2.waits == map[]
    ensures s2.fds == map[0 := Desc(p, b, p), 1 := Desc(p, a, p)]
  {
    hide Open, FirstFree;
    FirstNumbers();
    s1 := Open(Init, b, true, true, p, true).0;
    CreateOpens(Init, b, true, p, 0);
    assert s1.order == [b] && s1.fds.Keys == {0} && s1.files.Keys == {b};
    s2 := Open(s1, a, true, true, p, true).0;
    CreateOpens(s1, a, true, p, 1);
    assert s2.order == [b, a];
  }

  lemma RemovedLast(s: State, a: Name, b: Name, p: Pid)
    requires s.order == [b, a] && a != b && a != "" && a in s.files && s.files[a].locked == p && s.waits == map[]
    ensures Remove(s, a, p).0 == s.(files := s.files - {a}, order := [b])
  {
    assert s.order[1..] == [a] && [a][1..] == [];
  }

  lemma RecreationReached(a: Name, b: Name, p: Pid, q: Pid)
    requires a != b && a != "" && b != ""
    ensures Possible(Init, Recreation(a, b, p, q)) && Recreated(Run(Init, Recreation(a, b, p, q)), a, b, p, q)
  {
    hide Open, Remove, Step, Enabled, Run, Possible, FirstFree;
    var es := Recreation(a, b, p, q);
    var s1, s2 := TwoCreated(a, b, p);
    RemovedLast(s2, a, b, p);
    var s3 := Remove(s2, a, p).0;
    FirstNumbers();
    assert s3.fds.Keys == {0, 1};
    var s4 := Open(s3, a, true, false, q, true).0;
    CreateOpens(s3, a, false, q, 2);
    OpenStep(Init, es[0]);
    OpenStep(s1, es[1]);
    OpenStep(s2, es[2]);
    OpenStep(s3, es[3]);
    OneStep(Init, es, 0, s1);
    OneStep(s1, es, 1, s2);
    OneStep(s2, es, 2, s3);
    OneStep(s3, es, 3, s4);
    NoStep(s4, es);
    NoStep(Init, es);
  }

  lemma OneDropped(s: State, name: Name, pid: Pid)
    requires name in s.files && s.files[name] == File(pid, [pid], 1, 0) && s.waits == map[]
    ensures Dropped(s, name, pid, 1) == (WithFile(s, name, File(pid, [], 0, 0)), true)
  {
    var g := File(pid, [], 0, 0);
    assert DecreaseRefs(s.files[name], pid) == Some(g);
    assert DropRefs(g, pid, 0) == Drop(g, true, false);
  }

  lemma NoneDropped(s: State, name: Name, pid: Pid)
    requires name in s.files && pid !in s.files[name].refs
    ensures Dropped(s, name, pid, 1) == (s, false)
  {
    assert s.files[name := s.files[name]] == s.files;
  }

  /**
   * After that run `remove_session` fails although files are stored. It gives up at `a`, but the
   * reference and the lock on `b` are gone, while both descriptors of the process stay open.
   */
  lemma SessionCanFail(a: Name, b: Name, p: Pid, q: Pid)
    requires a != b && a != "" && b != "" && p != q
    ensures Possible(Init, Recreation(a, b, p, q))
    ensures var s := Run(Init, Recreation(a, b, p, q));
            && Recreated(s, a, b, p, q)
            && RemoveSession(s, p) == (s.(files := s.files[b := File(0, [], 0, 0)]), Failed(EPERM))
  {
    RecreationReached(a, b, p, q);
    SessionFails(Run(Init, Recreation(a, b, p, q)), a, b, p, q);
  }

  lemma SessionFails(s: State, a: Name, b: Name, p: Pid, q: Pid)
    requires a != b && p != q && Recreated(s, a, b, p, q)
    ensures RemoveSession(s, p) == (s.(files := s.files[b := File(0, [], 0, 0)]), Failed(EPERM))
  {
    hide Dropped;
    var t := WithFile(s, b, File(p, [], 0, 0));
    var u := s.(files := s.files[b := File(0, [], 0, 0)]);
    assert FdsOf(s, b, p) == {0};
    OneDropped(s, b, p);
    assert t.files[b := File(0, [], 0, 0)] == u.files;
    assert ReleaseLock(t, b, p) == u;
    assert FdsOf(u, a, p) == {1};
    NoneDropped(u, a, p);
    assert s.order[1..] == [a];
    assert SessionFiles(u, [a], p) == (u, false);
    assert SessionFiles(s, s.order, p) == SessionFiles(u, [a], p);
  }
}
