/**
 * The file system as a state machine over locks, references, descriptors and blocked calls.
 * Every public call is one step, because it runs under the file system's mutex; a lock call
 * that has to wait is split into the step that blocks and the steps that resume it.
 */
module Protocol {
  import opened Wrappers
  import opened FirstFit

  const MAX_OPEN_FILES := 10240

  /** A process id; 0 stands for "nobody" in `File.locked`. */
  type Pid = p: nat | p > 0 witness 1
  type Name = string

  datatype File = File(locked: nat, refs: seq<Pid>, refCount: nat, pending: nat)

  /** An open descriptor: its owner, and the name and lock field of its copy of the inode. */
  datatype Desc = Desc(owner: Pid, name: Name, copyLocked: nat)

  /** A call of a process that sleeps on the condition variable of an inode; `orphan` if the inode was destroyed. */
  datatype Wait = Wait(name: Name, opening: bool, awake: bool, orphan: bool)

  datatype State = State(files: map<Name, File>, order: seq<Name>, fds: map<nat, Desc>, waits: map<Pid, Wait>)

  /** `EUNSET` stands for an error number that the call itself does not set. */
  datatype Errno =
    | EUNSET | EINVAL | EPERM | ENOENT | EBADF | EACCES | EBUSY | EEXIST | ENFILE | EMFILE | EDEADLK | EDQUOT | E2BIG

  /** `Undefined` stands for the use of a destroyed inode. */
  datatype Outcome = Done | Opened(fd: nat) | Blocked | Failed(error: Errno) | Undefined

  const Init := State(map[], [], map[], map[])

  // ---------- single files ----------

  function IncreaseRefs(f: File, pid: Pid): File {
    f.(refs := [pid] + f.refs, refCount := f.refCount + 1)
  }

  /** Fails when the process holds no reference. */
  function DecreaseRefs(f: File, pid: Pid): Option<File> {
    if f.refCount == 0 || pid !in f.refs then None
    else Some(f.(refs := DeleteFirst(f.refs, pid), refCount := f.refCount - 1))
  }

  /** The outcome of dropping references: the file, whether all could be dropped, and whether waiters were woken. */
  datatype Drop = Drop(file: File, ok: bool, signal: bool)

  /** Drops `n` references of a process one by one; each wakes the waiters if the file may now be lockable. */
  function DropRefs(f: File, pid: Pid, n: nat): Drop
    decreases n
  {
    if n == 0 then Drop(f, true, false)
    else
      match DecreaseRefs(f, pid)
      case None => Drop(f, false, false)
      case Some(g) =>
        var d := DropRefs(g, pid, n - 1);
        d.(signal := d.signal || g.refCount == 0 || HasOthers(g.refs, pid))
  }

  /** Searches the reference list for another process. */
  predicate HasOthers(refs: seq<Pid>, pid: Pid) {
    refs != [] && (refs[0] != pid || HasOthers(refs[1..], pid))
  }

  /**
   * The loop condition of the wait for a lock. The check for other processes answers -1 for a
   * process without a reference, and the loop only waits on the answer 1.
   */
  predicate MustWait(f: File, pid: Pid) {
    f.refCount > 0 && pid in f.refs && HasOthers(f.refs, pid)
  }

  // ---------- parts of the state ----------

  function WithFile(s: State, name: Name, f: File): State {
    s.(files := s.files[name := f])
  }

  /** The inode of the file is destroyed under whoever sleeps on it. */
  function Orphaned(waits: map<Pid, Wait>, name: Name): map<Pid, Wait> {
    map p | p in waits :: if waits[p].name == name then waits[p].(orphan := true) else waits[p]
  }

  /** Wakes whoever sleeps on the file. */
  function Signal(waits: map<Pid, Wait>, name: Name): map<Pid, Wait> {
    map p | p in waits :: if waits[p].name == name && !waits[p].orphan then waits[p].(awake := true) else waits[p]
  }

  function Lookup(s: State, fd: nat, pid: Pid): (r: Outcome)
    ensures r == Done <==> fd in s.fds && s.fds[fd].owner == pid
  {
    if fd !in s.fds then Failed(EBADF)
    else if s.fds[fd].owner != pid then Failed(EPERM)
    else Done
  }

  /** The descriptors of a process on a file. */
  function FdsOf(s: State, name: Name, pid: Pid): set<nat> {
    set fd | fd in s.fds && s.fds[fd].name == name && s.fds[fd].owner == pid
  }

  function Dropped(s: State, name: Name, pid: Pid, n: nat): (State, bool)
    requires name in s.files
  {
    var d := DropRefs(s.files[name], pid, n);
    (WithFile(s, name, d.file).(waits := if d.signal then Signal(s.waits, name) else s.waits), d.ok)
  }

  // ---------- the calls ----------

  /** The end of `open`: a descriptor with a copy of the inode, and one more reference. */
  function FinishOpen(s: State, name: Name, pid: Pid): (State, Outcome)
    requires name in s.files
  {
    if |s.fds| == MAX_OPEN_FILES then (s, Failed(EMFILE))
    else
      var fd := FirstFree(s.fds.Keys, 0);
      var t := s.(fds := s.fds[fd := Desc(pid, name, s.files[name].locked)]);
      (WithFile(t, name, IncreaseRefs(s.files[name], pid)), Opened(fd))
  }

  function Completed(s: State, name: Name, pid: Pid, opening: bool): (State, Outcome)
    requires name in s.files
  {
    if opening then FinishOpen(s, name, pid) else (s, Done)
  }

  /** Locks an unlocked file, or blocks until the process is the only one that has it open. */
  function LockInode(s: State, name: Name, pid: Pid, opening: bool): (State, Outcome)
    requires name in s.files && s.files[name].locked == 0
  {
    var f := s.files[name];
    if f.pending > 0 then (s, Failed(EDEADLK))
    else if MustWait(f, pid) then
      (WithFile(s, name, f.(pending := f.pending + 1)).(waits := s.waits[pid := Wait(name, opening, false, false)]), Blocked)
    else Completed(WithFile(s, name, f.(locked := pid)), name, pid, opening)
  }

  /** The end of a lock call that had to wait. */
  function GrantLock(s: State, name: Name, pid: Pid, opening: bool): (State, Outcome)
    requires name in s.files
  {
    var f := s.files[name];
    if f.locked != 0 && f.locked != pid then (s, Failed(EACCES))
    else if f.pending == 0 then (WithFile(s, name, f.(locked := pid)), Failed(EPERM))
    else Completed(WithFile(s, name, f.(locked := pid, pending := f.pending - 1)), name, pid, opening)
  }

  /** The woken process checks the file again; it locks it, or goes back to sleep. */
  function Resume(s: State, pid: Pid): (State, Outcome)
    requires pid in s.waits && s.waits[pid].awake
  {
    var w := s.waits[pid];
    if w.orphan || w.name !in s.files then (s, Undefined)
    else if MustWait(s.files[w.name], pid) then (s.(waits := s.waits[pid := w.(awake := false)]), Blocked)
    else GrantLock(s.(waits := s.waits - {pid}), w.name, pid, w.opening)
  }

  /** A new file, at the end of the list. */
  function Created(s: State, name: Name): State {
    WithFile(s, name, File(0, [], 0, 0)).(order := s.order + [name])
  }

  /** `room` says that neither the number of files nor the memory is used up. */
  function Open(s: State, name: Name, create: bool, lock: bool, pid: Pid, room: bool): (State, Outcome) {
    if name == "" then (s, Failed(EINVAL))
    else if |s.fds| == MAX_OPEN_FILES then (s, Failed(ENFILE))
    else if create then
      if name in s.files then (s, Failed(EEXIST))
      else if !room then (s, Failed(EDQUOT))
      else OpenFile(Created(s, name), name, lock, pid)
    else if name !in s.files then (s, Failed(ENOENT))
    else OpenFile(s, name, lock, pid)
  }

  function OpenFile(s: State, name: Name, lock: bool, pid: Pid): (State, Outcome)
    requires name in s.files
  {
    var f := s.files[name];
    if f.locked > 0 && f.locked != pid then (s, Failed(EBUSY))
    else if lock then
      if f.locked == pid then FinishOpen(s, name, pid) else LockInode(s, name, pid, true)
    else if f.pending > 0 then (s, Failed(EBUSY))
    else FinishOpen(s, name, pid)
  }

  /** `close` drops the descriptor and a reference; it keeps a lock. */
  function Close(s: State, fd: nat, pid: Pid): (State, Outcome) {
    if Lookup(s, fd, pid) != Done then (s, Lookup(s, fd, pid))
    else
      var name := s.fds[fd].name;
      var t := s.(fds := s.fds - {fd});
      if name !in s.files then (t, Done)
      else
        var d := Dropped(t, name, pid, 1);
        (d.0, if d.1 then Done else Failed(EPERM))
  }

  function Lock(s: State, fd: nat, pid: Pid): (State, Outcome) {
    if Lookup(s, fd, pid) != Done then (s, Lookup(s, fd, pid))
    else
      var name := s.fds[fd].name;
      if name !in s.files then (s, Failed(ENOENT))
      else if s.files[name].locked == pid then (s, Done)
      else if s.files[name].locked > 0 then (s, Failed(EBUSY))
      else LockInode(s, name, pid, false)
  }

  function Unlock(s: State, fd: nat, pid: Pid): (State, Outcome) {
    if Lookup(s, fd, pid) != Done then (s, Lookup(s, fd, pid))
    else
      var name := s.fds[fd].name;
      if name !in s.files then (s, Failed(ENOENT))
      else if s.files[name].locked == 0 then (s, Failed(EPERM))
      else if s.files[name].locked != pid then (s, Failed(EBUSY))
      else (WithFile(s, name, s.files[name].(locked := 0)), Done)
  }

  /** The guard of `read` and `write`: it looks at the lock field of the descriptor's own copy. */
  function Access(s: State, fd: nat, pid: Pid): Outcome {
    if Lookup(s, fd, pid) != Done then Lookup(s, fd, pid)
    else if s.fds[fd].copyLocked > 0 && s.fds[fd].copyLocked != pid then Failed(EBUSY)
    else if s.fds[fd].name !in s.files then Failed(ENOENT)
    else Done
  }

  function Without(s: State, name: Name): State {
    s.(files := s.files - {name}, order := DeleteFirst(s.order, name), waits := Orphaned(s.waits, name))
  }

  function Remove(s: State, name: Name, pid: Pid): (State, Outcome) {
    if name == "" then (s, Failed(EINVAL))
    else if name !in s.files then (s, Failed(ENOENT))
    else if s.files[name].locked != pid then (s, Failed(EPERM))
    else (Without(s, name), Done)
  }

  function ReleaseLock(s: State, name: Name, pid: Pid): State
    requires name in s.files
  {
    if s.files[name].locked == pid then WithFile(s, name, s.files[name].(locked := 0)) else s
  }

  /** The loop of `remove_session` over the files. */
  function SessionFiles(s: State, names: seq<Name>, pid: Pid): (r: (State, bool))
    ensures r.0.files.Keys == s.files.Keys && r.0.fds == s.fds && r.0.order == s.order
    decreases |names|
  {
    if names == [] then (s, true)
    else if names[0] !in s.files then (s, false)
    else
      var d := Dropped(s, names[0], pid, |FdsOf(s, names[0], pid)|);
      if d.1 then SessionFiles(ReleaseLock(d.0, names[0], pid), names[1..], pid) else d
  }

  /** Drops all descriptors of a process. */
  function CloseAll(s: State, pid: Pid): State {
    s.(fds := map fd | fd in s.fds && s.fds[fd].owner != pid :: s.fds[fd])
  }

  /** Fails at once when no file is stored, because the list of files is then NULL. */
  function RemoveSession(s: State, pid: Pid): (State, Outcome) {
    if s.order == [] then (s, Failed(EUNSET))
    else
      var d := SessionFiles(s, s.order, pid);
      if d.1 then (CloseAll(d.0, pid), Done) else (d.0, Failed(EPERM))
  }

  // ---------- runs ----------

  datatype Event =
    | EvOpen(name: Name, create: bool, lock: bool, pid: Pid, room: bool)
    | EvClose(fd: nat, pid: Pid)
    | EvLock(fd: nat, pid: Pid)
    | EvUnlock(fd: nat, pid: Pid)
    | EvAccess(fd: nat, pid: Pid)
    | EvRemove(name: Name, pid: Pid)
    | EvRemoveSession(pid: Pid)
    | EvSpurious(pid: Pid)
    | EvResume(pid: Pid)
    | EvEvict(name: Name)

  predicate Enabled(s: State, e: Event) {
    match e
    case EvSpurious(pid) => pid in s.waits
    case EvResume(pid) => pid in s.waits && s.waits[pid].awake
    case EvEvict(name) => name in s.files
    case _ => true
  }

  function Step(s: State, e: Event): (State, Outcome)
    requires Enabled(s, e)
  {
    match e
    case EvOpen(name, create, lock, pid, room) => Open(s, name, create, lock, pid, room)
    case EvClose(fd, pid) => Close(s, fd, pid)
    case EvLock(fd, pid) => Lock(s, fd, pid)
    case EvUnlock(fd, pid) => Unlock(s, fd, pid)
    case EvAccess(fd, pid) => (s, Access(s, fd, pid))
    case EvRemove(name, pid) => Remove(s, name, pid)
    case EvRemoveSession(pid) => RemoveSession(s, pid)
    case EvSpurious(pid) => (s.(waits := s.waits[pid := s.waits[pid].(awake := true)]), Done)
    case EvResume(pid) => Resume(s, pid)
    case EvEvict(name) => (Without(s, name), Done)
  }

  /** The events can happen one after the other. */
  ghost predicate Possible(s: State, es: seq<Event>)
    decreases |es|
  {
    es == [] || (Enabled(s, es[0]) && Possible(Step(s, es[0]).0, es[1..]))
  }

  ghost function Run(s: State, es: seq<Event>): State
    requires Possible(s, es)
    decreases |es|
  {
    if es == [] then s else Run(Step(s, es[0]).0, es[1..])
  }

  lemma {:induction false} OneMoreStep(s: State, es: seq<Event>, e: Event)
    requires Possible(s, es) && Enabled(Run(s, es), e)
    ensures Possible(s, es + [e]) && Run(s, es + [e]) == Step(Run(s, es), e).0
    decreases |es|
  {
    hide Step, Enabled;
    if es == [] {
      var t := Step(s, e).0;
      assert [e][1..] == [];
      assert Possible(t, []) && Run(t, []) == t;
      assert es + [e] == [e];
    } else {
      OneMoreStep(Step(s, es[0]).0, es[1..], e);
      assert (es + [e])[1..] == es[1..] + [e];
    }
  }
}
