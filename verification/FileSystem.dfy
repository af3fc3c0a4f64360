/** The calls of gnl_simfs_file_system.c over the file table, the descriptor table and the monitor. */
module FileSystemModule {
  import opened Wrappers
  import opened FirstFit
  import opened MinHeap
  import opened HuffmanTree
  import HuffmanCodec
  import opened InodeModule
  import opened FileTableModule
  import opened DescriptorTable
  import opened ProtocolAccounting
  import opened ProtocolSession
  import opened ProtocolCalls
  import opened Eviction
  import opened Writing
  import P = Protocol

  lemma SignalTwice(waits: map<P.Pid, P.Wait>, name: P.Name)
    ensures P.Signal(P.Signal(waits, name), name) == P.Signal(waits, name)
  {
  }

  /** Dropping `n` references is dropping one, and then the rest. */
  lemma DropOneMore(s: P.State, name: P.Name, pid: P.Pid, n: nat)
    requires name in s.files && n > 0
    ensures var d := P.Dropped(s, name, pid, 1);
            P.Dropped(s, name, pid, n) == if d.1 then P.Dropped(d.0, name, pid, n - 1) else d
  {
    hide P.Signal, P.DecreaseRefs, P.HasOthers;
    SignalTwice(s.waits, name);
    var g := P.DecreaseRefs(s.files[name], pid);
    if g.Some? {
      assert P.DropRefs(g.value, pid, 0) == P.Drop(g.value, true, false);
      var d := P.DropRefs(g.value, pid, n - 1);
      assert s.files[name := g.value][name := d.file] == s.files[name := d.file];
    }
  }

  lemma NothingDropped(s: P.State, name: P.Name, pid: P.Pid)
    requires name in s.files
    ensures P.Dropped(s, name, pid, 0) == (s, true)
  {
    assert s.files[name := s.files[name]] == s.files;
  }

  lemma DroppedFile(s: P.State, name: P.Name, pid: P.Pid, n: nat)
    requires name in s.files
    ensures P.Dropped(s, name, pid, n).0.files.Keys == s.files.Keys
  {
    hide P.DropRefs;
    assert P.Dropped(s, name, pid, n).0.files == s.files[name := P.DropRefs(s.files[name], pid, n).file];
  }

  lemma GrantIs(s: P.State, name: P.Name, pid: P.Pid, opening: bool)
    requires name in s.files
    ensures var f := s.files[name];
            P.GrantLock(s, name, pid, opening) ==
            if f.locked != 0 && f.locked != pid then (s, P.Failed(P.EACCES))
            else if f.pending == 0 then (P.WithFile(s, name, f.(locked := pid)), P.Failed(P.EPERM))
            else P.Completed(P.WithFile(s, name, f.(locked := pid, pending := f.pending - 1)), name, pid, opening)
  {
  }

  lemma OpensNew(s: P.State, name: P.Name, lock: bool, pid: P.Pid, room: bool)
    requires name != "" && |s.fds| < P.MAX_OPEN_FILES && name !in s.files
    ensures name in P.Created(s, name).files
    ensures P.Open(s, name, true, lock, pid, room) ==
            if room then P.OpenFile(P.Created(s, name), name, lock, pid) else (s, P.Failed(P.EDQUOT))
  {
  }

  /** A list of names without duplicates is as long as the set of the names. */
  lemma {:induction false} NamesAre(names: seq<P.Name>, keys: set<P.Name>)
    requires NoDuplicates(names) && forall n :: n in names <==> n in keys
    ensures |names| == |keys|
  {
    if names == [] {
      assert keys == {};
    } else {
      FirstName(names);
      NamesAre(names[1..], keys - {names[0]});
    }
  }

  class FileSystem {
    const table: FileTable
    const descriptors: Descriptors
    const monitor: Monitor
    const memoryLimit: nat
    const filesLimit: nat
    const policy: Policy

    /** The processes that sleep on the condition variable of a file. */
    var waits: map<P.Pid, P.Wait>

    /** The View() of the lock protocol. */
    ghost function View(): P.State
      reads this, table, descriptors
    {
      P.State(table.files, table.presence, descriptors.fds, waits)
    }

    /** The tables are in order and within the limit of files, the counters agree with them, and they hold what View() says. */
    ghost predicate Valid()
      reads table, table.repr`locked, table.repr`refs, table.repr`refCount, table.repr`pending
      reads table.repr`size, table.repr`direct, monitor
      reads descriptors, descriptors.free, descriptors.table, descriptors.free.list
      reads descriptors.copies`locked, descriptors.copies`size, descriptors.copies`direct
    {
      && table.Valid() && table.Matches()
      && descriptors.Valid() && descriptors.Matches() && descriptors.limit == P.MAX_OPEN_FILES
      && monitor.bytesCounter == table.size && monitor.fileCounter >= table.count && table.count <= filesLimit
      && descriptors.copies !! table.repr
    }

    constructor (memoryLimit: nat, filesLimit: nat, policy: Policy)
      ensures Valid() && View() == P.Init && table.size == table.count == 0
      ensures fresh(table) && fresh(monitor) && fresh(descriptors.Repr())
      ensures table.repr == {} && descriptors.copies == {}
      ensures this.memoryLimit == memoryLimit && this.filesLimit == filesLimit && this.policy == policy
    {
      this.memoryLimit, this.filesLimit, this.policy := memoryLimit, filesLimit, policy;
      table := new FileTable();
      descriptors := new Descriptors(P.MAX_OPEN_FILES);
      monitor := new Monitor();
      waits := map[];
    }

    lemma Found(name: P.Name)
      requires table.Valid() && table.Matches()
      ensures name in table.inodes <==> name in table.files
      ensures name in table.inodes ==> table.Stores(table.inodes[name]) && table.inodes[name].name == name
    {
      assert name in table.inodes ==> table.Holds(name);
    }

    lemma FoundCopy(fd: nat)
      requires descriptors.Matches()
      ensures fd in descriptors.Contents() <==> fd in descriptors.fds
      ensures fd in descriptors.fds ==> SlotMatches(descriptors.Contents()[fd], descriptors.fds[fd], descriptors.copies)
    {
    }

    /** Gets the inode of a name, as `gnl_simfs_rts_get_inode` does. */
    method GetInode(name: P.Name) returns (inode: Inode?)
      requires Valid()
      ensures inode == null <==> name !in View().files
      ensures inode != null ==> table.Stores(inode) && inode.name == name && inode in table.repr
    {
      hide FileTable.Valid, FileTable.Matches, Descriptors.Valid, Descriptors.Matches;
      inode := table.Get(name);
      Found(name);
    }

    /** Gets the copy of a descriptor, as `gnl_simfs_rts_get_inode_by_fd` does. */
    method GetInodeByFd(fd: nat, pid: P.Pid) returns (copy: Inode?, r: P.Outcome)
      requires Valid()
      ensures r == P.Lookup(View(), fd, pid)
      ensures r == P.Done ==>
        && copy != null && copy in descriptors.copies && copy !in table.repr && copy.Valid()
        && fd in descriptors.Contents() && copy == descriptors.Contents()[fd].inode
        && copy.name == View().fds[fd].name && copy.locked == View().fds[fd].copyLocked
    {
      hide FileTable.Valid, FileTable.Matches, Descriptors.Valid, Descriptors.Matches;
      copy, r := descriptors.Get(fd, pid);
      FoundCopy(fd);
    }

    // ---------- copies ----------

    /** The copy shares the block of the file of its name, if there is one, and has nothing left to flush. */
    ghost predicate FreshCopy(copy: Inode)
      reads table`inodes, table`repr, table.repr`size, table.repr`direct, copy`size, copy`direct, copy`buffer
    {
      copy.name in table.inodes ==>
        && copy.buffer == [] && table.inodes[copy.name] in table.repr
        && copy.direct == table.inodes[copy.name].direct && copy.size == table.inodes[copy.name].size
    }

    /** The descriptors through which a write is an append. */
    ghost function FreshFds(): (fds: set<nat>)
      ensures fds <= descriptors.Contents().Keys
      reads table`inodes, table`repr, table.repr`size, table.repr`direct, descriptors`table, descriptors.table
      reads descriptors`copies, descriptors.copies`size, descriptors.copies`direct, descriptors.copies`buffer
    {
      set fd | fd in descriptors.Contents() && descriptors.Contents()[fd].inode in descriptors.copies
        && FreshCopy(descriptors.Contents()[fd].inode)
    }

    /** The descriptors with nothing left to flush into a stored file. */
    ghost function FlushedFds(): (fds: set<nat>)
      reads table`inodes, descriptors`table, descriptors.table, descriptors`copies, descriptors.copies`buffer
      ensures fds <= descriptors.Contents().Keys
    {
      set fd | fd in descriptors.Contents() && descriptors.Contents()[fd].inode in descriptors.copies
        && (descriptors.Contents()[fd].inode.name in table.inodes ==> descriptors.Contents()[fd].inode.buffer == [])
    }

    /** Of these descriptors the open ones are flushed, or fresh. */
    ghost predicate Keeps(flushed: set<nat>, fresh': set<nat>)
      reads table`inodes, table`repr, table.repr`size, table.repr`direct, descriptors`table, descriptors.table
      reads descriptors`copies, descriptors.copies`size, descriptors.copies`direct, descriptors.copies`buffer
    {
      flushed * descriptors.Contents().Keys <= FlushedFds() && fresh' * descriptors.Contents().Keys <= FreshFds()
    }

    /** If the call opened a descriptor, it fills a slot; other slots stay. */
    ghost predicate SlotAdded(slots: map<nat, Slot>, copies: set<Inode>, r: P.Outcome)
      reads descriptors`table, descriptors.table, descriptors`copies
    {
      && copies <= descriptors.copies
      && (r.Opened? ==> r.fd in descriptors.Contents())
      && descriptors.Contents() == if r.Opened? then slots[r.fd := descriptors.Contents()[r.fd]] else slots
    }

    lemma SameSlots()
      ensures forall r: P.Outcome :: !r.Opened? ==> SlotAdded(descriptors.Contents(), descriptors.copies, r)
    {
    }

    lemma KeepsNow()
      ensures Keeps(FlushedFds(), FreshFds())
    {
    }

    /** Copies and blocks stay. */
    twostate predicate SameCopies()
      reads table`repr, table.repr`size, table.repr`direct, descriptors`copies
      reads descriptors.copies`size, descriptors.copies`direct, descriptors.copies`buffer
    {
      && old(descriptors.copies) <= descriptors.copies && old(table.repr) <= table.repr
      && (forall i :: i in old(descriptors.copies) ==>
           i.buffer == old(i.buffer) && i.size == old(i.size) && i.direct == old(i.direct))
      && (forall i :: i in old(table.repr) ==> i.size == old(i.size) && i.direct == old(i.direct))
    }

    /** If the call opened a descriptor, its copy is fresh. */
    twostate lemma SlotFilled(r: P.Outcome)
      requires SameCopies()
      requires forall d :: d in old(descriptors.Contents()) ==>
        var name := old(descriptors.Contents()[d].inode).name;
        name in table.inodes ==> name in old(table.inodes) && table.inodes[name] == old(table.inodes[name])
      requires SlotAdded(old(descriptors.Contents()), old(descriptors.copies), r) && (r.Opened? ==> r.fd in FreshFds())
      ensures Keeps(old(FlushedFds()), old(FreshFds()))
    {
      forall d | d in descriptors.Contents() && !(r.Opened? && d == r.fd)
        ensures d in old(descriptors.Contents()) && descriptors.Contents()[d] == old(descriptors.Contents()[d])
      {
      }
    }

    /** No descriptor is open under the name. */
    ghost predicate NoDescriptor(name: P.Name)
      reads descriptors`table, descriptors.table
    {
      forall fd :: fd in descriptors.Contents() ==> descriptors.Contents()[fd].inode.name != name
    }

    ghost predicate Spared(name: P.Name, except: set<P.Name>)
      reads table`inodes
    {
      name !in except || name !in table.inodes
    }

    /** Files were read, written or evicted; blocks and copies of the names in `except` may have changed. */
    twostate lemma FreshKept(except: set<P.Name>)
      requires old(table.Matches()) && table.Matches() && table.repr == old(table.repr)
      requires descriptors.Contents() == old(descriptors.Contents()) && descriptors.copies == old(descriptors.copies)
      requires SameBlocks(old(Stored()).files, Stored().files, except)
      requires forall i :: i in descriptors.copies && i.name !in except ==>
        i.buffer == old(i.buffer) && i.size == old(i.size) && i.direct == old(i.direct)
      ensures forall fd :: fd in old(FreshFds()) && Spared(descriptors.Contents()[fd].inode.name, except) ==>
        fd in FreshFds()
    {
      forall fd | fd in old(FreshFds()) && descriptors.Contents()[fd].inode.name !in except
        ensures fd in FreshFds()
      {
        var name := descriptors.Contents()[fd].inode.name;
        assert name in table.inodes ==> name in Stored().files && name in old(Stored()).files;
      }
    }

    /** Files may be gone, and the copy of one descriptor may have changed, but its file is gone, or nothing is buffered. */
    twostate lemma FlushedKept(copies: set<Inode>)
      requires table.inodes.Keys <= old(table.inodes.Keys)
      requires descriptors.Contents() == old(descriptors.Contents()) && descriptors.copies == old(descriptors.copies)
      requires forall i :: i in descriptors.copies && i !in copies ==> i.buffer == old(i.buffer)
      requires forall i :: i in copies ==> i.name in table.inodes ==> i.buffer == []
      ensures old(FlushedFds()) <= FlushedFds()
    {
    }

    /** Slots were emptied, or names taken away. */
    twostate lemma FewerSlots()
      requires SameCopies() && table.repr == old(table.repr)
      requires forall n :: n in table.inodes ==> n in old(table.inodes) && table.inodes[n] == old(table.inodes[n])
      requires forall d :: d in descriptors.Contents() ==>
        d in old(descriptors.Contents()) && descriptors.Contents()[d] == old(descriptors.Contents()[d])
      ensures Keeps(old(FlushedFds()), old(FreshFds()))
    {
    }

    // ---------- changing one file ----------

    /** Unlocks the inode of a file. */
    method ReleaseLock(inode: Inode, pid: P.Pid, now: Time) returns (ok: bool)
      requires Valid() && table.Stores(inode)
      modifies table`files, table.repr`locked, table.repr`ctime
      ensures Valid() && table.Stores(inode) && (ok <==> old(inode.locked) == 0 || old(inode.locked) == pid)
      ensures View() == if ok then P.WithFile(old(View()), inode.name, old(inode.File()).(locked := 0)) else old(View())
    {
      hide FileTable.Valid, FileTable.Matches, Descriptors.Valid, Descriptors.Matches;
      ok := inode.FileUnlock(pid, now);
      table.files := table.files[inode.name := inode.File()];
      table.FileChanged(inode);
    }

    /** Locks the inode of a file. */
    method TakeLock(inode: Inode, pid: P.Pid, now: Time) returns (ok: bool)
      requires Valid() && table.Stores(inode)
      modifies table`files, table.repr`locked, table.repr`ctime
      ensures Valid() && table.Stores(inode) && (ok <==> old(inode.locked) == 0 || old(inode.locked) == pid)
      ensures View() == if ok then P.WithFile(old(View()), inode.name, old(inode.File()).(locked := pid)) else old(View())
    {
      hide FileTable.Valid, FileTable.Matches, Descriptors.Valid, Descriptors.Matches;
      ok := inode.FileLock(pid, now);
      table.files := table.files[inode.name := inode.File()];
      table.FileChanged(inode);
    }

    method Pend(inode: Inode, now: Time)
      requires Valid() && table.Stores(inode)
      modifies table`files, table.repr`pending, table.repr`ctime
      ensures Valid() && table.Stores(inode)
      ensures View() == P.WithFile(old(View()), inode.name, old(inode.File()).(pending := old(inode.pending) + 1))
    {
      hide FileTable.Valid, FileTable.Matches, Descriptors.Valid, Descriptors.Matches;
      inode.IncreasePendingLocks(now);
      table.files := table.files[inode.name := inode.File()];
      table.FileChanged(inode);
    }

    method Unpend(inode: Inode, now: Time) returns (ok: bool)
      requires Valid() && table.Stores(inode)
      modifies table`files, table.repr`pending, table.repr`ctime
      ensures Valid() && table.Stores(inode) && (ok <==> old(inode.pending) > 0)
      ensures ok ==> View() == P.WithFile(old(View()), inode.name, old(inode.File()).(pending := old(inode.pending) - 1))
      ensures !ok ==> View() == old(View())
    {
      hide FileTable.Valid, FileTable.Matches, Descriptors.Valid, Descriptors.Matches;
      ok := inode.DecreasePendingLocks(now);
      table.files := table.files[inode.name := inode.File()];
      table.FileChanged(inode);
    }

    method AddRef(inode: Inode, pid: P.Pid, now: Time)
      requires Valid() && table.Stores(inode)
      modifies table`files, table.repr`refs, table.repr`refCount, table.repr`ctime
      ensures Valid() && table.Stores(inode)
      ensures View() == P.WithFile(old(View()), inode.name, P.IncreaseRefs(old(inode.File()), pid))
    {
      hide FileTable.Valid, FileTable.Matches, Descriptors.Valid, Descriptors.Matches;
      inode.IncreaseRefs(pid, now);
      table.files := table.files[inode.name := inode.File()];
      table.FileChanged(inode);
    }

    /** Wakes whoever sleeps on a file. */
    method Signal(name: P.Name)
      modifies `waits
      ensures waits == P.Signal(old(waits), name)
    {
      waits := map p | p in waits ::
        if waits[p].name == name && !waits[p].orphan then waits[p].(awake := true) else waits[p];
    }

    /** The inode of a file is destroyed under whoever sleeps on it. */
    method Orphan(name: P.Name)
      modifies `waits
      ensures waits == P.Orphaned(old(waits), name)
    {
      waits := map p | p in waits :: if waits[p].name == name then waits[p].(orphan := true) else waits[p];
    }

    /** Drops a reference, if there is one; says whether the waiters are to be woken. */
    method DropOne(inode: Inode, pid: P.Pid, now: Time) returns (ok: bool, signal: bool)
      requires Valid() && table.Stores(inode)
      modifies table`files, table.repr`refs, table.repr`refCount, table.repr`ctime
      ensures Valid() && table.Stores(inode)
      ensures P.Drop(inode.File(), ok, signal) == P.DropRefs(old(inode.File()), pid, 1)
      ensures View() == P.WithFile(old(View()), inode.name, inode.File())
    {
      hide FileTable.Valid, FileTable.Matches, Descriptors.Valid, Descriptors.Matches, P.DropRefs;
      ok, signal := inode.DecreaseRefs(pid, now);
      table.files := table.files[inode.name := inode.File()];
      table.FileChanged(inode);
    }

    /** Drops a reference; it may wake the waiters. */
    method DropRef(inode: Inode, pid: P.Pid, now: Time) returns (ok: bool)
      requires Valid() && table.Stores(inode)
      modifies `waits, table`files, table.repr`refs, table.repr`refCount, table.repr`ctime
      ensures Valid() && table.Stores(inode)
      ensures (View(), ok) == P.Dropped(old(View()), inode.name, pid, 1)
    {
      hide Valid, P.DropRefs, P.Signal;
      var signal;
      ok, signal := DropOne(inode, pid, now);
      if signal {
        Signal(inode.name);
      }
    }

    // ---------- descriptors ----------

    lemma DescriptorCount()
      requires Valid()
      ensures |View().fds| == descriptors.size <= P.MAX_OPEN_FILES && View().fds.Keys == descriptors.Contents().Keys
    {
      hide FileTable.Valid, FileTable.Matches;
      assert |View().fds.Keys| == |descriptors.Contents().Keys|;
    }

    /** Puts a copy of the inode into the descriptor table, unless the table is full. */
    method PutDescriptor(inode: Inode, pid: P.Pid, now: Time) returns (fd: Option<nat>)
      requires Valid() && table.Stores(inode)
      modifies descriptors, descriptors.table, descriptors.free`size, descriptors.free`list, descriptors.free.list
      ensures Valid() && table.Stores(inode)
      ensures |old(View()).fds| == P.MAX_OPEN_FILES ==> fd == None && View() == old(View())
      ensures |old(View()).fds| < P.MAX_OPEN_FILES ==>
        && fd == Some(FirstFree(old(View()).fds.Keys, 0)) && descriptors.CopyAt(fd.value, inode)
        && View() == old(View()).(fds := old(View()).fds[fd.value := P.Desc(pid, inode.name, inode.locked)])
      ensures descriptors.Reallocated()
      ensures SlotAdded(old(descriptors.Contents()), old(descriptors.copies),
                if fd.Some? then P.Opened(fd.value) else P.Failed(P.EMFILE))
      ensures fd.Some? ==> fd.value in FreshFds()
    {
      hide Valid, FirstFree, SlotAdded;
      SameSlots();
      DescriptorCount();
      if descriptors.size == P.MAX_OPEN_FILES {
        return None;
      }
      var i := PutWithRoom(inode, pid, now);
      return Some(i);
    }

    method PutWithRoom(inode: Inode, pid: P.Pid, now: Time) returns (fd: nat)
      requires Valid() && table.Stores(inode) && descriptors.size < P.MAX_OPEN_FILES
      modifies descriptors, descriptors.table, descriptors.free`size, descriptors.free.list
      ensures Valid() && table.Stores(inode)
      ensures fd == FirstFree(old(View()).fds.Keys, 0) && descriptors.CopyAt(fd, inode)
      ensures View() == old(View()).(fds := old(View()).fds[fd := P.Desc(pid, inode.name, inode.locked)])
      ensures descriptors.Reallocated()
      ensures SlotAdded(old(descriptors.Contents()), old(descriptors.copies), P.Opened(fd))
      ensures fd in FreshFds()
    {
      hide FileTable.Valid, FileTable.Matches, Descriptors.Valid, Descriptors.Matches, FirstFree;
      fd := descriptors.PutCopy(inode, pid, now);
      CopyIsFresh(fd, inode);
    }

    method RemoveDescriptor(fd: nat, pid: P.Pid)
      requires Valid() && P.Lookup(View(), fd, pid) == P.Done
      modifies descriptors, descriptors.table, descriptors.free`size, descriptors.free`list, descriptors.free.list
      ensures Valid() && View() == old(View()).(fds := old(View()).fds - {fd})
      ensures descriptors.Contents() == old(descriptors.Contents()) - {fd}
      ensures descriptors.copies == old(descriptors.copies)
      ensures descriptors.Reallocated()
    {
      hide FileTable.Valid, FileTable.Matches, Descriptors.Valid, Descriptors.Matches;
      descriptors.DropCopy(fd, pid);
    }

    // ---------- the calls ----------

    /** What `close` does. */
    method CloseFd(fd: nat, pid: P.Pid, now: Time) returns (r: P.Outcome)
      requires Valid()
      modifies `waits, table`files, table.repr`refs, table.repr`refCount, table.repr`ctime
      modifies descriptors, descriptors.table, descriptors.free`size, descriptors.free`list, descriptors.free.list
      ensures Valid() && (View(), r) == P.Close(old(View()), fd, pid)
      ensures descriptors.Contents() ==
        old(descriptors.Contents()) - if P.Lookup(old(View()), fd, pid) == P.Done then {fd} else {}
      ensures descriptors.copies == old(descriptors.copies)
      ensures descriptors.Reallocated()
    {
      hide Valid, P.Dropped;
      var copy;
      copy, r := GetInodeByFd(fd, pid);
      if r != P.Done {
        return;
      }
      var name := copy.name;
      RemoveDescriptor(fd, pid);
      var inode := GetInode(name);
      if inode == null {
        return P.Done;
      }
      var ok := DropRef(inode, pid, now);
      return if ok then P.Done else P.Failed(P.EPERM);
    }

    /** Closes a descriptor; a lock is kept. */
    method Close(fd: nat, pid: P.Pid, now: Time) returns (r: P.Outcome)
      requires Valid()
      modifies `waits, table`files, table.repr`refs, table.repr`refCount, table.repr`ctime
      modifies descriptors, descriptors.table, descriptors.free`size, descriptors.free`list, descriptors.free.list
      ensures Valid() && (View(), r) == P.Close(old(View()), fd, pid)
      ensures Keeps(old(FlushedFds()), old(FreshFds()))
      ensures descriptors.Reallocated()
    {
      hide Valid, Keeps, FreshFds, FlushedFds, Files, Descriptors.Contents;
      r := CloseFd(fd, pid, now);
      FewerSlots();
    }

    /** Takes the lock of the file of a descriptor away from its owner. */
    method Unlock(fd: nat, pid: P.Pid, now: Time) returns (r: P.Outcome)
      requires Valid()
      modifies table`files, table.repr`locked, table.repr`ctime
      ensures Valid() && (View(), r) == P.Unlock(old(View()), fd, pid)
      ensures r == P.Done <==> HoldsLock(old(View()), fd, pid)
      ensures r == P.Done ==> LockSet(old(View()), View(), old(View()).fds[fd].name, 0)
      ensures r != P.Done ==> View() == old(View())
      ensures Keeps(old(FlushedFds()), old(FreshFds()))
    {
      hide Valid, Keeps, FreshFds, FlushedFds, HoldsLock, LockSet;
      KeepsNow();
      UnlockIff(View(), fd, pid);
      var copy;
      copy, r := GetInodeByFd(fd, pid);
      if r != P.Done {
        return;
      }
      var inode := GetInode(copy.name);
      if inode == null {
        return P.Failed(P.ENOENT);
      }
      if inode.locked == 0 {
        return P.Failed(P.EPERM);
      }
      if inode.locked != pid {
        return P.Failed(P.EBUSY);
      }
      var ok := ReleaseLock(inode, pid, now);
      return P.Done;
    }

    /** Neither the number of files nor the memory is used up. */
    ghost predicate Room()
      reads table
    {
      |table.files| < filesLimit && table.size != memoryLimit
    }

    /** The limit of files is kept; every call keeps `Valid()`, from the constructor on. */
    lemma WithinFilesLimit()
      requires Valid()
      ensures |View().files| == table.count <= filesLimit
    {
      hide Descriptors.Valid, Descriptors.Matches, SumSizes;
      NamesAre(table.presence, table.sizes.Keys);
      assert |View().files| == |View().files.Keys|;
    }

    /** Creates a file, unless the number of files or the memory is used up. */
    method CreateInode(name: P.Name, now: Time) returns (inode: Inode?)
      requires Valid() && name !in View().files
      modifies table, monitor`fileCounter, monitor`filePeak
      ensures Valid() && (inode != null <==> old(Room())) && table.size == old(table.size)
      ensures old(Room()) <==> |old(View()).files| < filesLimit && old(table.size) != memoryLimit
      ensures inode == null ==> View() == old(View()) && table.repr == old(table.repr)
      ensures inode != null ==>
        && fresh(inode) && table.repr == old(table.repr) + {inode} && inode.name == name && table.Stores(inode)
        && inode.direct == null && inode.btime == now
        && View() == P.Created(old(View()), name)
      ensures table.inodes - {name} == old(table.inodes) - {name}
    {
      WithinFilesLimit();
      if table.count == filesLimit {
        return null;
      }
      if table.size == memoryLimit {
        return null;
      }
      inode := CreateWithRoom(name, now);
    }

    method CreateWithRoom(name: P.Name, now: Time) returns (inode: Inode)
      requires Valid() && name !in View().files && table.count < filesLimit
      modifies table, monitor`fileCounter, monitor`filePeak
      ensures Valid() && table.size == old(table.size)
      ensures fresh(inode) && table.repr == old(table.repr) + {inode} && inode.name == name && table.Stores(inode)
      ensures inode.direct == null && inode.btime == now
      ensures View() == P.Created(old(View()), name)
      ensures table.inodes - {name} == old(table.inodes) - {name}
    {
      hide FileTable.Valid, FileTable.Matches, Descriptors.Valid, Descriptors.Matches;
      inode := table.CreateNew(name, now);
      monitor.FileAdded();
    }

    /** The copy of a descriptor still shares the file of a stored inode: nothing was flushed or read in between. */
    ghost predicate Fresh(files: map<P.Name, StoredFile>, copy: Inode, buf: seq<Byte>)
      reads copy
    {
      copy.name in files ==>
        && copy.buffer == [] && copy.direct == files[copy.name].direct && copy.size == files[copy.name].size
        && |copy.Contents()| + |buf| <= MAX_BYTES
    }

    /** The file of an inode, as the eviction sees it. */
    lemma FileIs(inode: Inode)
      requires table.Stores(inode)
      ensures inode.name in Files(table, policy)
      ensures Files(table, policy)[inode.name] == StoredFile(inode, inode.size, inode.direct, Key(policy, inode))
    {
    }

    /** The copy of a descriptor is fresh, if the process may use it. */
    ghost predicate FreshDescriptor(fd: nat, pid: P.Pid, buf: seq<Byte>)
      reads this, table, table.repr`size, table.repr`direct, table.repr`ctime, table.repr`refCount
      reads descriptors, descriptors.table, descriptors.copies
    {
      fd in descriptors.Contents() && P.Lookup(View(), fd, pid) == P.Done ==>
        && descriptors.Contents()[fd].inode in descriptors.copies
        && Fresh(Files(table, policy), descriptors.Contents()[fd].inode, buf)
    }

    /** A fresh descriptor can take any buffer that fits. */
    lemma TakesBuffer(fd: nat, pid: P.Pid, buf: seq<Byte>)
      requires Valid() && FreshDescriptor(fd, pid, [])
      requires fd in View().fds && View().fds[fd].name in Stored().files ==>
        |Stored().files[View().fds[fd].name].Contents()| + |buf| <= MAX_BYTES
      ensures FreshDescriptor(fd, pid, buf)
    {
      hide FileTable.Valid, FileTable.Matches, Descriptors.Valid, Descriptors.Matches, HuffmanCodec.Recovered, Files;
      FoundCopy(fd);
    }

    /** A flushed descriptor can be read, and a fresh one is flushed. */
    lemma FlushedIs(fd: nat)
      requires Valid() && (fd in descriptors.Contents() ==> fd in FlushedFds() || fd in FreshFds())
      ensures fd in descriptors.Contents() && descriptors.Contents()[fd].inode.name in View().files ==>
        descriptors.Contents()[fd].inode.buffer == []
      ensures fd in FreshFds() ==> fd in FlushedFds()
    {
      hide FileTable.Valid, Descriptors.Valid, Descriptors.Matches;
    }

    /** An `open` of a stored file leaves all contents. */
    twostate lemma StoredSame()
      requires old(table.Matches()) && table.Matches() && table.inodes == old(table.inodes) && old(table.repr) <= table.repr
      requires forall i :: i in old(table.repr) ==> i.size == old(i.size) && i.direct == old(i.direct)
      ensures SameContents(old(Stored()).files, Stored().files)
    {
    }

    lemma UnwrittenIsEmpty(name: P.Name)
      requires Valid() && Unwritten(name)
      ensures name in Stored().files && Stored().files[name].direct == null && Stored().files[name].size == 0
    {
      hide Descriptors.Valid, Descriptors.Matches, FileTable.Matches;
      assert table.Holds(name);
    }

    lemma CopyIsFresh(fd: nat, inode: Inode)
      requires table.Stores(inode) && descriptors.CopyAt(fd, inode)
      ensures fd in FreshFds()
    {
    }

    /** A fresh descriptor can be written to, as far as the length of the file allows. */
    lemma FreshIs(fd: nat, pid: P.Pid)
      requires fd in FreshFds()
      ensures FreshDescriptor(fd, pid, [])
    {
      var copy := descriptors.Contents()[fd].inode;
      copy.ContentsFit();
    }

    /** A descriptor that a write left fresh. */
    lemma IsFresh(fd: nat, pid: P.Pid)
      requires Valid() && FreshDescriptor(fd, pid, []) && P.Lookup(View(), fd, pid) == P.Done
      ensures fd in FreshFds()
    {
      hide FileTable.Valid, Descriptors.Valid;
      FoundCopy(fd);
      StoredIs();
    }

    /** The end of `open`. */
    method FinishOpen(inode: Inode, pid: P.Pid, now: Time) returns (r: P.Outcome)
      requires Valid() && table.Stores(inode)
      modifies table`files, table.repr`refs, table.repr`refCount, table.repr`ctime
      modifies descriptors, descriptors.table, descriptors.free`size, descriptors.free`list, descriptors.free.list
      ensures Valid() && (View(), r) == P.FinishOpen(old(View()), inode.name, pid)
      ensures r.Opened? ==> r.fd in FreshFds()
      ensures descriptors.Reallocated()
      ensures SlotAdded(old(descriptors.Contents()), old(descriptors.copies), r)
    {
      hide Valid, FirstFree, SlotAdded, FreshFds, P.IncreaseRefs;
      SameSlots();
      DescriptorCount();
      var fd := PutDescriptor(inode, pid, now);
      if fd == None {
        return P.Failed(P.EMFILE);
      }
      AddRef(inode, pid, now);
      return P.Opened(fd.value);
    }

    method Completed(inode: Inode, pid: P.Pid, opening: bool, now: Time) returns (r: P.Outcome)
      requires Valid() && table.Stores(inode)
      modifies table`files, table.repr`refs, table.repr`refCount, table.repr`ctime
      modifies descriptors, descriptors.table, descriptors.free`size, descriptors.free`list, descriptors.free.list
      ensures Valid() && (View(), r) == P.Completed(old(View()), inode.name, pid, opening)
      ensures r.Opened? ==> r.fd in FreshFds()
      ensures descriptors.Reallocated()
      ensures SlotAdded(old(descriptors.Contents()), old(descriptors.copies), r)
    {
      hide Valid, P.FinishOpen, FreshFds, SlotAdded;
      SameSlots();
      if opening {
        r := FinishOpen(inode, pid, now);
      } else {
        r := P.Done;
      }
    }

    /** The process starts to wait on the condition variable of a file, or goes on waiting. */
    method Sleep(name: P.Name, pid: P.Pid, opening: bool)
      requires Valid()
      modifies `waits
      ensures Valid() && View() == old(View()).(waits := old(View()).waits[pid := P.Wait(name, opening, false, false)])
    {
      hide FileTable.Valid, FileTable.Matches, Descriptors.Valid, Descriptors.Matches;
      waits := waits[pid := P.Wait(name, opening, false, false)];
    }

    /** Locks an unlocked file, on which a lock is pending. */
    method LockPending(inode: Inode, pid: P.Pid, now: Time)
      requires Valid() && table.Stores(inode) && inode.locked == 0 && inode.pending > 0
      modifies table`files, table.repr`locked, table.repr`pending, table.repr`ctime
      ensures Valid() && table.Stores(inode)
      ensures View() ==
        P.WithFile(old(View()), inode.name, old(inode.File()).(locked := pid, pending := old(inode.pending) - 1))
    {
      hide Valid;
      var ok := TakeLock(inode, pid, now);
      ok := Unpend(inode, now);
    }

    /** Locks an unlocked file, or waits until the process is the only one that has it open. */
    method LockInode(inode: Inode, pid: P.Pid, opening: bool, now: Time) returns (r: P.Outcome)
      requires Valid() && table.Stores(inode) && inode.locked == 0
      modifies `waits, table`files, table.repr`locked, table.repr`pending
      modifies table`files, table.repr`refs, table.repr`refCount, table.repr`ctime
      modifies descriptors, descriptors.table, descriptors.free`size, descriptors.free`list, descriptors.free.list
      ensures Valid() && (View(), r) == P.LockInode(old(View()), inode.name, pid, opening)
      ensures r.Opened? ==> r.fd in FreshFds()
      ensures descriptors.Reallocated()
      ensures SlotAdded(old(descriptors.Contents()), old(descriptors.copies), r)
    {
      hide Valid, P.Completed, P.HasOthers, FreshFds, SlotAdded;
      SameSlots();
      if inode.pending > 0 {
        return P.Failed(P.EDEADLK);
      }
      Pend(inode, now);
      if inode.refCount > 0 && pid in inode.refs && P.HasOthers(inode.refs, pid) {
        Sleep(inode.name, pid, opening);
        return P.Blocked;
      }
      LockPending(inode, pid, now);
      assert View() == P.WithFile(old(View()), inode.name, old(inode.File()).(locked := pid));
      r := Completed(inode, pid, opening, now);
    }

    /** What `lock` does. */
    method LockFd(fd: nat, pid: P.Pid, now: Time) returns (r: P.Outcome)
      requires Valid()
      modifies `waits, table`files, table.repr`locked, table.repr`pending
      modifies table.repr`refs, table.repr`refCount, table.repr`ctime
      modifies descriptors, descriptors.table, descriptors.free`size, descriptors.free`list, descriptors.free.list
      ensures Valid() && (View(), r) == P.Lock(old(View()), fd, pid)
      ensures SlotAdded(old(descriptors.Contents()), old(descriptors.copies), r)
      ensures r.Opened? ==> r.fd in FreshFds()
      ensures descriptors.Reallocated()
    {
      hide Valid, P.LockInode;
      var copy;
      copy, r := GetInodeByFd(fd, pid);
      if r != P.Done {
        return;
      }
      var inode := GetInode(copy.name);
      if inode == null {
        return P.Failed(P.ENOENT);
      }
      if inode.locked > 0 {
        return if inode.locked == pid then P.Done else P.Failed(P.EBUSY);
      }
      r := LockInode(inode, pid, false, now);
    }

    /** Locks the file of a descriptor, or blocks. */
    method Lock(fd: nat, pid: P.Pid, now: Time) returns (r: P.Outcome)
      requires Valid()
      modifies `waits, table`files, table.repr`locked, table.repr`pending
      modifies table.repr`refs, table.repr`refCount, table.repr`ctime
      modifies descriptors, descriptors.table, descriptors.free`size, descriptors.free`list, descriptors.free.list
      ensures Valid() && (View(), r) == P.Lock(old(View()), fd, pid)
      ensures r == P.Done ==> TakesLock(old(View()), View(), fd, pid)
      ensures r == P.Blocked ==> AwaitsLock(old(View()), View(), fd, pid)
      ensures r != P.Done && r != P.Blocked ==> View() == old(View())
      ensures Keeps(old(FlushedFds()), old(FreshFds()))
      ensures descriptors.Reallocated()
    {
      hide Valid, Keeps, FreshFds, FlushedFds, Files, Descriptors.Contents, P.Lock, TakesLock, AwaitsLock;
      LockTakes(View(), fd, pid);
      r := LockFd(fd, pid, now);
      SlotFilled(r);
    }

    /** Opens an existing file. */
    method OpenFile(inode: Inode, lock: bool, pid: P.Pid, now: Time) returns (r: P.Outcome)
      requires Valid() && table.Stores(inode)
      modifies `waits, table`files, table.repr`locked, table.repr`pending
      modifies table.repr`refs, table.repr`refCount, table.repr`ctime
      modifies descriptors, descriptors.table, descriptors.free`size, descriptors.free`list, descriptors.free.list
      ensures Valid() && (View(), r) == P.OpenFile(old(View()), inode.name, lock, pid)
      ensures r.Opened? ==> r.fd in FreshFds()
      ensures descriptors.Reallocated()
      ensures SlotAdded(old(descriptors.Contents()), old(descriptors.copies), r)
    {
      hide Valid, P.LockInode, P.FinishOpen, FreshFds, SlotAdded;
      SameSlots();
      if inode.locked > 0 && inode.locked != pid {
        return P.Failed(P.EBUSY);
      }
      if lock {
        if inode.locked != pid {
          r := LockInode(inode, pid, true, now);
          return;
        }
      } else if inode.pending > 0 {
        return P.Failed(P.EBUSY);
      }
      r := FinishOpen(inode, pid, now);
    }

    /** Nothing was written to the file yet. */
    ghost predicate Unwritten(name: P.Name)
      reads table, table.repr`direct
    {
      name in table.inodes && table.inodes[name] in table.repr && table.inodes[name].direct == null
    }

    /** Creates and opens a file. */
    method OpenNew(name: P.Name, lock: bool, pid: P.Pid, now: Time) returns (r: P.Outcome)
      requires Valid() && name != "" && |View().fds| < P.MAX_OPEN_FILES && name !in View().files
      modifies `waits, table, table.repr`locked, table.repr`pending
      modifies table.repr`refs, table.repr`refCount, table.repr`ctime, monitor`fileCounter, monitor`filePeak
      modifies descriptors, descriptors.table, descriptors.free`size, descriptors.free`list, descriptors.free.list
      ensures Valid() && (View(), r) == P.Open(old(View()), name, true, lock, pid, old(Room()))
      ensures r.Opened? ==> r.fd in FreshFds() && Unwritten(name)
      ensures table.size == old(table.size)
      ensures fresh(table.repr - old(table.repr)) && old(table.repr) <= table.repr
      ensures descriptors.Reallocated()
      ensures table.inodes - {name} == old(table.inodes) - {name}
      ensures SlotAdded(old(descriptors.Contents()), old(descriptors.copies), r)
    {
      hide Valid, P.Open, P.OpenFile, P.Created, FreshFds, Room, SlotAdded, FileTable.Stores, Descriptors.Contents, Inode.Valid;
      SameSlots();
      OpensNew(View(), name, lock, pid, Room());
      var inode := CreateInode(name, now);
      if inode == null {
        return P.Failed(P.EDQUOT);
      }
      r := OpenFile(inode, lock, pid, now);
    }

    /** What `open` does. */
    method OpenByName(name: P.Name, create: bool, lock: bool, pid: P.Pid, now: Time) returns (r: P.Outcome)
      requires Valid()
      modifies `waits, table, table.repr`locked, table.repr`pending
      modifies table.repr`refs, table.repr`refCount, table.repr`ctime, monitor`fileCounter, monitor`filePeak
      modifies descriptors, descriptors.table, descriptors.free`size, descriptors.free`list, descriptors.free.list
      ensures Valid() && (View(), r) == P.Open(old(View()), name, create, lock, pid, old(Room()))
      ensures r.Opened? ==> r.fd in FreshFds() && (create ==> Unwritten(name))
      ensures table.size == old(table.size)
      ensures fresh(table.repr - old(table.repr)) && old(table.repr) <= table.repr
      ensures descriptors.Reallocated()
      ensures table.inodes - {name} == old(table.inodes) - {name}
      ensures name in old(View()).files ==> table.inodes == old(table.inodes)
      ensures SlotAdded(old(descriptors.Contents()), old(descriptors.copies), r)
    {
      hide Valid, P.OpenFile, FreshFds, SlotAdded, FileTable.Stores, Descriptors.Contents;
      SameSlots();
      DescriptorCount();
      if name == "" {
        return P.Failed(P.EINVAL);
      }
      if descriptors.size == P.MAX_OPEN_FILES {
        return P.Failed(P.ENFILE);
      }
      var inode := GetInode(name);
      if create {
        if inode != null {
          return P.Failed(P.EEXIST);
        }
        r := OpenNew(name, lock, pid, now);
      } else {
        if inode == null {
          return P.Failed(P.ENOENT);
        }
        r := OpenFile(inode, lock, pid, now);
      }
    }

    /** Opens a file; other descriptors are left alone, unless the call creates a file under their name again. */
    method Open(name: P.Name, create: bool, lock: bool, pid: P.Pid, now: Time) returns (r: P.Outcome)
      requires Valid()
      modifies `waits, table, table.repr`locked, table.repr`pending
      modifies table.repr`refs, table.repr`refCount, table.repr`ctime, monitor`fileCounter, monitor`filePeak
      modifies descriptors, descriptors.table, descriptors.free`size, descriptors.free`list, descriptors.free.list
      ensures Valid() && (View(), r) == P.Open(old(View()), name, create, lock, pid, old(Room()))
      ensures create ==>
        (r.Opened? <==>
          && name != "" && |old(View()).fds| < P.MAX_OPEN_FILES && name !in old(View()).files
          && |old(View()).files| < filesLimit && old(table.size) != memoryLimit)
      ensures create && !r.Opened? ==> View() == old(View())
      ensures r.Opened? ==> r.fd in FreshFds() && (create ==> Unwritten(name))
      ensures table.size == old(table.size)
      ensures fresh(table.repr - old(table.repr)) && old(table.repr) <= table.repr
      ensures descriptors.Reallocated()
      ensures old(NoDescriptor(name)) || name in old(View()).files ==> Keeps(old(FlushedFds()), old(FreshFds()))
      ensures name in old(View()).files ==> table.inodes == old(table.inodes)
    {
      hide Valid, Keeps, FreshFds, FlushedFds, P.Open, Descriptors.Contents, Given;
      DescriptorCount();
      OpenCreatesIff(View(), name, lock, pid, Room());
      r := OpenByName(name, create, lock, pid, now);
      if old(NoDescriptor(name)) || name in old(View()).files {
        assert forall n :: n in table.inodes && n != name ==> n in table.inodes - {name};
        SlotFilled(r);
      }
    }

    /** The process no longer waits. */
    method StopWaiting(pid: P.Pid)
      requires Valid()
      modifies `waits
      ensures Valid() && View() == old(View()).(waits := old(View()).waits - {pid})
    {
      hide FileTable.Valid, FileTable.Matches, Descriptors.Valid, Descriptors.Matches;
      waits := waits - {pid};
    }

    /** Locks a file that was waited for. */
    method TakeWaited(inode: Inode, pid: P.Pid, now: Time) returns (r: P.Outcome)
      requires Valid() && table.Stores(inode)
      modifies table`files, table.repr`locked, table.repr`pending, table.repr`ctime
      ensures Valid() && table.Stores(inode)
      ensures var s, f := old(View()), old(inode.File());
              if f.locked != 0 && f.locked != pid then r == P.Failed(P.EACCES) && View() == s
              else if f.pending == 0 then
                r == P.Failed(P.EPERM) && View() == P.WithFile(s, inode.name, f.(locked := pid))
              else r == P.Done && View() == P.WithFile(s, inode.name, f.(locked := pid, pending := f.pending - 1))
    {
      hide Valid;
      var ok := TakeLock(inode, pid, now);
      if !ok {
        return P.Failed(P.EACCES);
      }
      ok := Unpend(inode, now);
      return if ok then P.Done else P.Failed(P.EPERM);
    }

    /** The rest of a lock call, after the wait. */
    method GrantLock(inode: Inode, pid: P.Pid, opening: bool, now: Time) returns (r: P.Outcome)
      requires Valid() && table.Stores(inode)
      modifies table`files, table.repr`locked, table.repr`pending
      modifies table.repr`refs, table.repr`refCount, table.repr`ctime
      modifies descriptors, descriptors.table, descriptors.free`size, descriptors.free`list, descriptors.free.list
      ensures Valid() && (View(), r) == P.GrantLock(old(View()), inode.name, pid, opening)
      ensures r.Opened? ==> r.fd in FreshFds()
      ensures SlotAdded(old(descriptors.Contents()), old(descriptors.copies), r)
      ensures descriptors.Reallocated()
    {
      hide Valid, P.Completed, P.GrantLock, FreshFds, SlotAdded;
      SameSlots();
      GrantIs(View(), inode.name, pid, opening);
      r := TakeWaited(inode, pid, now);
      if r == P.Done {
        r := Completed(inode, pid, opening, now);
      }
    }

    /** The rest of a call that had to wait. */
    method ResumeCall(pid: P.Pid, now: Time) returns (r: P.Outcome)
      requires Valid() && pid in waits && waits[pid].awake
      modifies `waits, table`files, table.repr`locked, table.repr`pending
      modifies table.repr`refs, table.repr`refCount, table.repr`ctime
      modifies descriptors, descriptors.table, descriptors.free`size, descriptors.free`list, descriptors.free.list
      ensures Valid() && (View(), r) == P.Resume(old(View()), pid)
      ensures r.Opened? ==> r.fd in FreshFds()
      ensures SlotAdded(old(descriptors.Contents()), old(descriptors.copies), r)
      ensures descriptors.Reallocated()
    {
      hide Valid, P.GrantLock, P.HasOthers, FreshFds;
      var w := waits[pid];
      var inode := GetInode(w.name);
      if w.orphan || inode == null {
        return P.Undefined;
      }
      if inode.refCount > 0 && pid in inode.refs && P.HasOthers(inode.refs, pid) {
        Sleep(w.name, pid, w.opening);
        return P.Blocked;
      }
      StopWaiting(pid);
      r := GrantLock(inode, pid, w.opening, now);
    }

    /** A woken process goes on with its lock call. */
    method Resume(pid: P.Pid, now: Time) returns (r: P.Outcome)
      requires Valid() && pid in waits && waits[pid].awake
      modifies `waits, table`files, table.repr`locked, table.repr`pending
      modifies table.repr`refs, table.repr`refCount, table.repr`ctime
      modifies descriptors, descriptors.table, descriptors.free`size, descriptors.free`list, descriptors.free.list
      ensures Valid() && (View(), r) == P.Resume(old(View()), pid)
      ensures r.Opened? ==> r.fd in FreshFds()
      ensures Keeps(old(FlushedFds()), old(FreshFds()))
      ensures descriptors.Reallocated()
    {
      hide Valid, Keeps, FreshFds, FlushedFds, Files, Descriptors.Contents;
      r := ResumeCall(pid, now);
      SlotFilled(r);
    }

    /** Files that were not touched, without those that are gone. */
    twostate lemma FilesLost(gone: set<P.Name>)
      requires old(table.Matches()) && table.repr == old(table.repr) && table.inodes == old(table.inodes) - gone
      requires forall i :: i in table.repr && i.name !in gone ==>
        i.size == old(i.size) && i.direct == old(i.direct) && i.ctime == old(i.ctime) && i.refCount == old(i.refCount)
      ensures Files(table, policy) == old(Files(table, policy)) - gone
    {
    }

    /** Takes a file out of the table; the monitor still counts it. */
    method Unlink(name: P.Name)
      requires Valid() && name in View().files
      modifies `waits, table
      ensures table.Valid() && table.Matches() && descriptors.Valid() && descriptors.Matches()
      ensures table.repr == old(table.repr) && View() == P.Without(old(View()), name)
      ensures table.inodes == old(table.inodes) - {name}
      ensures table.size == old(table.size) - old(table.inodes[name].size) && table.count == old(table.count) - 1
    {
      hide FileTable.Valid, FileTable.Matches, Descriptors.Valid, Descriptors.Matches, DeleteFirst, P.Orphaned;
      CountsFile(name);
      table.RemoveOld(name);
      Orphan(name);
    }

    /** Takes a file out of the table, and then counts it as removed. */
    method RemoveCounted(name: P.Name) returns (ok: bool)
      requires Valid() && name in View().files
      modifies `waits, table, monitor`bytesCounter, monitor`fileCounter
      ensures Valid() && table.repr == old(table.repr) && View() == P.Without(old(View()), name)
      ensures table.inodes == old(table.inodes) - {name} && table.size == old(table.size) - old(table.inodes[name].size)
      ensures ok <==> old(table.size) > 0
      ensures monitor.fileCounter - table.count == old(monitor.fileCounter - table.count) + if ok then 0 else 1
    {
      hide FileTable.Valid, FileTable.Matches, Descriptors.Valid, Descriptors.Matches, P.Without;
      CountsFile(name);
      var bytes := table.inodes[name].size;
      Unlink(name);
      ok := monitor.Removed(bytes);
    }

    /** Removes a file and counts its bytes; the count fails when the table holds no bytes. */
    method RemoveInode(name: P.Name) returns (ok: bool)
      requires Valid() && name in View().files
      modifies `waits, table, monitor`bytesCounter, monitor`fileCounter
      ensures Valid() && table.repr == old(table.repr) && View() == P.Without(old(View()), name)
      ensures Files(table, policy) == old(Files(table, policy)) - {name}
      ensures table.inodes == old(table.inodes) - {name} && table.size == old(table.size) - old(table.inodes[name].size)
      ensures ok <==> old(table.size) > 0
      ensures monitor.fileCounter - table.count == old(monitor.fileCounter - table.count) + if ok then 0 else 1
      ensures Keeps(old(FlushedFds()), old(FreshFds()))
    {
      hide Valid, Keeps, FreshFds, FlushedFds, Files, Descriptors.Contents;
      TablesMatch();
      ok := RemoveCounted(name);
      FilesLost({name});
      FewerSlots();
    }

    lemma CountsFile(name: P.Name)
      requires table.Valid() && table.Matches() && name in table.files
      ensures name in table.inodes && table.count > 0 && table.inodes[name].size <= table.size
    {
      assert table.Holds(name);
      RemoveConsistent(table.presence, table.sizes, table.count, table.size, name);
    }

    /** Removes a locked file. It is gone even if the call fails because no bytes were stored. */
    method Remove(name: P.Name, pid: P.Pid) returns (r: P.Outcome)
      requires Valid()
      modifies `waits, table, monitor`bytesCounter, monitor`fileCounter
      ensures Valid() && View() == P.Remove(old(View()), name, pid).0
      ensures r == if P.Remove(old(View()), name, pid).1 == P.Done && old(table.size) == 0 then P.Failed(P.EPERM)
                   else P.Remove(old(View()), name, pid).1
      ensures Keeps(old(FlushedFds()), old(FreshFds()))
    {
      hide Valid, P.Without, Keeps, FreshFds, FlushedFds;
      KeepsNow();
      if name == "" {
        return P.Failed(P.EINVAL);
      }
      var inode := GetInode(name);
      if inode == null {
        return P.Failed(P.ENOENT);
      }
      if inode.locked == 0 || inode.locked != pid {
        return P.Failed(P.EPERM);
      }
      var ok := RemoveInode(name);
      return if ok then P.Done else P.Failed(P.EPERM);
    }

    /** Drops `n` references one by one. */
    method DropRefs(inode: Inode, pid: P.Pid, n: nat, now: Time) returns (ok: bool)
      requires Valid() && table.Stores(inode)
      modifies `waits, table`files, table.repr`refs, table.repr`refCount, table.repr`ctime
      ensures Valid() && table.Stores(inode)
      ensures (View(), ok) == P.Dropped(old(View()), inode.name, pid, n)
    {
      hide Valid, P.Dropped;
      var left := n;
      while left > 0
        invariant Valid() && table.Stores(inode) && inode.name in View().files
        invariant P.Dropped(old(View()), inode.name, pid, n) == P.Dropped(View(), inode.name, pid, left)
      {
        DropOneMore(View(), inode.name, pid, left);
        ok := DropRef(inode, pid, now);
        if !ok {
          return;
        }
        left := left - 1;
      }
      NothingDropped(View(), inode.name, pid);
      ok := true;
    }

    /** One round of the loop of `remove_session`: drops the references of the process, and its lock. */
    method LeaveFile(name: P.Name, pid: P.Pid, now: Time) returns (ok: bool)
      requires Valid() && name in View().files
      modifies `waits, table`files, table.repr`refs, table.repr`refCount, table.repr`locked, table.repr`ctime
      ensures Valid()
      ensures var d := P.Dropped(old(View()), name, pid, |P.FdsOf(old(View()), name, pid)|);
              ok == d.1 && View() == if d.1 then P.ReleaseLock(d.0, name, pid) else d.0
    {
      hide Valid, P.Dropped, P.FdsOf;
      var inode := GetInode(name);
      var openFiles := CountFds(inode, pid);
      DroppedFile(View(), name, pid, openFiles);
      ok := DropRefs(inode, pid, openFiles, now);
      if ok && inode.locked == pid {
        var unlocked := ReleaseLock(inode, pid, now);
      }
    }

    /** How many descriptors a process has on a file. */
    method CountFds(inode: Inode, pid: P.Pid) returns (n: nat)
      requires Valid()
      ensures n == |P.FdsOf(View(), inode.name, pid)|
    {
      hide FileTable.Valid, FileTable.Matches, Descriptors.Valid, Descriptors.Matches;
      n := descriptors.PidInodeSize(inode, pid);
      descriptors.OwnedAre(inode.name, pid);
      assert FdsOn(descriptors.Contents(), inode.name, pid) == P.FdsOf(View(), inode.name, pid);
    }

    method CloseAll(pid: P.Pid)
      requires Valid()
      modifies descriptors, descriptors.table, descriptors.free`size, descriptors.free`list, descriptors.free.list
      ensures Valid() && View() == P.CloseAll(old(View()), pid)
      ensures descriptors.Contents() == WithoutPid(old(descriptors.Contents()), pid)
      ensures descriptors.copies == old(descriptors.copies)
      ensures descriptors.Reallocated()
    {
      hide FileTable.Valid, FileTable.Matches, Descriptors.Valid, Descriptors.Matches;
      descriptors.DropPid(pid);
    }

    /** The loop of `remove_session` over the files. */
    method LeaveFiles(names: seq<P.Name>, pid: P.Pid, now: Time) returns (ok: bool)
      requires Valid() && forall n :: n in names ==> n in View().files
      modifies `waits, table`files, table.repr`refs, table.repr`refCount, table.repr`locked, table.repr`ctime
      ensures Valid() && (View(), ok) == P.SessionFiles(old(View()), names, pid)
    {
      hide Valid, P.Dropped;
      var i := 0;
      while i < |names|
        invariant i <= |names| && Valid() && forall n :: n in names ==> n in View().files
        invariant P.SessionFiles(old(View()), names, pid) == P.SessionFiles(View(), names[i..], pid)
      {
        assert names[i..][0] == names[i] && names[i..][1..] == names[i + 1..];
        DroppedFile(View(), names[i], pid, |P.FdsOf(View(), names[i], pid)|);
        ok := LeaveFile(names[i], pid, now);
        if !ok {
          return;
        }
        i := i + 1;
      }
      ok := true;
    }

    /** What `remove_session` does. */
    method EndSession(pid: P.Pid, now: Time) returns (r: P.Outcome)
      requires Valid()
      modifies `waits, table`files, table.repr`refs, table.repr`refCount, table.repr`locked, table.repr`ctime
      modifies descriptors, descriptors.table, descriptors.free`size, descriptors.free`list, descriptors.free.list
      ensures Valid() && (View(), r) == P.RemoveSession(old(View()), pid)
      ensures forall d :: d in descriptors.Contents() ==>
        d in old(descriptors.Contents()) && descriptors.Contents()[d] == old(descriptors.Contents()[d])
      ensures descriptors.copies == old(descriptors.copies)
      ensures descriptors.Reallocated()
    {
      hide Valid, P.SessionFiles, P.CloseAll;
      var names := table.presence;
      if names == [] {
        return P.Failed(P.EUNSET);
      }
      NamesStored();
      var ok := LeaveFiles(names, pid, now);
      if !ok {
        return P.Failed(P.EPERM);
      }
      CloseAll(pid);
      return P.Done;
    }

    /** Ends the session of a process; it fails when no file is stored, or a descriptor is not counted. */
    method RemoveSession(pid: P.Pid, now: Time) returns (r: P.Outcome)
      requires Valid()
      modifies `waits, table`files, table.repr`refs, table.repr`refCount, table.repr`locked, table.repr`ctime
      modifies descriptors, descriptors.table, descriptors.free`size, descriptors.free`list, descriptors.free.list
      ensures Valid() && (View(), r) == P.RemoveSession(old(View()), pid)
      ensures Keeps(old(FlushedFds()), old(FreshFds()))
      ensures descriptors.Reallocated()
    {
      hide Valid, Keeps, FreshFds, FlushedFds, Files, Descriptors.Contents;
      r := EndSession(pid, now);
      FewerSlots();
    }

    lemma NamesStored()
      requires Valid()
      ensures forall n :: n in table.presence ==> n in View().files
    {
    }

    // ---------- eviction ----------

    /** A readable file takes up space. */
    lemma ReadableHasSize(inode: Inode)
      requires Valid() && table.Stores(inode)
      ensures inode.Readable() ==> table.size > 0
    {
      if !inode.Readable() {
        return;
      }
      HuffmanCodec.NotLost(inode.direct.file.artifact, inode.direct.file.bytes);
      assert table.Holds(inode.name);
      RemoveConsistent(table.presence, table.sizes, table.count, table.size, inode.name);
    }

    twostate lemma FileRead(inode: Inode)
      requires old(table.Matches()) && table.repr == old(table.repr) && table.inodes == old(table.inodes)
      requires forall i :: i in table.repr && i != inode ==>
        i.size == old(i.size) && i.direct == old(i.direct) && i.ctime == old(i.ctime) && i.refCount == old(i.refCount)
      ensures Files(table, policy) - {inode.name} == old(Files(table, policy)) - {inode.name}
    {
    }

    method ReadTable(inode: Inode, now: Time) returns (bytes: Option<seq<Byte>>)
      requires Valid() && table.Stores(inode)
      modifies inode`size, inode`direct, inode`ctime
      ensures Valid() && table.Stores(inode)
      ensures bytes.Some? <==> old(inode.Readable())
      ensures inode.size == old(inode.size) && inode.Contents() == old(inode.Contents())
      ensures bytes.Some? ==> bytes.value == inode.Contents()
      ensures old(inode.direct) == null ==> inode.direct == null
    {
      hide FileTable.Valid, FileTable.Matches, Descriptors.Valid, Descriptors.Matches;
      hide HuffmanCodec.Recovered, HuffmanCodec.TwoDistinct;
      bytes := table.Read(inode, now);
    }

    /** Reads a file; nothing but its block and its time changes. */
    method ReadInode(inode: Inode, now: Time) returns (bytes: Option<seq<Byte>>)
      requires Valid() && table.Stores(inode)
      modifies inode`size, inode`direct, inode`ctime
      ensures Valid() && table.Stores(inode)
      ensures bytes.Some? <==> old(inode.Readable())
      ensures inode.size == old(inode.size) && inode.Contents() == old(inode.Contents())
      ensures bytes.Some? ==> bytes.value == inode.Contents() && table.size > 0
      ensures Files(table, policy) - {inode.name} == old(Files(table, policy)) - {inode.name}
      ensures old(inode.direct) == null ==> inode.direct == null
    {
      hide Valid, FileTable.Stores, Files, HuffmanCodec.Recovered, HuffmanCodec.TwoDistinct;
      TablesMatch();
      ReadableHasSize(inode);
      bytes := ReadTable(inode, now);
      FileRead(inode);
    }

    /** A file that could not be read. */
    lemma ReadInVain(files: map<P.Name, StoredFile>, files': map<P.Name, StoredFile>, name: P.Name)
      requires name in files && name in files' && files - {name} == files' - {name}
      requires files[name].size == files'[name].size && files[name].Contents() == files'[name].Contents()
      requires !files[name].Readable() && (files[name].direct == null ==> files'[name].direct == null)
      ensures Reread(files, files')
    {
      OneFileRead(files, files', name);
    }

    /** Reads a victim and removes it, unless it cannot be read. */
    method ReadAndRemove(inode: Inode, now: Time) returns (file: Option<EvictedFile>)
      requires Valid() && table.Stores(inode)
      modifies `waits, table, table.repr`size, table.repr`direct, table.repr`ctime
      modifies monitor`bytesCounter, monitor`fileCounter
      ensures Valid() && table.repr == old(table.repr)
      ensures file.Some? <==> old(inode.Readable())
      ensures file.Some? ==>
        && Files(table, policy) == old(Files(table, policy)) - {inode.name}
        && View() == P.Without(old(View()), inode.name) && table.size == old(table.size) - old(inode.size)
        && file == Some(EvictedFile(inode.name, old(inode.Contents())))
      ensures file.None? ==> View() == old(View()) && table.size == old(table.size) && table.inodes == old(table.inodes)
      ensures file.None? ==> Reread(old(Files(table, policy)), Files(table, policy))
    {
      hide Valid, Files, P.Without, HuffmanCodec.Recovered, HuffmanCodec.TwoDistinct;
      FileIs(inode);
      ghost var files := Files(table, policy);
      var bytes := ReadInode(inode, now);
      if bytes.None? {
        FileIs(inode);
        ReadInVain(files, Files(table, policy), inode.name);
        return None;
      }
      ghost var before := Files(table, policy);
      var ok := RemoveInode(inode.name);
      assert Files(table, policy) == before - {inode.name};
      return if ok then Some(EvictedFile(inode.name, bytes.value)) else None;
    }

    /** From the files `files`, the state `s` and the size, a file was evicted. */
    ghost predicate Evicted(files: map<P.Name, StoredFile>, s: P.State, size: int, file: EvictedFile)
      reads this, table, table.repr`size, table.repr`direct, table.repr`ctime, table.repr`refCount, descriptors
    {
      && IsEvicted(files, file)
      && Files(table, policy) == files - {file.name} && View() == P.Without(s, file.name)
      && table.size == size - files[file.name].size
    }

    /** Evicts a file of least key, whoever has it open or locked. It must be readable. */
    method Evict(now: Time) returns (file: Option<EvictedFile>)
      requires Valid() && CountsFit(View().files)
      modifies `waits, table, table.repr`size, table.repr`direct, table.repr`ctime
      modifies monitor`fileEvictions, monitor`bytesCounter, monitor`fileCounter
      ensures Valid() && table.repr == old(table.repr)
      ensures file.Some? ==>
        && file.value.name in old(View()).files
        && Evicted(old(Files(table, policy)), old(View()), old(table.size), file.value)
      ensures file.None? ==>
        && Stuck(old(Files(table, policy)), table.size)
        && View() == old(View()) && table.size == old(table.size) && table.inodes == old(table.inodes)
      ensures file.None? ==> Reread(old(Files(table, policy)), Files(table, policy))
    {
      hide Valid, IsVictim, Files, CountsFit, FileTable.Stores, P.Without, Evicted, Stuck, IsFile;
      hide Inode.Readable, Inode.Contents, StoredFile.Readable, StoredFile.Contents;
      CountEviction();
      var inode := PickVictim();
      if inode == null {
        NoFiles();
        return None;
      }
      file := TakeVictim(inode, now);
    }

    lemma NoFiles()
      requires Valid() && table.presence == []
      ensures Stuck(Files(table, policy), table.size)
    {
      hide FileTable.Matches, Descriptors.Valid, Descriptors.Matches;
      assert Files(table, policy) == map[];
    }

    /** A file that is alone makes up the whole size. */
    lemma OnlyFile(name: P.Name)
      requires Valid() && name in Files(table, policy) && Files(table, policy).Keys == {name}
      ensures table.size == Files(table, policy)[name].size
    {
      hide FileTable.Matches, Descriptors.Valid, Descriptors.Matches;
      RemoveConsistent(table.presence, table.sizes, table.count, table.size, name);
      assert table.Holds(name);
      var rest := DeleteFirst(table.presence, name);
      assert (table.sizes - {name}).Keys == {};
      assert rest == [];
    }

    method TakeVictim(inode: Inode, now: Time) returns (file: Option<EvictedFile>)
      requires Valid() && table.Stores(inode) && IsFile(inode) && IsVictim(inode.name, Files(table, policy))
      modifies `waits, table, table.repr`size, table.repr`direct, table.repr`ctime
      modifies monitor`bytesCounter, monitor`fileCounter
      ensures Valid() && table.repr == old(table.repr)
      ensures file.Some? ==>
        && file.value.name in old(View()).files
        && Evicted(old(Files(table, policy)), old(View()), old(table.size), file.value)
      ensures file.None? ==>
        && Stuck(old(Files(table, policy)), table.size)
        && View() == old(View()) && table.size == old(table.size) && table.inodes == old(table.inodes)
      ensures file.None? ==> Reread(old(Files(table, policy)), Files(table, policy))
    {
      hide Valid, IsVictim, Files, P.Without;
      hide Inode.Readable, Inode.Contents, StoredFile.Readable, StoredFile.Contents;
      ghost var files := Files(table, policy);
      ghost var readable := files[inode.name].Readable();
      if files.Keys == {inode.name} {
        OnlyFile(inode.name);
      }
      file := ReadAndRemove(inode, now);
      assert !readable ==>
        && IsVictim(inode.name, files) && !files[inode.name].Readable()
        && (files.Keys == {inode.name} ==> table.size == files[inode.name].size);
    }

    method CountEviction()
      requires Valid()
      modifies monitor`fileEvictions
      ensures Valid()
    {
      hide FileTable.Valid, FileTable.Matches, Descriptors.Valid, Descriptors.Matches;
      monitor.EvictionStarted();
    }

    /** The inode is that of a stored file, as the eviction sees it. */
    ghost predicate IsFile(inode: Inode)
      reads table, table.repr`size, table.repr`direct, table.repr`ctime, table.repr`refCount
    {
      && inode.name in Files(table, policy) && inode in table.repr
      && Files(table, policy)[inode.name].inode == inode
      && Files(table, policy)[inode.name].size == inode.size
      && Files(table, policy)[inode.name].Readable() == inode.Readable()
      && Files(table, policy)[inode.name].Contents() == inode.Contents()
    }

    method PickVictim() returns (inode: Inode?)
      requires Valid() && CountsFit(View().files)
      ensures inode == null <==> table.presence == []
      ensures inode != null ==> table.Stores(inode) && IsFile(inode) && IsVictim(inode.name, Files(table, policy))
    {
      hide FileTable.Valid, FileTable.Matches, Descriptors.Valid, Descriptors.Matches, CountsFit, Key;
      inode := SelectVictim(table, policy);
      if inode != null {
        Found(inode.name);
        FileOf(table, policy, inode.name);
      }
    }

    ghost function Stored(): Store
      reads this, table, table.repr`size, table.repr`direct, table.repr`ctime, table.repr`refCount, descriptors
    {
      Store(Files(table, policy), View(), table.size)
    }

    /** Evicts files until `need` more units fit, or until eviction is not possible. */
    method MakeRoom(need: nat, collect: bool, now: Time) returns (r: P.Outcome, evicted: seq<EvictedFile>)
      requires Valid() && CountsFit(View().files)
      modifies `waits, table, table.repr`size, table.repr`direct, table.repr`ctime
      modifies monitor`fileEvictions, monitor`bytesCounter, monitor`fileCounter
      ensures Valid() && table.repr == old(table.repr)
      ensures RoomMade(memoryLimit, policy, collect, need, old(Stored()), evicted, r)
      ensures View() == After(old(Stored()), evicted).state && table.size == After(old(Stored()), evicted).size
      ensures r == P.Done ==> Stored() == After(old(Stored()), evicted)
      ensures r != P.Done ==> GivenUp(memoryLimit, policy, collect, After(old(Stored()), evicted), Stored())
    {
      hide Valid, Files, CountsFit, IsEvicted, Stuck, P.Without, Needed;
      evicted := [];
      ghost var a := Stored();
      NothingNeeded(memoryLimit, policy, collect, need, a);
      while need > memoryLimit - table.size
        invariant Valid() && CountsFit(View().files) && table.repr == old(table.repr)
        invariant InOrder(a.files, evicted) && Stored() == After(a, evicted)
        invariant Needed(memoryLimit, policy, collect, need, a, evicted)
        decreases |View().files|
      {
        if memoryLimit - table.size == -1 {
          return P.Failed(P.EUNSET), evicted;
        }
        if policy == NONE {
          return P.Failed(P.EDQUOT), evicted;
        }
        if !collect {
          return P.Failed(P.EINVAL), evicted;
        }
        var file := Evict(now);
        if file.None? {
          return P.Failed(P.EUNSET), evicted;
        }
        FewerFiles(StateAfter(a.state, evicted), file.value.name);
        OneMoreEvicted(a.files, a.state, a.size, evicted, file.value);
        NeededOnceMore(memoryLimit, policy, collect, need, a, evicted, file.value);
        evicted := [file.value] + evicted;
      }
      r := P.Done;
    }

    // ---------- reading and writing ----------

    /** Flushes a copy with buffered bytes into its file. */
    method FflushBuffer(copy: Inode, inode: Inode, now: Time)
      requires Valid() && copy in descriptors.copies && copy.Valid()
      requires table.Stores(inode) && inode.name == copy.name && copy.buffer != [] && Shares(copy, inode)
      modifies table`size, table`sizes, inode`size, inode`direct, inode`ctime
      modifies copy`size, copy`direct, copy`buffer, copy`ctime, monitor`bytesCounter, monitor`bytesPeak
      ensures Valid() && table.Stores(inode) && View() == old(View())
      ensures Files(table, policy) - {copy.name} == old(Files(table, policy)) - {copy.name}
      ensures copy.Valid() && copy.buffer == [] && copy.direct == inode.direct && copy.size == inode.size
      ensures copy.direct != null && copy.direct.file.bytes == old(inode.Contents()) + old(copy.buffer)
      ensures table.size == old(table.size) - old(inode.size) + inode.size
    {
      hide FileTable.Valid, FileTable.Matches, Descriptors.Valid, Descriptors.Matches, Files;
      hide HuffmanCodec.Recovered, Inode.Contents;
      var oldSize := copy.size;
      table.FflushStored(copy, inode, now);
      monitor.BytesAdded(copy.size - oldSize);
      FileRead(inode);
      descriptors.CopyChanged(copy);
    }

    /** Flushes a copy without buffered bytes: the inode gets a new time. */
    method FflushNothing(copy: Inode, inode: Inode, now: Time)
      requires Valid() && copy in descriptors.copies && copy.Valid()
      requires table.Stores(inode) && inode.name == copy.name && copy.buffer == []
      modifies table`size, table`sizes, inode`size, inode`direct, inode`ctime
      modifies copy`size, copy`direct, copy`buffer, copy`ctime, monitor`bytesCounter, monitor`bytesPeak
      ensures Valid() && table.Stores(inode) && View() == old(View())
      ensures Files(table, policy) - {copy.name} == old(Files(table, policy)) - {copy.name}
      ensures table.size == old(table.size) && inode.size == old(inode.size) && inode.direct == old(inode.direct)
      ensures copy.buffer == [] && copy.direct == old(copy.direct) && copy.size == old(copy.size)
    {
      hide FileTable.Valid, FileTable.Matches, Descriptors.Valid, Descriptors.Matches, Files, Shares;
      var oldSize := copy.size;
      table.FflushEmpty(copy, inode, now);
      monitor.BytesAdded(copy.size - oldSize);
      FileRead(inode);
      descriptors.CopyChanged(copy);
    }

    /** Reads and flushes the inode of a file. */
    method ReadStored(copy: Inode, inode: Inode, now: Time) returns (bytes: Option<seq<Byte>>)
      requires Valid() && copy in descriptors.copies && copy.Valid()
      requires table.Stores(inode) && inode.name == copy.name && copy.buffer == [] && copy !in table.repr
      requires inode in table.repr
      modifies table`size, table`sizes, inode`size, inode`direct, inode`ctime
      modifies copy`size, copy`direct, copy`buffer, copy`ctime, monitor`bytesCounter, monitor`bytesPeak
      ensures Valid() && View() == old(View()) && table.size == old(table.size)
      ensures SameContents(old(Files(table, policy)), Files(table, policy))
      ensures bytes == if old(inode.Readable()) then Some(old(inode.Contents())) else None
      ensures Files(table, policy) - {copy.name} == old(Files(table, policy)) - {copy.name}
      ensures copy.buffer == [] && copy.direct == old(copy.direct) && copy.size == old(copy.size)
      ensures SameBlocks(old(Files(table, policy)), Files(table, policy), {copy.name})
    {
      hide Valid, Files, HuffmanCodec.Recovered, HuffmanCodec.TwoDistinct, FileTable.Stores, SameContents;
      FileIs(inode);
      ghost var files := Files(table, policy);
      bytes := ReadInode(inode, now);
      if bytes.Some? {
        FflushNothing(copy, inode, now);
      }
      FileIs(inode);
      OneFileRead(files, Files(table, policy), inode.name);
    }

    /** What `read` does: looks up the descriptor, checks the lock of its copy, reads and flushes. */
    method ReadByFd(fd: nat, pid: P.Pid, now: Time) returns (r: P.Outcome, bytes: Option<seq<Byte>>)
      requires Valid()
      requires fd in descriptors.Contents() && descriptors.Contents()[fd].inode.name in View().files ==>
        descriptors.Contents()[fd].inode.buffer == []
      modifies table`size, table`sizes, table.repr`size, table.repr`direct, table.repr`ctime
      modifies descriptors.copies`size, descriptors.copies`direct, descriptors.copies`buffer, descriptors.copies`ctime
      modifies monitor`bytesCounter, monitor`bytesPeak
      ensures Valid() && View() == old(View()) && table.size == old(table.size)
      ensures SameContents(old(Files(table, policy)), Files(table, policy))
      ensures P.Access(View(), fd, pid) != P.Done ==> r == P.Access(View(), fd, pid) && bytes == None
      ensures P.Access(View(), fd, pid) == P.Done ==>
        && View().fds[fd].name in old(Files(table, policy))
        && var f := old(Files(table, policy))[View().fds[fd].name];
           && bytes == (if f.Readable() then Some(f.Contents()) else None)
           && r == (if f.Readable() then P.Done else P.Failed(P.EUNSET))
      ensures SameBlocks(old(Files(table, policy)), Files(table, policy), ReadFiles(fd, pid))
      ensures forall i :: i in descriptors.copies ==>
        i.buffer == old(i.buffer) && i.size == old(i.size) && i.direct == old(i.direct)
    {
      hide Valid, Files, HuffmanCodec.Recovered, HuffmanCodec.TwoDistinct, FileTable.Stores, SameContents, SameBlocks;
      SameFiles(Files(table, policy));
      CopiesApart();
      var copy;
      copy, r := GetInodeByFd(fd, pid);
      if r != P.Done {
        return r, None;
      }
      if copy.locked > 0 && copy.locked != pid {
        return P.Failed(P.EBUSY), None;
      }
      var inode := GetInode(copy.name);
      if inode == null {
        return P.Failed(P.ENOENT), None;
      }
      FileIs(inode);
      bytes := ReadStored(copy, inode, now);
      r := if bytes.Some? then P.Done else P.Failed(P.EUNSET);
    }

    /** The file that a read may give a new block. */
    ghost function ReadFiles(fd: nat, pid: P.Pid): set<P.Name>
      reads this, table, descriptors
    {
      if P.Access(View(), fd, pid) == P.Done then {View().fds[fd].name} else {}
    }

    /** Reads a file. The guard looks at the lock of the descriptor's own copy. No copy changes. */
    method Read(fd: nat, pid: P.Pid, now: Time) returns (r: P.Outcome, bytes: Option<seq<Byte>>)
      requires Valid()
      requires fd in descriptors.Contents() && descriptors.Contents()[fd].inode.name in View().files ==>
        descriptors.Contents()[fd].inode.buffer == []
      modifies table`size, table`sizes, table.repr`size, table.repr`direct, table.repr`ctime
      modifies descriptors.copies`size, descriptors.copies`direct, descriptors.copies`buffer, descriptors.copies`ctime
      modifies monitor`bytesCounter, monitor`bytesPeak
      ensures Valid() && View() == old(View()) && table.size == old(table.size)
      ensures SameContents(old(Files(table, policy)), Files(table, policy))
      ensures P.Access(View(), fd, pid) != P.Done ==> r == P.Access(View(), fd, pid) && bytes == None
      ensures P.Access(View(), fd, pid) == P.Done ==>
        && View().fds[fd].name in old(Files(table, policy))
        && var f := old(Files(table, policy))[View().fds[fd].name];
           && bytes == (if f.Readable() then Some(f.Contents()) else None)
           && r == (if f.Readable() then P.Done else P.Failed(P.EUNSET))
      ensures forall i :: i in descriptors.copies ==>
        i.buffer == old(i.buffer) && i.size == old(i.size) && i.direct == old(i.direct)
      ensures old(FlushedFds()) <= FlushedFds()
      ensures forall d :: d in old(FreshFds()) && Spared(descriptors.Contents()[d].inode.name, ReadFiles(fd, pid)) ==>
        d in FreshFds()
    {
      hide Valid, P.Access, SameContents, SameBlocks, Files, FreshFds, FlushedFds, Fresh;
      TablesMatch();
      r, bytes := ReadByFd(fd, pid, now);
      TablesMatch();
      FreshKept(ReadFiles(fd, pid));
      FlushedKept({});
    }

    lemma TablesMatch()
      requires Valid()
      ensures table.Matches()
    {
      hide FileTable.Valid, FileTable.Matches, Descriptors.Valid, Descriptors.Matches;
    }

    /** Appends `buf` to the file of a descriptor that passed the checks. */
    method WriteCopy(copy: Inode, buf: seq<Byte>, now: Time) returns (r: P.Outcome)
      requires Valid() && copy in descriptors.copies && copy !in table.repr && copy.Valid() && buf != []
      requires Fresh(Files(table, policy), copy, buf)
      modifies table`size, table`sizes, table.repr`size, table.repr`direct, table.repr`ctime
      modifies copy`size, copy`direct, copy`buffer, copy`ctime, monitor`bytesCounter, monitor`bytesPeak
      ensures Valid()
      ensures r == if copy.name in old(View()).files then P.Done else P.Failed(P.ENOENT)
      ensures r == P.Done ==>
        Appended(old(Stored()), Stored(), copy.name, buf) && Fresh(Files(table, policy), copy, [])
      ensures r != P.Done ==> Stored() == old(Stored())
    {
      hide Valid, Files, HuffmanCodec.Recovered, FileTable.Stores, HuffmanCodec.Encodes;
      var inode := GetInode(copy.name);
      if inode != null {
        FileIs(inode);
      }
      BufferWrite(copy, buf, now);
      if inode == null {
        return P.Failed(P.ENOENT);
      }
      FflushBuffer(copy, inode, now);
      FileIs(inode);
      copy.ContentsFit();
      r := P.Done;
    }

    method BufferWrite(copy: Inode, buf: seq<Byte>, now: Time)
      requires Valid() && copy in descriptors.copies && buf != []
      modifies copy`buffer, copy`ctime
      ensures Valid() && copy.buffer == old(copy.buffer) + buf
    {
      hide FileTable.Valid, FileTable.Matches, Descriptors.Valid, Descriptors.Matches;
      var ok := copy.Write(buf, now);
    }

    /** The copy a write changes: it got the buffer, even if the file turned out to be gone. */
    ghost function Touched(fd: nat, r: P.Outcome): set<Inode>
      reads descriptors`table, descriptors.table
    {
      if (r == P.Done || r == P.Failed(P.ENOENT)) && fd in descriptors.Contents() then {descriptors.Contents()[fd].inode}
      else {}
    }

    /** The part of `write` after room was made: looks up the descriptor, checks its lock, and appends. */
    method WriteByFd(fd: nat, buf: seq<Byte>, pid: P.Pid, now: Time) returns (r: P.Outcome)
      requires Valid() && buf != [] && FreshDescriptor(fd, pid, buf)
      modifies table`size, table`sizes, table.repr`size, table.repr`direct, table.repr`ctime
      modifies descriptors.copies`size, descriptors.copies`direct, descriptors.copies`buffer, descriptors.copies`ctime
      modifies monitor`bytesCounter, monitor`bytesPeak
      ensures Valid() && Accessed(old(Stored()), Stored(), fd, pid, buf, r)
      ensures r == P.Done ==> FreshDescriptor(fd, pid, [])
      ensures forall i :: i in descriptors.copies && i !in Touched(fd, r) ==>
        i.buffer == old(i.buffer) && i.size == old(i.size) && i.direct == old(i.direct)
    {
      hide Valid, Files, Fresh, Appended;
      CopiesApart();
      var copy;
      copy, r := GetInodeByFd(fd, pid);
      if r != P.Done {
        return;
      }
      if copy.locked > 0 && copy.locked != pid {
        return P.Failed(P.EBUSY);
      }
      r := WriteCopy(copy, buf, now);
    }

    lemma FreshAfter(files: map<P.Name, StoredFile>, evicted: seq<EvictedFile>, copy: Inode, buf: seq<Byte>)
      requires Fresh(files, copy, buf)
      ensures Fresh(FilesAfter(files, evicted), copy, buf)
    {
      LeftAsBefore(files, evicted);
    }

    /** What `write` does, as a run of the protocol. */
    method WriteRun(fd: nat, buf: seq<Byte>, pid: P.Pid, collect: bool, now: Time)
      returns (r: P.Outcome, evicted: seq<EvictedFile>, ghost need: nat)
      requires Valid() && Accounted(View()) && |buf| <= MAX_BYTES && FreshDescriptor(fd, pid, buf)
      modifies `waits, table, table.repr`size, table.repr`direct, table.repr`ctime, monitor
      modifies descriptors.copies`size, descriptors.copies`direct, descriptors.copies`buffer, descriptors.copies`ctime
      ensures Valid() && Accounted(View())
      ensures Written(memoryLimit, policy, collect, fd, pid, buf, need, old(Stored()), Stored(), evicted, r)
      ensures P.Possible(old(View()), WriteEvents(evicted, fd, pid))
      ensures View() == P.Run(old(View()), WriteEvents(evicted, fd, pid))
      ensures r == P.Done ==> FreshDescriptor(fd, pid, []) && P.Access(View(), fd, pid) == P.Done
      ensures table.repr == old(table.repr)
      ensures forall i :: i in descriptors.copies && i !in Touched(fd, r) ==>
        i.buffer == old(i.buffer) && i.size == old(i.size) && i.direct == old(i.direct)
    {
      hide *;
      ReferencesCount();
      ghost var a := Stored();
      StoredIs();
      r, evicted, need := WriteChecked(fd, buf, pid, collect, now);
      StoredIs();
      WriteIsRun(memoryLimit, policy, collect, fd, pid, buf, need, a, Stored(), evicted, r);
      RunAccounted(a.state, WriteEvents(evicted, fd, pid));
    }

    /**
     * Writes to a file: it encodes the buffer only to learn its size, makes room for that much,
     * and appends to the file through the descriptor's copy.
     */
    method Write(fd: nat, buf: seq<Byte>, pid: P.Pid, collect: bool, now: Time)
      returns (r: P.Outcome, evicted: seq<EvictedFile>, ghost need: nat)
      requires Valid() && Accounted(View()) && |buf| <= MAX_BYTES && FreshDescriptor(fd, pid, buf)
      modifies `waits, table, table.repr`size, table.repr`direct, table.repr`ctime, monitor
      modifies descriptors.copies`size, descriptors.copies`direct, descriptors.copies`buffer, descriptors.copies`ctime
      ensures Valid() && Accounted(View())
      ensures Written(memoryLimit, policy, collect, fd, pid, buf, need, old(Stored()), Stored(), evicted, r)
      ensures P.Possible(old(View()), WriteEvents(evicted, fd, pid))
      ensures View() == P.Run(old(View()), WriteEvents(evicted, fd, pid))
      ensures r == P.Done ==> fd in FreshFds() && P.Access(View(), fd, pid) == P.Done
      ensures table.repr == old(table.repr)
      ensures forall i :: i in descriptors.copies && i !in Touched(fd, r) ==>
        i.buffer == old(i.buffer) && i.size == old(i.size) && i.direct == old(i.direct)
      ensures old(FlushedFds()) <= FlushedFds()
      ensures forall d :: d in old(FreshFds()) && Unharmed(d, fd, r, old(Stored())) ==> d in FreshFds()
    {
      hide Valid, Accounted, Written, P.Access, P.Run, P.Possible, FreshDescriptor, FreshFds, FlushedFds;
      hide Files, SameBlocks;
      ghost var a := Stored();
      TablesMatch();
      r, evicted, need := WriteRun(fd, buf, pid, collect, now);
      TablesMatch();
      BlocksKept(memoryLimit, policy, collect, fd, pid, buf, need, a, Stored(), evicted, r);
      WriteFound(fd, pid, collect, buf, need, a, evicted, r);
      WrittenCopy(fd, pid, r);
      Unspared(fd, r, a);
      FreshKept(Disturbed(a, fd, r) + TouchedNames(fd, r));
      FlushedKept(Touched(fd, r));
    }

    /** The block of the descriptor's file was not changed by a write through `fd`, or the file is gone. */
    ghost predicate Unharmed(d: nat, fd: nat, r: P.Outcome, a: Store)
      reads table`inodes, descriptors`table, descriptors.table
    {
      d in descriptors.Contents() ==> Spared(descriptors.Contents()[d].inode.name, Disturbed(a, fd, r))
    }

    ghost function TouchedNames(fd: nat, r: P.Outcome): set<P.Name>
      reads descriptors`table, descriptors.table
    {
      set i | i in Touched(fd, r) :: i.name
    }

    lemma WriteFound(fd: nat, pid: P.Pid, collect: bool, buf: seq<Byte>, need: nat, a: Store,
                     evicted: seq<EvictedFile>, r: P.Outcome)
      requires Written(memoryLimit, policy, collect, fd, pid, buf, need, a, Stored(), evicted, r)
      ensures r == P.Failed(P.ENOENT) ==> fd in View().fds && View().fds[fd].name !in View().files
      ensures r == P.Done ==> fd in a.state.fds && View().fds == a.state.fds
      ensures View().files.Keys <= a.state.files.Keys
    {
      WriteState(memoryLimit, policy, collect, fd, pid, buf, need, a, Stored(), evicted, r);
      hide Written, Files, Appended;
      if r == P.Failed(P.ENOENT) {
        NotFound(memoryLimit, policy, collect, fd, pid, buf, need, a, Stored(), evicted);
      } else if r == P.Done {
        DoneIsRun(memoryLimit, policy, collect, fd, pid, buf, need, a, Stored(), evicted);
      }
    }

    lemma WrittenCopy(fd: nat, pid: P.Pid, r: P.Outcome)
      requires Valid() && (r == P.Done ==> FreshDescriptor(fd, pid, []) && P.Access(View(), fd, pid) == P.Done)
      requires r == P.Failed(P.ENOENT) ==> fd in View().fds && View().fds[fd].name !in View().files
      ensures forall i :: i in Touched(fd, r) ==> View().fds[fd].name == i.name && (i.name in table.inodes ==> i.buffer == [])
      ensures r == P.Failed(P.ENOENT) ==> forall i :: i in Touched(fd, r) ==> i.name !in table.inodes
      ensures r == P.Done ==> fd in FreshFds()
    {
      hide FileTable.Valid, Descriptors.Valid;
      FoundCopy(fd);
      if r == P.Done {
        IsFresh(fd, pid);
      }
    }

    lemma Unspared(fd: nat, r: P.Outcome, a: Store)
      requires SameBlocks(a.files, Stored().files, Disturbed(a, fd, r))
      requires r == P.Done ==> fd in a.state.fds && View().fds == a.state.fds
      requires forall i :: i in Touched(fd, r) ==> fd in View().fds && View().fds[fd].name == i.name
      requires r == P.Failed(P.ENOENT) ==> forall i :: i in Touched(fd, r) ==> i.name !in table.inodes
      ensures SameBlocks(a.files, Stored().files, Disturbed(a, fd, r) + TouchedNames(fd, r))
      ensures forall name :: Spared(name, Disturbed(a, fd, r)) ==> Spared(name, Disturbed(a, fd, r) + TouchedNames(fd, r))
    {
    }

    lemma ReferencesCount()
      requires Valid() && Accounted(View())
      ensures CountsFit(View().files)
    {
      hide Valid, Accounted, CountsFit;
      DescriptorCount();
      AccountedFit(View());
    }

    lemma StoredIs()
      requires Valid()
      ensures Stored().files.Keys == View().files.Keys && Stored().state == View()
    {
      hide FileTable.Valid, Descriptors.Valid, Descriptors.Matches;
    }

    /** The checks of `write`, one after the other. */
    method WriteChecked(fd: nat, buf: seq<Byte>, pid: P.Pid, collect: bool, now: Time)
      returns (r: P.Outcome, evicted: seq<EvictedFile>, ghost need: nat)
      requires Valid() && CountsFit(View().files) && |buf| <= MAX_BYTES && FreshDescriptor(fd, pid, buf)
      modifies `waits, table, table.repr`size, table.repr`direct, table.repr`ctime, monitor
      modifies descriptors.copies`size, descriptors.copies`direct, descriptors.copies`buffer, descriptors.copies`ctime
      ensures Valid()
      ensures Written(memoryLimit, policy, collect, fd, pid, buf, need, old(Stored()), Stored(), evicted, r)
      ensures r == P.Done ==> FreshDescriptor(fd, pid, [])
      ensures table.repr == old(table.repr)
      ensures forall i :: i in descriptors.copies && i !in Touched(fd, r) ==>
        i.buffer == old(i.buffer) && i.size == old(i.size) && i.direct == old(i.direct)
    {
      hide Valid, Files, CountsFit, HuffmanCodec.Encodes, FreshDescriptor, RoomAndAccess;
      evicted, need := [], 0;
      HuffmanCodec.ShortIsCountable(buf);
      var artifact := HuffmanCodec.Encode(buf);
      if artifact.None? {
        return P.Failed(P.EPERM), evicted, need;
      }
      need := artifact.value.size;
      assert HasSize(buf, need);
      if artifact.value.size > memoryLimit {
        return P.Failed(P.E2BIG), evicted, need;
      }
      r, evicted := WriteFitting(fd, buf, pid, artifact.value.size, collect, now);
    }

    /** The part of `write` after the size check. */
    method WriteFitting(fd: nat, buf: seq<Byte>, pid: P.Pid, need: nat, collect: bool, now: Time)
      returns (r: P.Outcome, evicted: seq<EvictedFile>)
      requires Valid() && CountsFit(View().files) && buf != [] && FreshDescriptor(fd, pid, buf)
      modifies `waits, table, table.repr`size, table.repr`direct, table.repr`ctime, monitor
      modifies descriptors.copies`size, descriptors.copies`direct, descriptors.copies`buffer, descriptors.copies`ctime
      ensures Valid()
      ensures RoomAndAccess(memoryLimit, policy, collect, fd, pid, buf, need, old(Stored()), Stored(), evicted, r)
      ensures r == P.Done ==> FreshDescriptor(fd, pid, [])
      ensures table.repr == old(table.repr)
      ensures forall i :: i in descriptors.copies && i !in Touched(fd, r) ==>
        i.buffer == old(i.buffer) && i.size == old(i.size) && i.direct == old(i.direct)
    {
      hide Valid, Files, CountsFit, FreshDescriptor, RoomMade, Accessed, After;
      CopiesApart();
      ghost var a := Stored();
      r, evicted := MakeRoomFor(fd, buf, pid, need, collect, now);
      RoomIff(memoryLimit, policy, collect, need, a, evicted, r);
      if r != P.Done {
        return;
      }
      r := WriteByFd(fd, buf, pid, now);
    }

    lemma CopiesApart()
      requires Valid()
      ensures descriptors.copies !! table.repr
    {
    }

    /** Makes room; a fresh descriptor stays fresh. */
    method MakeRoomFor(fd: nat, buf: seq<Byte>, pid: P.Pid, need: nat, collect: bool, now: Time)
      returns (r: P.Outcome, evicted: seq<EvictedFile>)
      requires Valid() && CountsFit(View().files) && FreshDescriptor(fd, pid, buf)
      modifies `waits, table, table.repr`size, table.repr`direct, table.repr`ctime
      modifies monitor`fileEvictions, monitor`bytesCounter, monitor`fileCounter
      ensures Valid() && table.repr == old(table.repr)
      ensures RoomMade(memoryLimit, policy, collect, need, old(Stored()), evicted, r)
      ensures View() == After(old(Stored()), evicted).state && table.size == After(old(Stored()), evicted).size
      ensures r == P.Done ==> Stored() == After(old(Stored()), evicted) && FreshDescriptor(fd, pid, buf)
      ensures r != P.Done ==> GivenUp(memoryLimit, policy, collect, After(old(Stored()), evicted), Stored())
    {
      hide Valid, Files, CountsFit, RoomMade, Fresh, Descriptors.Contents;
      ghost var files := Files(table, policy);
      CopiesApart();
      r, evicted := MakeRoom(need, collect, now);
      DescriptorsStay(old(View()), evicted);
      if r == P.Done && fd in descriptors.Contents() && P.Lookup(View(), fd, pid) == P.Done {
        FreshAfter(files, evicted, descriptors.Contents()[fd].inode, buf);
      }
    }
  }
}
