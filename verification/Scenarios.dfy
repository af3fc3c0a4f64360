/** Calls of the file system one after the other: writing a file, and reading it through any descriptor. */
module Scenarios {
  import opened Wrappers
  import opened FirstFit
  import opened HuffmanTree
  import HuffmanCodec
  import opened ProtocolAccounting
  import opened ProtocolSession
  import opened Eviction
  import opened Writing
  import opened MakingRoom
  import opened InodeModule
  import opened FileSystemModule
  import P = Protocol

  /** The process can use the descriptor, and its copy is fresh. */
  ghost predicate ReadyToWrite(fs: FileSystem, fd: nat, pid: P.Pid, name: P.Name)
    reads fs, fs.table, fs.table.repr`size, fs.table.repr`direct, fs.table.repr`ctime, fs.table.repr`refCount
    reads fs.descriptors, fs.descriptors.table, fs.descriptors.copies
  {
    && P.Access(fs.View(), fd, pid) == P.Done && fs.View().fds[fd].name == name
    && fd in fs.FreshFds()
  }

  /** Some of the buffers were written to the file, which was empty before. */
  ghost predicate Progress(now: Store, name: P.Name, bufs: seq<seq<Byte>>, before: seq<Store>, after: seq<Store>) {
    && Appends(name, bufs, before, after) && name in now.files
    && now.files[name].Contents() == (if bufs == [] then [] else after[|bufs| - 1].files[name].Contents())
    && now.files[name].size == if bufs == [] then 0 else after[|bufs| - 1].files[name].size
  }

  lemma ProgressLength(now: Store, name: P.Name, bufs: seq<seq<Byte>>, before: seq<Store>, after: seq<Store>)
    requires Progress(now, name, bufs, before, after)
    ensures name in now.files && |now.files[name].Contents()| <= |Concat(bufs)| && now.files[name].size <= |Concat(bufs)|
  {
    if bufs != [] {
      AppendsLength(name, bufs, before, after);
    }
  }

  lemma ProgressMade(a: Store, x: Store, b: Store, buf: seq<Byte>,
                     name: P.Name, bufs: seq<seq<Byte>>, before: seq<Store>, after: seq<Store>)
    requires Progress(a, name, bufs, before, after) && name in x.files && x.files[name] == a.files[name]
    requires buf != [] && Appended(x, b, name, buf)
    ensures Progress(b, name, bufs + [buf], before + [x], after + [b])
  {
    OneMoreAppend(name, bufs, buf, before, after, x, b);
    assert (after + [b])[|bufs|] == b;
  }

  /** Another buffer was written. */
  lemma OneMoreWrite(limit: nat, policy: Policy, collect: bool, fd: nat, pid: P.Pid, buf: seq<Byte>, need: nat,
                     a: Store, b: Store, evicted: seq<EvictedFile>,
                     name: P.Name, bufs: seq<seq<Byte>>, before: seq<Store>, after: seq<Store>)
    requires Written(limit, policy, collect, fd, pid, buf, need, a, b, evicted, P.Done)
    requires fd in a.state.fds && a.state.fds[fd].name == name && Progress(a, name, bufs, before, after)
    ensures InOrder(a.files, evicted) && buf != []
    ensures Progress(b, name, bufs + [buf], before + [After(a, evicted)], after + [b])
    ensures b.state.fds == a.state.fds
  {
    hide Written, Appended, Progress, After, InOrder;
    DoneAppends(limit, policy, collect, fd, pid, buf, need, a, b, evicted);
    ProgressMade(a, After(a, evicted), b, buf, name, bufs, before, after);
  }

  // ---------- writing a new file and reading it ----------

  /** What all files but one take up. */
  ghost function Others(a: Store, name: P.Name): int
    requires name in a.files
  {
    a.size - a.files[name].size
  }

  lemma RoomForNext(limit: nat, policy: Policy, collect: bool, fd: nat, pid: P.Pid, buf: seq<Byte>, need: nat,
                    a: Store, b: Store, evicted: seq<EvictedFile>, r: P.Outcome,
                    name: P.Name, bufs: seq<seq<Byte>>, before: seq<Store>, after: seq<Store>)
    requires Written(limit, policy, collect, fd, pid, buf, need, a, b, evicted, r) && buf != []
    requires P.Access(a.state, fd, pid) == P.Done && a.state.fds[fd].name == name
    requires Progress(a, name, bufs, before, after)
    requires 0 <= Others(a, name) && Others(a, name) + |Concat(bufs)| + |buf| <= limit
    ensures r == P.Done && name in b.files && Others(b, name) == Others(a, name)
  {
    ProgressLength(a, name, bufs, before, after);
    SizeBound(buf, need);
    hide Written, Progress, P.Access;
    RoomyWrite(limit, policy, collect, fd, pid, buf, need, a, b, evicted, r);
  }

  /** Writes the next buffer. */
  method WriteNext(fs: FileSystem, fd: nat, buf: seq<Byte>, pid: P.Pid, collect: bool, now: Time, ghost name: P.Name,
                   ghost bufs: seq<seq<Byte>>, ghost before: seq<Store>, ghost after: seq<Store>)
    returns (r: P.Outcome, ghost before': seq<Store>, ghost after': seq<Store>)
    requires fs.Valid() && Accounted(fs.View()) && ReadyToWrite(fs, fd, pid, name)
    requires Progress(fs.Stored(), name, bufs, before, after) && |Concat(bufs)| + |buf| <= MAX_BYTES
    modifies fs`waits, fs.table, fs.table.repr`size, fs.table.repr`direct, fs.table.repr`ctime, fs.monitor
    modifies fs.descriptors.copies`size, fs.descriptors.copies`direct
    modifies fs.descriptors.copies`buffer, fs.descriptors.copies`ctime
    ensures fs.Valid() && Accounted(fs.View()) && fs.table.repr == old(fs.table.repr)
    ensures r == P.Done ==> ReadyToWrite(fs, fd, pid, name) && Progress(fs.Stored(), name, bufs + [buf], before', after')
    ensures buf != [] && 0 <= old(Others(fs.Stored(), name)) &&
            old(Others(fs.Stored(), name)) + |Concat(bufs)| + |buf| <= fs.memoryLimit ==>
      r == P.Done && name in fs.Stored().files && Others(fs.Stored(), name) == old(Others(fs.Stored(), name))
    ensures old(fs.FlushedFds()) <= fs.FlushedFds()
  {
    hide FileSystem.Valid, Accounted, FileSystem.FreshDescriptor, FileSystem.FreshFds, FileSystem.FlushedFds, Progress;
    hide Written, P.Access, After, FileSystem.Touched, FileSystem.Unharmed;
    before', after' := before, after;
    ghost var a := fs.Stored();
    AccessOpen(a.state, fd, pid);
    ProgressLength(a, name, bufs, before, after);
    fs.FreshIs(fd, pid);
    fs.TakesBuffer(fd, pid, buf);
    var evicted;
    ghost var need;
    r, evicted, need := fs.Write(fd, buf, pid, collect, now);
    ghost var b := fs.Stored();
    if buf != [] && 0 <= Others(a, name) && Others(a, name) + |Concat(bufs)| + |buf| <= fs.memoryLimit {
      RoomForNext(fs.memoryLimit, fs.policy, collect, fd, pid, buf, need, a, b, evicted, r, name, bufs, before, after);
    }
    if r == P.Done {
      OneMoreWrite(fs.memoryLimit, fs.policy, collect, fd, pid, buf, need, a, b, evicted, name, bufs, before, after);
      before', after' := before + [After(a, evicted)], after + [b];
    }
  }

  /** Writes buffers one after the other, until a write fails. */
  method WriteAll(fs: FileSystem, fd: nat, bufs: seq<seq<Byte>>, pid: P.Pid, collect: bool, now: Time,
                  ghost name: P.Name) returns (r: P.Outcome, ghost before: seq<Store>, ghost after: seq<Store>)
    requires fs.Valid() && Accounted(fs.View()) && ReadyToWrite(fs, fd, pid, name) && |Concat(bufs)| <= MAX_BYTES
    requires Progress(fs.Stored(), name, [], [], [])
    modifies fs`waits, fs.table, fs.table.repr`size, fs.table.repr`direct, fs.table.repr`ctime, fs.monitor
    modifies fs.descriptors.copies`size, fs.descriptors.copies`direct
    modifies fs.descriptors.copies`buffer, fs.descriptors.copies`ctime
    ensures fs.Valid() && Accounted(fs.View()) && fs.table.repr == old(fs.table.repr)
    ensures r == P.Done ==> ReadyToWrite(fs, fd, pid, name) && Progress(fs.Stored(), name, bufs, before, after)
    ensures (forall i :: 0 <= i < |bufs| ==> bufs[i] != []) && old(fs.table.size) + |Concat(bufs)| <= fs.memoryLimit ==>
      r == P.Done
    ensures old(fs.FlushedFds()) <= fs.FlushedFds()
  {
    hide FileSystem.Valid, Accounted, ReadyToWrite, Progress, FileSystem.FlushedFds;
    r, before, after := P.Done, [], [];
    assert bufs[..0] == [];
    ProgressLength(fs.Stored(), name, [], [], []);
    ghost var others := Others(fs.Stored(), name);
    ghost var roomy := (forall i :: 0 <= i < |bufs| ==> bufs[i] != []) && others + |Concat(bufs)| <= fs.memoryLimit;
    var i := 0;
    while i < |bufs|
      invariant i <= |bufs| && fs.Valid() && Accounted(fs.View()) && fs.table.repr == old(fs.table.repr)
      invariant r == P.Done && ReadyToWrite(fs, fd, pid, name) && Progress(fs.Stored(), name, bufs[..i], before, after)
      invariant roomy ==> name in fs.Stored().files && Others(fs.Stored(), name) == others
      invariant old(fs.FlushedFds()) <= fs.FlushedFds()
    {
      ConcatGrows(bufs, i);
      assert bufs[..i + 1] == bufs[..i] + [bufs[i]];
      ProgressLength(fs.Stored(), name, bufs[..i], before, after);
      r, before, after := WriteNext(fs, fd, bufs[i], pid, collect, now, name, bufs[..i], before, after);
      if r != P.Done {
        return;
      }
      i := i + 1;
    }
    assert bufs[..i] == bufs;
  }

  // ---------- making room for a new file ----------

  /**
   * Under FIFO, a write to an empty file that was created after all others, which can all be read, evicts only
   * others. If it is not too big for the memory, it succeeds within the limit, or stops at an overdraft of one unit.
   */
  method WriteToYoungest(fs: FileSystem, fd: nat, buf: seq<Byte>, pid: P.Pid, now: Time, ghost name: P.Name)
    returns (r: P.Outcome, evicted: seq<EvictedFile>)
    requires fs.Valid() && Accounted(fs.View()) && ReadyToWrite(fs, fd, pid, name)
    requires fs.policy == FIFO && Youngest(fs.table, name) && 0 < |buf| <= MAX_BYTES
    modifies fs`waits, fs.table, fs.table.repr`size, fs.table.repr`direct, fs.table.repr`ctime, fs.monitor
    modifies fs.descriptors.copies`size, fs.descriptors.copies`direct
    modifies fs.descriptors.copies`buffer, fs.descriptors.copies`ctime
    ensures fs.Valid() && Accounted(fs.View())
    ensures forall i :: 0 <= i < |evicted| ==> evicted[i].name != name
    ensures r == P.Done || r == P.Failed(P.E2BIG) || (r == P.Failed(P.EUNSET) && fs.table.size == fs.memoryLimit + 1)
    ensures r == P.Done ==> fs.table.size <= fs.memoryLimit && name in fs.Stored().files
    ensures r == P.Done ==>
      fs.Stored().files[name].direct != null && fs.Stored().files[name].direct.file.bytes == buf
    ensures |buf| <= fs.memoryLimit && old(fs.table.size) <= fs.memoryLimit ==> r == P.Done
    ensures r == P.Failed(P.E2BIG) ==> fs.Stored() == old(fs.Stored()) && |buf| > fs.memoryLimit
  {
    hide FileSystem.Valid, Accounted, FileSystem.FreshDescriptor, FileSystem.FreshFds, FileSystem.FlushedFds;
    hide Written, P.Access, FileSystem.Touched, FileSystem.Unharmed, Youngest, Sheltered, HasSize;
    ghost var a := fs.Stored();
    ShelteredNow(fs, name);
    AccessOpen(a.state, fd, pid);
    EmptyNow(a, name);
    fs.FreshIs(fd, pid);
    fs.TakesBuffer(fd, pid, buf);
    ghost var need;
    r, evicted, need := fs.Write(fd, buf, pid, true, now);
    ghost var b := fs.Stored();
    TooBigOrNot(fs.memoryLimit, FIFO, true, fd, pid, buf, need, a, b, evicted, r);
    SizeBound(buf, need);
    if need <= fs.memoryLimit {
      EvictionMakesRoom(fs.memoryLimit, FIFO, fd, pid, buf, need, a, b, evicted, r, name);
    }
  }

  lemma TooBigOrNot(limit: nat, policy: Policy, collect: bool, fd: nat, pid: P.Pid, buf: seq<Byte>, need: nat,
                    a: Store, b: Store, evicted: seq<EvictedFile>, r: P.Outcome)
    requires Written(limit, policy, collect, fd, pid, buf, need, a, b, evicted, r) && buf != []
    ensures HasSize(buf, need) && (need > limit ==> r == P.Failed(P.E2BIG) && b == a && evicted == [])
  {
    hide RoomAndAccess, HasSize;
  }

  lemma EmptyNow(a: Store, name: P.Name)
    requires Sheltered(a.files, name)
    ensures name in a.files && a.files[name].Contents() == []
  {
  }

  lemma ShelteredNow(fs: FileSystem, name: P.Name)
    requires fs.Valid() && fs.policy == FIFO && Youngest(fs.table, name)
    ensures Sheltered(fs.Stored().files, name)
  {
    hide FileSystem.Valid, Youngest, Sheltered, Files;
    InodesOwned(fs);
    YoungestIsSheltered(fs.table, name);
  }

  lemma InodesOwned(fs: FileSystem)
    requires fs.Valid()
    ensures forall n :: n in fs.table.inodes ==> fs.table.inodes[n] in fs.table.repr
  {
    forall n | n in fs.table.inodes
      ensures fs.table.inodes[n] in fs.table.repr
    {
      fs.Found(n);
    }
  }

  // ---------- reading ----------

  /** A descriptor and the process that reads through it. */
  datatype Reader = Reader(fd: nat, pid: P.Pid)

  /** What a read through a descriptor returns. */
  ghost function ReadResult(a: Store, reader: Reader): Option<seq<Byte>> {
    if P.Access(a.state, reader.fd, reader.pid) != P.Done || a.state.fds[reader.fd].name !in a.files then None
    else
      var contents := a.files[a.state.fds[reader.fd].name].Contents();
      if contents == [] then None else Some(contents)
  }

  lemma ReadableIff(f: StoredFile)
    ensures f.Readable() <==> f.Contents() != []
  {
  }

  /** Reads do not change what reads return. */
  lemma SameResult(a: Store, b: Store, reader: Reader)
    requires SameContents(a.files, b.files) && b.state == a.state
    ensures ReadResult(b, reader) == ReadResult(a, reader)
  {
    hide P.Access, StoredFile.Contents;
  }

  lemma SameTwice(a: map<P.Name, StoredFile>, b: map<P.Name, StoredFile>, c: map<P.Name, StoredFile>)
    requires SameContents(a, b) && SameContents(b, c)
    ensures SameContents(a, c)
  {
  }

  method ReadOne(fs: FileSystem, reader: Reader, now: Time) returns (bytes: Option<seq<Byte>>)
    requires fs.Valid() && (reader.fd in fs.descriptors.Contents() ==> reader.fd in fs.FlushedFds())
    modifies fs.table`size, fs.table`sizes, fs.table.repr`size, fs.table.repr`direct, fs.table.repr`ctime
    modifies fs.descriptors.copies`size, fs.descriptors.copies`direct
    modifies fs.descriptors.copies`buffer, fs.descriptors.copies`ctime
    modifies fs.monitor`bytesCounter, fs.monitor`bytesPeak
    ensures fs.Valid() && fs.View() == old(fs.View()) && fs.table.size == old(fs.table.size)
    ensures SameContents(old(fs.Stored()).files, fs.Stored().files)
    ensures bytes == ReadResult(old(fs.Stored()), reader)
    ensures old(fs.FlushedFds()) <= fs.FlushedFds()
  {
    hide FileSystem.Valid, FileSystem.FlushedFds, FileSystem.FreshFds, P.Access, SameContents, Files;
    hide StoredFile.Readable, StoredFile.Contents, FileSystem.Spared, FileSystem.ReadFiles;
    fs.FlushedIs(reader.fd);
    ghost var a := fs.Stored();
    var r;
    r, bytes := fs.Read(reader.fd, reader.pid, now);
    if P.Access(a.state, reader.fd, reader.pid) == P.Done {
      AccessOpen(a.state, reader.fd, reader.pid);
      ReadableIff(a.files[a.state.fds[reader.fd].name]);
    }
  }

  /** Reads through any descriptors, one after the other; each returns what a read before the first would have. */
  method ReadAll(fs: FileSystem, readers: seq<Reader>, now: Time) returns (results: seq<Option<seq<Byte>>>)
    requires fs.Valid()
    requires forall i :: 0 <= i < |readers| && readers[i].fd in fs.descriptors.Contents() ==>
      readers[i].fd in fs.FlushedFds()
    modifies fs.table`size, fs.table`sizes, fs.table.repr`size, fs.table.repr`direct, fs.table.repr`ctime
    modifies fs.descriptors.copies`size, fs.descriptors.copies`direct
    modifies fs.descriptors.copies`buffer, fs.descriptors.copies`ctime
    modifies fs.monitor`bytesCounter, fs.monitor`bytesPeak
    ensures fs.Valid() && fs.View() == old(fs.View()) && fs.table.size == old(fs.table.size)
    ensures SameContents(old(fs.Stored()).files, fs.Stored().files)
    ensures |results| == |readers|
    ensures forall i :: 0 <= i < |readers| ==> results[i] == ReadResult(old(fs.Stored()), readers[i])
    ensures old(fs.FlushedFds()) <= fs.FlushedFds()
  {
    hide FileSystem.Valid, FileSystem.FlushedFds, SameContents, Files, ReadResult;
    SameFiles(fs.Stored().files);
    StaysSame(fs.Stored().files);
    results := [];
    for i := 0 to |readers|
      invariant fs.Valid() && fs.View() == old(fs.View()) && fs.table.size == old(fs.table.size)
      invariant SameContents(old(fs.Stored()).files, fs.Stored().files)
      invariant |results| == i && forall j :: 0 <= j < i ==> results[j] == ReadResult(old(fs.Stored()), readers[j])
      invariant old(fs.FlushedFds()) <= fs.FlushedFds()
    {
      ghost var b := fs.Stored();
      SameResult(old(fs.Stored()), b, readers[i]);
      var bytes := ReadOne(fs, readers[i], now);
      SameTwice(old(fs.Stored()).files, b.files, fs.Stored().files);
      results := results + [bytes];
    }
  }

  lemma StaysSame(files: map<P.Name, StoredFile>)
    ensures SameContents(files, files)
  {
  }

  /** A new file can be used through the descriptor that `open` returned; it fails only for these reasons. */
  lemma NewFileOpened(s: P.State, name: P.Name, lock: bool, pid: P.Pid, room: bool)
    requires Accounted(s)
    ensures var o := P.Open(s, name, true, lock, pid, room);
            && Accounted(o.0) && o.1 != P.Done
            && (o.1.Opened? <==> name != "" && |s.fds| != P.MAX_OPEN_FILES && name !in s.files && room)
            && (o.1.Opened? ==> P.Access(o.0, o.1.fd, pid) == P.Done && o.0.fds[o.1.fd].name == name)
  {
    StepAccounted(s, P.EvOpen(name, true, lock, pid, room));
    hide Accounted, FirstFree;
    if name != "" && |s.fds| != P.MAX_OPEN_FILES && name !in s.files && room {
      CreateOpens(s, name, lock, pid, FirstFree(s.fds.Keys, 0));
    }
  }

  lemma NothingWritten(fs: FileSystem, name: P.Name)
    requires fs.Valid() && fs.Unwritten(name)
    ensures Progress(fs.Stored(), name, [], [], [])
  {
    hide FileSystem.Valid, FileSystem.Unwritten;
    fs.UnwrittenIsEmpty(name);
  }

  /** Creates a file and opens it. */
  method OpenToWrite(fs: FileSystem, name: P.Name, lock: bool, pid: P.Pid, now: Time) returns (r: P.Outcome)
    requires fs.Valid() && Accounted(fs.View())
    modifies fs`waits, fs.table, fs.table.repr`locked, fs.table.repr`pending
    modifies fs.table.repr`refs, fs.table.repr`refCount, fs.table.repr`ctime, fs.monitor`fileCounter, fs.monitor`filePeak
    modifies fs.descriptors, fs.descriptors.table
    modifies fs.descriptors.free`size, fs.descriptors.free`list, fs.descriptors.free.list
    ensures fs.Valid() && Accounted(fs.View()) && fs.table.size == old(fs.table.size) && r != P.Done
    ensures fresh(fs.table.repr - old(fs.table.repr)) && fs.descriptors.Reallocated()
    ensures r.Opened? <==>
      && name != "" && |old(fs.View()).fds| != P.MAX_OPEN_FILES && name !in old(fs.View()).files
      && |old(fs.View()).files| < fs.filesLimit && old(fs.table.size) != fs.memoryLimit
    ensures r.Opened? ==> ReadyToWrite(fs, r.fd, pid, name) && Progress(fs.Stored(), name, [], [], [])
  {
    hide FileSystem.Valid, Accounted, P.Open, P.Access, Progress, FileSystem.FreshDescriptor, FileSystem.Unwritten;
    NewFileOpened(fs.View(), name, lock, pid, fs.Room());
    r := fs.Open(name, true, lock, pid, now);
    if r.Opened? {
      NothingWritten(fs, name);
    }
  }

  // ---------- writing, and then reading ----------

  /** What was written is read back if the first buffer has two different bytes, and only then. */
  lemma ReadsBack(a: Store, name: P.Name, bufs: seq<seq<Byte>>, before: seq<Store>, after: seq<Store>, reader: Reader)
    requires Progress(a, name, bufs, before, after) && bufs != []
    requires P.Access(a.state, reader.fd, reader.pid) == P.Done && a.state.fds[reader.fd].name == name
    ensures ReadResult(a, reader) == Some(Concat(bufs)) <==> HuffmanCodec.TwoDistinct(bufs[0])
  {
    hide P.Access;
    AppendsCompose(name, bufs, before, after);
    ConcatGrows(bufs, 0);
    BuffersNotEmpty(name, bufs, before, after);
  }

  lemma BuffersNotEmpty(name: P.Name, bufs: seq<seq<Byte>>, before: seq<Store>, after: seq<Store>)
    requires Appends(name, bufs, before, after) && bufs != []
    ensures |Concat(bufs)| > 0
  {
    SameLengths(name, bufs, before, after);
    LastBuffer(bufs, |bufs|);
    assert bufs[..|bufs|] == bufs;
  }

  lemma ProgressStays(a: Store, b: Store, name: P.Name, bufs: seq<seq<Byte>>, before: seq<Store>, after: seq<Store>)
    requires Progress(a, name, bufs, before, after) && SameContents(a.files, b.files)
    ensures Progress(b, name, bufs, before, after)
  {
    hide Appends;
  }

  /** The reader passes the guard, and its descriptor is one of the file. */
  ghost predicate MayRead(s: P.State, reader: Reader, name: P.Name) {
    P.Access(s, reader.fd, reader.pid) == P.Done && s.fds[reader.fd].name == name
  }

  /**
   * Writes buffers to a file, which was empty before, and then reads through any descriptors, any number of times.
   * If the writes succeed, which they do if there is room, each read of the file that passes the guard returns all
   * that was written, if and only if the first buffer has two different bytes. The reads leave the file as it was.
   */
  method WriteThenRead(fs: FileSystem, fd: nat, bufs: seq<seq<Byte>>, pid: P.Pid, collect: bool,
                       readers: seq<Reader>, now: Time, ghost name: P.Name)
    returns (r: P.Outcome, results: seq<Option<seq<Byte>>>, ghost before: seq<Store>, ghost after: seq<Store>)
    requires fs.Valid() && Accounted(fs.View()) && ReadyToWrite(fs, fd, pid, name) && |Concat(bufs)| <= MAX_BYTES
    requires Progress(fs.Stored(), name, [], [], []) && bufs != []
    requires forall i :: 0 <= i < |readers| && readers[i].fd in fs.descriptors.Contents() ==>
      readers[i].fd in fs.FlushedFds()
    modifies fs`waits, fs.table, fs.table.repr`size, fs.table.repr`direct, fs.table.repr`ctime, fs.monitor
    modifies fs.descriptors.copies`size, fs.descriptors.copies`direct
    modifies fs.descriptors.copies`buffer, fs.descriptors.copies`ctime
    ensures fs.Valid() && Accounted(fs.View())
    ensures (forall i :: 0 <= i < |bufs| ==> bufs[i] != []) && old(fs.table.size) + |Concat(bufs)| <= fs.memoryLimit ==>
      r == P.Done
    ensures r == P.Done ==> Progress(fs.Stored(), name, bufs, before, after) && |results| == |readers|
    ensures r == P.Done ==> forall i :: 0 <= i < |readers| && MayRead(fs.View(), readers[i], name) ==>
      (results[i] == Some(Concat(bufs)) <==> HuffmanCodec.TwoDistinct(bufs[0]))
    ensures old(fs.FlushedFds()) <= fs.FlushedFds()
  {
    hide FileSystem.Valid, Accounted, Progress, ReadyToWrite, FileSystem.FlushedFds, HuffmanCodec.TwoDistinct, Concat;
    hide SameContents, ReadResult, P.Access, Files;
    r, before, after := WriteAll(fs, fd, bufs, pid, collect, now, name);
    if r != P.Done {
      return r, [], before, after;
    }
    ghost var a := fs.Stored();
    forall i | 0 <= i < |readers| && MayRead(fs.View(), readers[i], name)
      ensures ReadResult(a, readers[i]) == Some(Concat(bufs)) <==> HuffmanCodec.TwoDistinct(bufs[0])
    {
      ReadsBack(a, name, bufs, before, after, readers[i]);
    }
    results := ReadAll(fs, readers, now);
    ProgressStays(a, fs.Stored(), name, bufs, before, after);
  }

  // ---------- opening afterwards ----------

  /** Descriptors were added, and nothing else that the guard of a read looks at. */
  ghost predicate MoreDescriptors(s: P.State, t: P.State) {
    t.files.Keys == s.files.Keys && forall fd :: fd in s.fds ==> fd in t.fds && t.fds[fd] == s.fds[fd]
  }

  lemma StillReads(s: P.State, t: P.State, reader: Reader, name: P.Name)
    requires MoreDescriptors(s, t) && MayRead(s, reader, name)
    ensures MayRead(t, reader, name)
  {
  }

  /** Opening a file without a lock, at a time when it is not created, adds a descriptor or does nothing. */
  lemma OpenedToRead(s: P.State, name: P.Name, pid: P.Pid, room: bool)
    requires Accounted(s) && name in s.files
    ensures var o := P.Open(s, name, false, false, pid, room);
            && Accounted(o.0) && MoreDescriptors(s, o.0)
            && (o.1.Opened? ==> MayRead(o.0, Reader(o.1.fd, pid), name))
  {
    hide Accounted, FirstFree, P.LockInode, P.IncreaseRefs;
    StepAccounted(s, P.EvOpen(name, false, false, pid, room));
  }

  /** Another process opens the file. */
  method OpenToRead(fs: FileSystem, name: P.Name, pid: P.Pid, now: Time) returns (r: P.Outcome)
    requires fs.Valid() && Accounted(fs.View()) && name in fs.View().files
    modifies fs`waits, fs.table, fs.table.repr`locked, fs.table.repr`pending
    modifies fs.table.repr`refs, fs.table.repr`refCount, fs.table.repr`ctime, fs.monitor`fileCounter, fs.monitor`filePeak
    modifies fs.descriptors, fs.descriptors.table
    modifies fs.descriptors.free`size, fs.descriptors.free`list, fs.descriptors.free.list
    ensures fs.Valid() && Accounted(fs.View()) && fs.table.size == old(fs.table.size)
    ensures fresh(fs.table.repr - old(fs.table.repr)) && fs.descriptors.Reallocated()
    ensures MoreDescriptors(old(fs.View()), fs.View())
    ensures r.Opened? ==> MayRead(fs.View(), Reader(r.fd, pid), name) && r.fd in fs.FlushedFds()
    ensures SameContents(old(fs.Stored()).files, fs.Stored().files) && old(fs.FlushedFds()) <= fs.FlushedFds()
  {
    hide FileSystem.Valid, Accounted, P.Open, MayRead, FileSystem.FreshFds, FileSystem.FlushedFds, SameContents, Files;
    hide FileSystem.Room;
    OpenedToRead(fs.View(), name, pid, fs.Room());
    fs.TablesMatch();
    fs.DescriptorCount();
    r := fs.Open(name, false, false, pid, now);
    fs.TablesMatch();
    fs.DescriptorCount();
    fs.StoredSame();
    if r.Opened? {
      fs.FlushedIs(r.fd);
    }
  }

  /** The readers can all read the file. */
  ghost predicate AllRead(fs: FileSystem, readers: seq<Reader>, name: P.Name)
    reads fs, fs.table, fs.descriptors, fs.descriptors.table, fs.descriptors.copies`buffer
  {
    forall i :: 0 <= i < |readers| ==> MayRead(fs.View(), readers[i], name) && readers[i].fd in fs.FlushedFds()
  }

  lemma {:induction false} AllStillRead(s: P.State, t: P.State, readers: seq<Reader>, name: P.Name)
    requires MoreDescriptors(s, t) && forall i :: 0 <= i < |readers| ==> MayRead(s, readers[i], name)
    ensures forall i :: 0 <= i < |readers| ==> MayRead(t, readers[i], name)
  {
    forall i | 0 <= i < |readers|
      ensures MayRead(t, readers[i], name)
    {
      StillReads(s, t, readers[i], name);
    }
  }

  /** Other processes open the file; those that can will read it. */
  method OpenAll(fs: FileSystem, name: P.Name, first: Reader, pids: seq<P.Pid>, now: Time) returns (readers: seq<Reader>)
    requires fs.Valid() && Accounted(fs.View()) && name in fs.View().files && AllRead(fs, [first], name)
    modifies fs`waits, fs.table, fs.table.repr`locked, fs.table.repr`pending
    modifies fs.table.repr`refs, fs.table.repr`refCount, fs.table.repr`ctime, fs.monitor`fileCounter, fs.monitor`filePeak
    modifies fs.descriptors, fs.descriptors.table
    modifies fs.descriptors.free`size, fs.descriptors.free`list, fs.descriptors.free.list
    ensures fs.Valid() && Accounted(fs.View()) && fs.table.size == old(fs.table.size)
    ensures fresh(fs.table.repr - old(fs.table.repr)) && fs.descriptors.Reallocated()
    ensures SameContents(old(fs.Stored()).files, fs.Stored().files)
    ensures |readers| > 0 && readers[0] == first && AllRead(fs, readers, name)
  {
    hide FileSystem.Valid, Accounted, MayRead, FileSystem.FlushedFds, SameContents, Files, MoreDescriptors;
    StaysSame(fs.Stored().files);
    readers := [first];
    var i := 0;
    while i < |pids|
      invariant fs.Valid() && Accounted(fs.View()) && fs.table.size == old(fs.table.size) && name in fs.View().files
      invariant fresh(fs.table.repr - old(fs.table.repr)) && fs.descriptors.Reallocated()
      invariant SameContents(old(fs.Stored()).files, fs.Stored().files)
      invariant |readers| > 0 && readers[0] == first && AllRead(fs, readers, name)
    {
      ghost var s, files := fs.View(), fs.Stored().files;
      var r := OpenToRead(fs, name, pids[i], now);
      AllStillRead(s, fs.View(), readers, name);
      StillStored(s, fs.View(), name);
      SameTwice(old(fs.Stored()).files, files, fs.Stored().files);
      if r.Opened? {
        readers := readers + [Reader(r.fd, pids[i])];
      }
      i := i + 1;
    }
  }

  lemma StillStored(s: P.State, t: P.State, name: P.Name)
    requires MoreDescriptors(s, t) && name in s.files
    ensures name in t.files
  {
  }

  lemma WriterReads(fs: FileSystem, fd: nat, pid: P.Pid, name: P.Name)
    requires fs.Valid() && ReadyToWrite(fs, fd, pid, name)
    ensures AllRead(fs, [Reader(fd, pid)], name) && name in fs.View().files
  {
    hide FileSystem.Valid, FileSystem.FreshFds, FileSystem.FlushedFds;
    fs.FlushedIs(fd);
  }

  lemma AllReadBack(a: Store, name: P.Name, bufs: seq<seq<Byte>>, before: seq<Store>, after: seq<Store>,
                    readers: seq<Reader>)
    requires Progress(a, name, bufs, before, after) && bufs != []
    requires forall i :: 0 <= i < |readers| ==> MayRead(a.state, readers[i], name)
    ensures forall i :: 0 <= i < |readers| ==>
      (ReadResult(a, readers[i]) == Some(Concat(bufs)) <==> HuffmanCodec.TwoDistinct(bufs[0]))
  {
    forall i | 0 <= i < |readers|
      ensures ReadResult(a, readers[i]) == Some(Concat(bufs)) <==> HuffmanCodec.TwoDistinct(bufs[0])
    {
      ReadsBack(a, name, bufs, before, after, readers[i]);
    }
  }

  /** Other processes open a file that was written, and all who have it open read it twice. */
  method OpenAndRead(fs: FileSystem, writer: Reader, others: seq<P.Pid>, now: Time, name: P.Name,
                     ghost bufs: seq<seq<Byte>>, ghost before: seq<Store>, ghost after: seq<Store>)
    returns (results: seq<Option<seq<Byte>>>)
    requires fs.Valid() && Accounted(fs.View()) && ReadyToWrite(fs, writer.fd, writer.pid, name)
    requires Progress(fs.Stored(), name, bufs, before, after) && bufs != []
    modifies fs`waits, fs.table, fs.table.repr`locked, fs.table.repr`pending, fs.table.repr`refs, fs.table.repr`refCount
    modifies fs.table.repr`size, fs.table.repr`direct, fs.table.repr`ctime, fs.monitor
    modifies fs.descriptors, fs.descriptors.table
    modifies fs.descriptors.free`size, fs.descriptors.free`list, fs.descriptors.free.list
    modifies fs.descriptors.copies`size, fs.descriptors.copies`direct
    modifies fs.descriptors.copies`buffer, fs.descriptors.copies`ctime
    ensures fs.Valid() && Accounted(fs.View()) && |results| >= 2
    ensures forall i :: 0 <= i < |results| ==>
      (results[i] == Some(Concat(bufs)) <==> HuffmanCodec.TwoDistinct(bufs[0]))
  {
    hide FileSystem.Valid, Accounted, Progress, ReadyToWrite, HuffmanCodec.TwoDistinct, Concat;
    hide SameContents, Files, FileSystem.FlushedFds, MayRead, ReadResult;
    WriterReads(fs, writer.fd, writer.pid, name);
    ghost var a := fs.Stored();
    var readers := OpenAll(fs, name, writer, others, now);
    ProgressStays(a, fs.Stored(), name, bufs, before, after);
    readers := readers + readers;
    AllReadBack(fs.Stored(), name, bufs, before, after, readers);
    results := ReadAll(fs, readers, now);
  }

  /**
   * Creates a file and writes buffers to it; then other processes open it; then it is read through all its
   * descriptors, and through all once more. If the writes succeed, which they do if there is room, every read
   * returns all that was written, if and only if the first buffer has two different bytes.
   */
  method CreateWriteRead(fs: FileSystem, name: P.Name, lock: bool, bufs: seq<seq<Byte>>, pid: P.Pid, collect: bool,
                         others: seq<P.Pid>, now: Time) returns (r: P.Outcome, results: seq<Option<seq<Byte>>>)
    requires fs.Valid() && Accounted(fs.View()) && |Concat(bufs)| <= MAX_BYTES && bufs != []
    modifies fs`waits, fs.table, fs.table.repr`locked, fs.table.repr`pending, fs.table.repr`refs, fs.table.repr`refCount
    modifies fs.table.repr`size, fs.table.repr`direct, fs.table.repr`ctime, fs.monitor
    modifies fs.descriptors, fs.descriptors.table
    modifies fs.descriptors.free`size, fs.descriptors.free`list, fs.descriptors.free.list
    modifies fs.descriptors.copies`size, fs.descriptors.copies`direct
    modifies fs.descriptors.copies`buffer, fs.descriptors.copies`ctime
    ensures fs.Valid() && Accounted(fs.View())
    ensures r == P.Done ==> |results| >= 2
    ensures r == P.Done ==>
      forall i :: 0 <= i < |results| ==> (results[i] == Some(Concat(bufs)) <==> HuffmanCodec.TwoDistinct(bufs[0]))
    ensures
      && name != "" && |old(fs.View()).fds| != P.MAX_OPEN_FILES && name !in old(fs.View()).files
      && |old(fs.View()).files| < fs.filesLimit && old(fs.table.size) != fs.memoryLimit
      && (forall i :: 0 <= i < |bufs| ==> bufs[i] != []) && old(fs.table.size) + |Concat(bufs)| <= fs.memoryLimit
      ==> r == P.Done
  {
    hide FileSystem.Valid, Accounted, Progress, ReadyToWrite, FileSystem.Room, HuffmanCodec.TwoDistinct, Concat;
    hide SameContents, Files, FileSystem.FlushedFds, MayRead;
    r := OpenToWrite(fs, name, lock, pid, now);
    if !r.Opened? {
      return r, [];
    }
    var fd := r.fd;
    ghost var before, after;
    r, before, after := WriteAll(fs, fd, bufs, pid, collect, now, name);
    if r != P.Done {
      return r, [];
    }
    results := OpenAndRead(fs, Reader(fd, pid), others, now, name, bufs, before, after);
  }
}
