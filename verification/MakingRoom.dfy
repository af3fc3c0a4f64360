/** When evicting files makes room for a write. */
module MakingRoom {
  import opened HuffmanTree
  import HuffmanCodec
  import opened InodeModule
  import opened FileTableModule
  import opened Eviction
  import opened Writing
  import P = Protocol

  // ---------- eviction makes room ----------

  /** A write target that a FIFO eviction leaves alone: empty, youngest, and the only file that cannot be read. */
  ghost predicate Sheltered(files: map<P.Name, StoredFile>, target: P.Name) {
    && target in files && files[target].direct == null && files[target].size == 0
    && forall n :: n in files && n != target ==> files[n].Readable() && files[n].key < files[target].key
  }

  /** The file is empty, was created after all others, and all others can be read. */
  ghost predicate Youngest(table: FileTable, target: P.Name)
    reads table, table.repr`size, table.repr`direct
  {
    && target in table.inodes && table.inodes[target] in table.repr
    && table.inodes[target].direct == null && table.inodes[target].size == 0
    && forall n :: n in table.inodes && n != target ==>
         && table.inodes[n] in table.repr && table.inodes[n].Readable()
         && table.inodes[n].btime < table.inodes[target].btime
  }

  lemma YoungestIsSheltered(table: FileTable, target: P.Name)
    requires forall n :: n in table.inodes ==> table.inodes[n] in table.repr
    ensures Sheltered(Files(table, FIFO), target) <==> Youngest(table, target)
  {
    assert forall n :: n in table.inodes <==> n in Files(table, FIFO);
  }

  lemma {:induction false} ShelteredStays(files: map<P.Name, StoredFile>, evicted: seq<EvictedFile>, target: P.Name)
    requires Sheltered(files, target) && InOrder(files, evicted)
    ensures Sheltered(FilesAfter(files, evicted), target)
    ensures forall i :: 0 <= i < |evicted| ==> evicted[i].name != target
  {
    if evicted != [] {
      ShelteredStays(files, evicted[1..], target);
      forall i | 0 <= i < |evicted|
        ensures evicted[i].name != target
      {
        if i > 0 {
          assert evicted[i] == evicted[1..][i - 1];
        }
      }
    }
  }

  /** When evicting gets stuck around a sheltered target, nothing else is left. */
  lemma ShelteredStuck(files: map<P.Name, StoredFile>, evicted: seq<EvictedFile>, target: P.Name, size: int)
    requires Sheltered(files, target) && InOrder(files, evicted) && Stuck(FilesAfter(files, evicted), size)
    ensures size == 0
  {
    ShelteredStays(files, evicted, target);
    var left := FilesAfter(files, evicted);
    var n :| IsVictim(n, left) && !left[n].Readable() && (left.Keys == {n} ==> size == left[n].size);
    assert left.Keys == {target};
  }

  /** A write to a sheltered file gets past the evictions, unless an overdraft of one unit stops it. */
  lemma ShelteredGetsRoom(limit: nat, policy: Policy, need: nat, a: Store, evicted: seq<EvictedFile>, r: P.Outcome,
                          target: P.Name)
    requires policy != NONE && need <= limit && RoomMade(limit, policy, true, need, a, evicted, r)
    requires Sheltered(a.files, target)
    ensures need <= limit - After(a, evicted).size || limit - After(a, evicted).size == -1
    ensures a.size <= limit ==> need <= limit - After(a, evicted).size
  {
    var left := After(a, evicted);
    SizeShrinks(a.size, a.files, evicted);
    if need > limit - left.size && limit - left.size != -1 {
      ShelteredStuck(a.files, evicted, target, left.size);
    }
  }

  lemma SheltersAccess(a: Store, evicted: seq<EvictedFile>, fd: nat, pid: P.Pid, target: P.Name)
    requires InOrder(a.files, evicted) && P.Access(a.state, fd, pid) == P.Done && a.state.fds[fd].name == target
    requires Sheltered(a.files, target)
    ensures P.Access(After(a, evicted).state, fd, pid) == P.Done && After(a, evicted).state.fds == a.state.fds
  {
    ShelteredStays(a.files, evicted, target);
    DescriptorsStay(a.state, evicted);
    FileStays(a.state, evicted, target);
  }

  /** The new file takes up what its buffer needs. */
  lemma EmptyFileGrows(left: Store, b: Store, target: P.Name, buf: seq<Byte>, need: nat)
    requires Sheltered(left.files, target) && Appended(left, b, target, buf) && HasSize(buf, need)
    ensures b.files[target].direct.file.bytes == buf && b.size == left.size + need
  {
    var e := b.files[target].direct.file;
    assert e.bytes == buf;
    var c :| HuffmanCodec.Encodes(c, buf) && c.size == need;
    HuffmanCodec.SameSize(e.artifact, c, buf);
  }

  /**
   * Eviction makes room. The target of the write is empty and has the greatest key, for FIFO the latest
   * birth time, and every other file can be read. If the buffer fits into the memory at all, and the memory
   * is not overdrawn, the write evicts only other files, least keys first, succeeds, and stays within the limit.
   */
  lemma EvictionMakesRoom(limit: nat, policy: Policy, fd: nat, pid: P.Pid, buf: seq<Byte>, need: nat,
                          a: Store, b: Store, evicted: seq<EvictedFile>, r: P.Outcome, target: P.Name)
    requires Written(limit, policy, true, fd, pid, buf, need, a, b, evicted, r)
    requires policy != NONE && buf != [] && need <= limit
    requires P.Access(a.state, fd, pid) == P.Done && a.state.fds[fd].name == target && Sheltered(a.files, target)
    ensures forall i :: 0 <= i < |evicted| ==> evicted[i].name != target
    ensures r == P.Done || (r == P.Failed(P.EUNSET) && b.size == limit + 1)
    ensures r == P.Done ==> b.size <= limit && target in b.files && b.files[target].direct != null
    ensures r == P.Done ==> b.files[target].direct.file.bytes == buf
    ensures a.size <= limit ==> r == P.Done
  {
    ShelteredStays(a.files, evicted, target);
    SheltersAccess(a, evicted, fd, pid, target);
    var left := After(a, evicted);
    if need > limit - left.size {
      ShelteredGetsRoom(limit, policy, need, a, evicted, r, target);
    } else {
      EmptyFileGrows(left, b, target, buf, need);
    }
  }

  // ---------- an overdraft of one unit ----------

  ghost function TotalSize(files: map<P.Name, StoredFile>): nat
    decreases files.Keys
  {
    if files.Keys == {} then 0
    else
      var n :| n in files.Keys;
      files[n].size + TotalSize(files - {n})
  }

  lemma {:induction false} TotalWithout(files: map<P.Name, StoredFile>, n: P.Name)
    requires n in files
    ensures TotalSize(files) == files[n].size + TotalSize(files - {n})
    decreases files.Keys
  {
    var m :| m in files.Keys && TotalSize(files) == files[m].size + TotalSize(files - {m});
    if m != n {
      TotalWithout(files - {m}, n);
      TotalWithout(files - {n}, m);
      assert files - {m} - {n} == files - {n} - {m};
    }
  }

  /** More files are at least as large. */
  lemma {:induction false} TotalGrows(files: map<P.Name, StoredFile>, more: map<P.Name, StoredFile>)
    requires files.Keys <= more.Keys && forall n :: n in files ==> more[n] == files[n]
    ensures TotalSize(files) <= TotalSize(more)
    decreases files.Keys
  {
    if files.Keys != {} {
      var n :| n in files.Keys;
      TotalWithout(files, n);
      TotalWithout(more, n);
      TotalGrows(files - {n}, more - {n});
    }
  }

  /** The files that were evicted. */
  ghost function Gone(files: map<P.Name, StoredFile>, evicted: seq<EvictedFile>): map<P.Name, StoredFile> {
    files - FilesAfter(files, evicted).Keys
  }

  lemma {:induction false} SizeOfGone(size: int, files: map<P.Name, StoredFile>, evicted: seq<EvictedFile>)
    requires InOrder(files, evicted)
    ensures SizeAfter(size, files, evicted) == size - TotalSize(Gone(files, evicted))
  {
    if evicted == [] {
      assert Gone(files, evicted) == map[];
    } else {
      SizeOfGone(size, files, evicted[1..]);
      LeftAsBefore(files, evicted[1..]);
      var name := evicted[0].name;
      assert Gone(files, evicted) - {name} == Gone(files, evicted[1..]);
      TotalWithout(Gone(files, evicted), name);
    }
  }

  /** The files whose key is at most `key`. */
  ghost function UpTo(files: map<P.Name, StoredFile>, key: int): map<P.Name, StoredFile> {
    map n | n in files && files[n].key <= key :: files[n]
  }

  ghost predicate DistinctKeys(files: map<P.Name, StoredFile>) {
    forall m, n :: m in files && n in files && m != n ==> files[m].key != files[n].key
  }

  /**
   * The memory is overdrawn by one unit, or would be once all files up to some key were evicted.
   */
  ghost predicate OneTooMany(limit: nat, a: Store) {
    || a.size == limit + 1
    || exists n :: n in a.files && a.size - TotalSize(UpTo(a.files, a.files[n].key)) == limit + 1
  }

  /** A part of the files that has, with a file, every file of a smaller key: what eviction may have taken. */
  ghost predicate LowKeys(part: map<P.Name, StoredFile>, files: map<P.Name, StoredFile>) {
    && (forall n :: n in part ==> n in files && part[n] == files[n])
    && forall m, n :: m in files && n in part && files[m].key < files[n].key ==> m in part
  }

  lemma GoneLowKeys(files: map<P.Name, StoredFile>, evicted: seq<EvictedFile>)
    requires InOrder(files, evicted)
    ensures LowKeys(Gone(files, evicted), files)
  {
    LeftAsBefore(files, evicted);
    forall m, n | m in files && n in Gone(files, evicted) && files[m].key < files[n].key
      ensures m in Gone(files, evicted)
    {
      EvictedBecauseGone(files, evicted, n);
      var j :| 0 <= j < |evicted| && evicted[j].name == n;
      LeastAtItsTurn(files, evicted, j);
    }
  }

  lemma {:induction false} EvictedBecauseGone(files: map<P.Name, StoredFile>, evicted: seq<EvictedFile>, n: P.Name)
    requires n in Gone(files, evicted)
    ensures exists j :: 0 <= j < |evicted| && evicted[j].name == n
  {
    if evicted != [] {
      if evicted[0].name != n {
        EvictedBecauseGone(files, evicted[1..], n);
        var j :| 0 <= j < |evicted[1..]| && evicted[1..][j].name == n;
        assert evicted[j + 1].name == n;
      }
    }
  }

  /** Nothing is evicted from a memory overdrawn by one unit. */
  lemma {:induction false} NoneFromOneTooMany(limit: nat, policy: Policy, collect: bool, need: nat, a: Store,
                                              evicted: seq<EvictedFile>)
    requires InOrder(a.files, evicted) && Needed(limit, policy, collect, need, a, evicted) && a.size == limit + 1
    ensures evicted == []
  {
    if evicted != [] {
      NoneFromOneTooMany(limit, policy, collect, need, a, evicted[1..]);
    }
  }

  /** Evicting stops when it has made the overdraft one unit. */
  lemma {:induction false} StopsAtOneTooMany(limit: nat, policy: Policy, collect: bool, need: nat, a: Store,
                                             evicted: seq<EvictedFile>, key: int)
    requires InOrder(a.files, evicted) && Needed(limit, policy, collect, need, a, evicted)
    requires a.size - TotalSize(UpTo(a.files, key)) == limit + 1
    ensures Gone(a.files, evicted).Keys <= UpTo(a.files, key).Keys
  {
    if evicted != [] {
      StopsAtOneTooMany(limit, policy, collect, need, a, evicted[1..], key);
      LeftAsBefore(a.files, evicted[1..]);
      var name := evicted[0].name;
      if a.files[name].key > key {
        assert Gone(a.files, evicted[1..]) == UpTo(a.files, key);
        SizeOfGone(a.size, a.files, evicted[1..]);
        assert false;
      }
    }
  }

  /** With distinct keys, the files evicted are those up to the key of the last. */
  lemma GoneUpTo(files: map<P.Name, StoredFile>, evicted: seq<EvictedFile>)
    requires InOrder(files, evicted) && evicted != [] && DistinctKeys(files)
    ensures evicted[0].name in files && Gone(files, evicted) == UpTo(files, files[evicted[0].name].key)
  {
    var name := evicted[0].name;
    LeftAsBefore(files, evicted[1..]);
    LeftAsBefore(files, evicted);
    GoneKeys(files, evicted);
    assert name !in FilesAfter(files, evicted);
  }

  /** Whatever was evicted had a key no greater than the last victim's. */
  lemma {:induction false} GoneKeys(files: map<P.Name, StoredFile>, evicted: seq<EvictedFile>)
    requires InOrder(files, evicted) && evicted != []
    ensures evicted[0].name in files
    ensures forall n :: n in Gone(files, evicted) ==> files[n].key <= files[evicted[0].name].key
  {
    LeftAsBefore(files, evicted[1..]);
    if evicted[1..] != [] {
      GoneKeys(files, evicted[1..]);
      LeastFirst(files, evicted, 0, 1);
    }
  }

  /**
   * When exactly a write to a sheltered file fails, told from the state before the call: if the memory is
   * overdrawn by one unit, or would be after evicting all files up to some key. With equal keys the order
   * of eviction is open; then it fails if this holds, and only if some files of low keys leave that overdraft.
   */
  lemma EvictionFailsIff(limit: nat, policy: Policy, fd: nat, pid: P.Pid, buf: seq<Byte>, need: nat,
                         a: Store, b: Store, evicted: seq<EvictedFile>, r: P.Outcome, target: P.Name)
    requires Written(limit, policy, true, fd, pid, buf, need, a, b, evicted, r)
    requires policy != NONE && buf != [] && need <= limit
    requires P.Access(a.state, fd, pid) == P.Done && a.state.fds[fd].name == target && Sheltered(a.files, target)
    ensures OneTooMany(limit, a) ==> r != P.Done
    ensures r != P.Done ==> exists part :: LowKeys(part, a.files) && a.size - TotalSize(part) == limit + 1
    ensures DistinctKeys(a.files) ==> (r != P.Done <==> OneTooMany(limit, a))
  {
    hide Appended, Sheltered, LowKeys, OneTooMany, DistinctKeys, Needed, Stuck, IsEvicted;
    FailsOverdrawn(limit, policy, fd, pid, buf, need, a, b, evicted, r, target);
    SizeOfGone(a.size, a.files, evicted);
    GoneLowKeys(a.files, evicted);
    if OneTooMany(limit, a) {
      StaysOverdrawn(limit, policy, true, need, a, evicted);
    }
    if r != P.Done && DistinctKeys(a.files) {
      OverdrawnAfter(limit, a, evicted);
    }
  }

  /** The write fails exactly if it ends up with an overdraft, and then it is one of one unit. */
  lemma FailsOverdrawn(limit: nat, policy: Policy, fd: nat, pid: P.Pid, buf: seq<Byte>, need: nat,
                       a: Store, b: Store, evicted: seq<EvictedFile>, r: P.Outcome, target: P.Name)
    requires Written(limit, policy, true, fd, pid, buf, need, a, b, evicted, r)
    requires policy != NONE && buf != [] && need <= limit
    requires P.Access(a.state, fd, pid) == P.Done && a.state.fds[fd].name == target && Sheltered(a.files, target)
    ensures InOrder(a.files, evicted) && Needed(limit, policy, true, need, a, evicted)
    ensures r != P.Done ==> SizeAfter(a.size, a.files, evicted) == limit + 1
    ensures r == P.Done ==> SizeAfter(a.size, a.files, evicted) <= limit
  {
    hide Appended, Sheltered;
    EvictionMakesRoom(limit, policy, fd, pid, buf, need, a, b, evicted, r, target);
    RoomOrNot(limit, policy, fd, pid, buf, need, a, b, evicted, r);
  }

  lemma OverdrawnAfter(limit: nat, a: Store, evicted: seq<EvictedFile>)
    requires InOrder(a.files, evicted) && DistinctKeys(a.files) && SizeAfter(a.size, a.files, evicted) == limit + 1
    ensures OneTooMany(limit, a)
  {
    if evicted != [] {
      SizeOfGone(a.size, a.files, evicted);
      GoneUpTo(a.files, evicted);
    }
  }

  /** Once the memory is overdrawn by one unit every write fails that is not refused as too big, and nothing is evicted. */
  lemma OverdraftBlocks(limit: nat, policy: Policy, collect: bool, fd: nat, pid: P.Pid, buf: seq<Byte>, need: nat,
                        a: Store, b: Store, evicted: seq<EvictedFile>, r: P.Outcome)
    requires Written(limit, policy, collect, fd, pid, buf, need, a, b, evicted, r)
    requires buf != [] && need <= limit && a.size == limit + 1
    ensures r == P.Failed(P.EUNSET) && evicted == [] && b.state == a.state && b.size == a.size
  {
    hide Stuck, P.Access, HasSize;
    NoneFromOneTooMany(limit, policy, collect, need, a, evicted);
  }

  lemma RoomOrNot(limit: nat, policy: Policy, fd: nat, pid: P.Pid, buf: seq<Byte>, need: nat,
                  a: Store, b: Store, evicted: seq<EvictedFile>, r: P.Outcome)
    requires InOrder(a.files, evicted) && RoomAndAccess(limit, policy, true, fd, pid, buf, need, a, b, evicted, r)
    ensures need > limit - SizeAfter(a.size, a.files, evicted) ==>
      r != P.Done && b.size == SizeAfter(a.size, a.files, evicted)
    ensures need <= limit - SizeAfter(a.size, a.files, evicted) ==> r == P.Access(StateAfter(a.state, evicted), fd, pid)
  {
    hide Appended, Stuck, Needed, IsEvicted, P.Access;
  }

  lemma StaysOverdrawn(limit: nat, policy: Policy, collect: bool, need: nat, a: Store, evicted: seq<EvictedFile>)
    requires InOrder(a.files, evicted) && Needed(limit, policy, collect, need, a, evicted) && OneTooMany(limit, a)
    ensures SizeAfter(a.size, a.files, evicted) > limit
  {
    if a.size == limit + 1 {
      NoneFromOneTooMany(limit, policy, collect, need, a, evicted);
    } else {
      var n :| n in a.files && a.size - TotalSize(UpTo(a.files, a.files[n].key)) == limit + 1;
      StopsAtOneTooMany(limit, policy, collect, need, a, evicted, a.files[n].key);
      SizeOfGone(a.size, a.files, evicted);
      TotalGrows(Gone(a.files, evicted), UpTo(a.files, a.files[n].key));
    }
  }
}
