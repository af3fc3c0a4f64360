/** The counters of gnl_simfs_monitor.c and the file table of gnl_simfs_file_table.c. */
module FileTableModule {
  import opened Wrappers
  import opened FirstFit
  import opened MinHeap
  import opened HuffmanTree
  import HuffmanCodec
  import opened InodeModule
  import opened ProtocolAccounting
  import P = Protocol

  class Monitor {
    var filePeak: nat
    var bytesPeak: nat
    var fileEvictions: nat
    var fileCounter: nat
    var bytesCounter: nat

    constructor ()
      ensures filePeak == bytesPeak == fileEvictions == fileCounter == bytesCounter == 0
    {
      filePeak, bytesPeak, fileEvictions, fileCounter, bytesCounter := 0, 0, 0, 0, 0;
    }

    method FileAdded()
      modifies `fileCounter, `filePeak
      ensures fileCounter == old(fileCounter) + 1
      ensures filePeak == if fileCounter > old(filePeak) then fileCounter else old(filePeak)
    {
      fileCounter := fileCounter + 1;
      if fileCounter > filePeak {
        filePeak := fileCounter;
      }
    }

    method FileRemoved() returns (ok: bool)
      modifies `fileCounter
      ensures ok <==> old(fileCounter) > 0
      ensures fileCounter == if ok then old(fileCounter) - 1 else old(fileCounter)
    {
      if fileCounter == 0 {
        return false;
      }
      fileCounter := fileCounter - 1;
      return true;
    }

    /** `bytes` is negative when a flush shrinks a file; the unsigned sum wraps around to the same value. */
    method BytesAdded(bytes: int)
      requires bytesCounter + bytes >= 0
      modifies `bytesCounter, `bytesPeak
      ensures bytesCounter == old(bytesCounter) + bytes
      ensures bytesPeak == if bytesCounter > old(bytesPeak) then bytesCounter else old(bytesPeak)
    {
      bytesCounter := bytesCounter + bytes;
      if bytesCounter > bytesPeak {
        bytesPeak := bytesCounter;
      }
    }

    /** Refused when no bytes are counted, even if none are to be removed. */
    method BytesRemoved(bytes: nat) returns (ok: bool)
      requires bytes <= bytesCounter
      modifies `bytesCounter
      ensures ok <==> old(bytesCounter) > 0
      ensures bytesCounter == old(bytesCounter) - bytes
    {
      if bytesCounter == 0 {
        return false;
      }
      bytesCounter := bytesCounter - bytes;
      return true;
    }

    /** The count of a removed file; when it fails, the file stays counted. */
    method Removed(bytes: nat) returns (ok: bool)
      requires bytes <= bytesCounter && fileCounter > 0
      modifies `bytesCounter, `fileCounter
      ensures ok <==> old(bytesCounter) > 0
      ensures bytesCounter == old(bytesCounter) - bytes
      ensures fileCounter == old(fileCounter) - if ok then 1 else 0
    {
      ok := BytesRemoved(bytes);
      if ok {
        ok := FileRemoved();
      }
    }

    method EvictionStarted()
      modifies `fileEvictions
      ensures fileEvictions == old(fileEvictions) + 1
    {
      fileEvictions := fileEvictions + 1;
    }
  }

  /** The sum of the sizes of the files on a list. */
  ghost function SumSizes(names: seq<P.Name>, sizes: map<P.Name, nat>): nat
    requires forall n :: n in names ==> n in sizes
  {
    if names == [] then 0 else sizes[names[0]] + SumSizes(names[1..], sizes)
  }

  lemma {:induction false} SumWithout(names: seq<P.Name>, sizes: map<P.Name, nat>, name: P.Name)
    requires forall n :: n in names ==> n in sizes
    requires name in names
    ensures forall n :: n in DeleteFirst(names, name) ==> n in sizes
    ensures SumSizes(names, sizes) == sizes[name] + SumSizes(DeleteFirst(names, name), sizes)
  {
    DeletedIsPart(names, name);
    if names[0] != name {
      SumWithout(names[1..], sizes, name);
      var r := DeleteFirst(names[1..], name);
      assert ([names[0]] + r)[1..] == r;
    }
  }

  lemma {:induction false} SumAppend(names: seq<P.Name>, sizes: map<P.Name, nat>, name: P.Name)
    requires forall n :: n in names ==> n in sizes
    requires name in sizes
    ensures SumSizes(names + [name], sizes) == SumSizes(names, sizes) + sizes[name]
  {
    if names == [] {
      assert [name][1..] == [];
    } else {
      assert (names + [name])[1..] == names[1..] + [name];
      SumAppend(names[1..], sizes, name);
    }
  }

  lemma {:induction false} SumSame(names: seq<P.Name>, sizes: map<P.Name, nat>, sizes': map<P.Name, nat>)
    requires forall n :: n in names ==> n in sizes && n in sizes' && sizes[n] == sizes'[n]
    ensures SumSizes(names, sizes) == SumSizes(names, sizes')
  {
    if names != [] {
      SumSame(names[1..], sizes, sizes');
    }
  }

  /** The list names exactly the files, `count` is its length, `size` the sum of the files' sizes. */
  ghost predicate Consistent(names: seq<P.Name>, sizes: map<P.Name, nat>, count: int, size: int) {
    && NoDuplicates(names)
    && (forall n :: n in names <==> n in sizes)
    && count == |names|
    && size == SumSizes(names, sizes)
  }

  /** Changing the size of one file. */
  lemma ResizeConsistent(names: seq<P.Name>, sizes: map<P.Name, nat>, count: int, size: int, name: P.Name, n: nat)
    requires Consistent(names, sizes, count, size) && name in sizes
    ensures Consistent(names, sizes[name := n], count, size - sizes[name] + n)
    ensures size >= sizes[name]
  {
    SumWithout(names, sizes, name);
    SumWithout(names, sizes[name := n], name);
    DeleteKeepsOrder(names, name);
    SumSame(DeleteFirst(names, name), sizes, sizes[name := n]);
  }

  lemma RemoveConsistent(names: seq<P.Name>, sizes: map<P.Name, nat>, count: int, size: int, name: P.Name)
    requires Consistent(names, sizes, count, size) && name in sizes
    ensures Consistent(DeleteFirst(names, name), sizes - {name}, count - 1, size - sizes[name])
    ensures count > 0 && size >= sizes[name]
  {
    SumWithout(names, sizes, name);
    DeleteKeepsOrder(names, name);
    var r := DeleteFirst(names, name);
    SumSame(r, sizes, sizes - {name});
    assert name in multiset(names);
    assert |multiset(r)| == |multiset(names)| - 1;
  }

  lemma AddConsistent(names: seq<P.Name>, sizes: map<P.Name, nat>, count: int, size: int, name: P.Name, n: nat)
    requires Consistent(names, sizes, count, size) && name !in sizes
    ensures Consistent(names + [name], sizes[name := n], count + 1, size + n)
  {
    SumAppend(names, sizes[name := n], name);
    SumSame(names, sizes, sizes[name := n]);
  }

  /** Both inodes point to the same block, which is not too long to take the buffer. */
  ghost predicate Shares(copy: Inode, inode: Inode)
    reads copy, inode
  {
    copy.direct == inode.direct && copy.size == inode.size && |copy.Contents()| + |copy.buffer| <= MAX_BYTES
  }

  class FileTable {
    var inodes: map<P.Name, Inode>
    var presence: seq<P.Name>
    var size: nat
    var count: nat

    /** The sizes of the files, and all inodes the table ever held. */
    ghost var sizes: map<P.Name, nat>
    ghost var repr: set<Inode>

    ghost predicate Holds(name: P.Name)
      requires name in inodes && name in sizes
      reads `inodes, `sizes, `repr, repr`size, repr`direct
    {
      && inodes[name] in repr
      && inodes[name].name == name
      && inodes[name].size == sizes[name]
      && inodes[name].Valid()
    }

    ghost predicate Valid()
      reads `inodes, `presence, `size, `count, `sizes, `repr, repr`size, repr`direct
    {
      && Consistent(presence, sizes, count, size)
      && sizes.Keys == inodes.Keys
      && forall n :: n in inodes ==> Holds(n)
    }

    /** The files as the lock protocol sees them. */
    ghost var files: map<P.Name, P.File>

    ghost predicate Matches()
      reads `inodes, `repr, `files, repr`locked, repr`refs, repr`refCount, repr`pending
    {
      && files.Keys == inodes.Keys
      && forall n :: n in inodes ==> inodes[n] in repr && inodes[n].name == n && files[n] == inodes[n].File()
    }

    /** The inode is that of a file of the table. */
    ghost predicate Stores(inode: Inode)
      reads this, inode
    {
      && inode.name in inodes && inodes[inode.name] == inode && inode in repr && inode.Valid()
      && inode.name in files && files[inode.name] == inode.File()
    }

    /** Changing what the protocol sees of one file. */
    twostate lemma FileChanged(inode: Inode)
      requires old(Matches()) && old(Stores(inode)) && files == old(files)[inode.name := inode.File()]
      requires inodes == old(inodes) && repr == old(repr)
      requires forall i :: i in repr && i != inode ==> i.File() == old(i.File())
      ensures Matches()
    {
    }

    twostate lemma FileAdded(new inode: Inode)
      requires old(Matches()) && inode in repr && old(repr) <= repr
      requires inodes == old(inodes)[inode.name := inode] && files == old(files)[inode.name := inode.File()]
      requires forall i :: i in old(repr) ==> i.File() == old(i.File())
      ensures Matches()
    {
    }

    twostate lemma FileDropped(name: P.Name)
      requires old(Matches()) && repr == old(repr)
      requires inodes == old(inodes) - {name} && files == old(files) - {name}
      requires forall i :: i in repr ==> i.File() == old(i.File())
      ensures Matches()
    {
    }

    constructor ()
      ensures Valid() && inodes == map[] && presence == [] && repr == {} && files == map[]
    {
      inodes, presence, size, count := map[], [], 0, 0;
      sizes, repr, files := map[], {}, map[];
    }

    method Get(name: P.Name) returns (inode: Inode?)
      ensures if name in inodes then inode == inodes[name] else inode == null
    {
      if name in inodes {
        return inodes[name];
      }
      return null;
    }

    /** Creates an empty file; a present name is refused. */
    method Create(name: P.Name, now: Time) returns (inode: Inode?)
      requires Valid()
      modifies `inodes, `presence, `count, `sizes, `repr
      ensures Valid()
      ensures name in old(inodes) ==> inode == null && unchanged(this)
      ensures count == old(count) + if name in old(inodes) then 0 else 1
      ensures name !in old(inodes) ==>
        && inode != null && fresh(inode) && repr == old(repr) + {inode}
        && inodes == old(inodes)[name := inode] && presence == old(presence) + [name]
        && inode.name == name && inode.btime == now && inode.direct == null && inode.size == 0
        && inode.File() == P.File(0, [], 0, 0)
    {
      hide Consistent, DeleteFirst;
      if name in inodes {
        return null;
      }
      inode := new Inode.Init(name, now);
      AddConsistent(presence, sizes, count, size, name, 0);
      presence := presence + [name];
      inodes := inodes[name := inode];
      count := count + 1;
      sizes, repr := sizes[name := 0], repr + {inode};
    }

    /** Creates a file, and keeps up with the protocol. */
    method CreateNew(name: P.Name, now: Time) returns (inode: Inode)
      requires Valid() && Matches() && name !in files
      modifies `inodes, `presence, `count, `sizes, `repr, `files
      ensures Valid() && Matches() && Stores(inode) && count == old(count) + 1
      ensures fresh(inode) && repr == old(repr) + {inode} && inode.name == name
      ensures inode.direct == null && inode.btime == now
      ensures files == old(files)[name := P.File(0, [], 0, 0)] && presence == old(presence) + [name]
      ensures inodes == old(inodes)[name := inode]
    {
      hide Consistent, Valid;
      inode := Create(name, now);
      files := files[name := inode.File()];
      FileAdded(inode);
      CreatedIsStored(inode);
    }

    lemma CreatedIsStored(inode: Inode)
      requires Valid() && Matches() && inode.name in inodes && inodes[inode.name] == inode
      ensures Stores(inode)
    {
      assert Holds(inode.name);
    }

    /** Removes a file; an absent name is refused. */
    method Remove(name: P.Name) returns (ok: bool)
      requires Valid()
      modifies `inodes, `presence, `size, `count, `sizes
      ensures Valid()
      ensures ok <==> name in old(inodes)
      ensures !ok ==> unchanged(this)
      ensures count == old(count) - if ok then 1 else 0
      ensures ok ==> inodes == old(inodes) - {name} && presence == DeleteFirst(old(presence), name)
      ensures ok ==> size == old(size) - old(inodes)[name].size
    {
      hide Consistent, DeleteFirst;
      if name !in inodes {
        return false;
      }
      RemoveConsistent(presence, sizes, count, size, name);
      presence := DeleteFirst(presence, name);
      size := size - inodes[name].size;
      inodes := inodes - {name};
      count := count - 1;
      sizes := sizes - {name};
      assert Consistent(presence, sizes, count, size);
      forall n | n in inodes
        ensures Holds(n)
      {
        assert old(Holds(n));
      }
      return true;
    }

    /** Removes a file, and keeps up with the protocol. */
    method RemoveOld(name: P.Name)
      requires Valid() && Matches() && name in files
      modifies `inodes, `presence, `size, `count, `sizes, `files
      ensures Valid() && Matches()
      ensures count == old(count) - 1 && size == old(size) - old(inodes)[name].size
      ensures files == old(files) - {name} && presence == DeleteFirst(old(presence), name)
      ensures inodes == old(inodes) - {name}
    {
      hide Consistent, Valid, DeleteFirst;
      var ok := Remove(name);
      files := files - {name};
      FileDropped(name);
    }

    /** Reads a file; its contents and its size stay, but its block is new. */
    method Read(inode: Inode, now: Time) returns (r: Option<seq<Byte>>)
      requires Valid() && Stores(inode)
      modifies inode`size, inode`direct, inode`ctime
      ensures Valid() && Stores(inode)
      ensures inode.size == old(inode.size) && inode.Contents() == old(inode.Contents())
      ensures r.Some? <==> old(inode.Readable())
      ensures r.Some? ==> r.value == inode.Contents()
      ensures old(inode.direct) == null ==> inode.direct == null
    {
      hide Consistent, HuffmanCodec.TwoDistinct, HuffmanCodec.Recovered;
      r := inode.Read(now);
      forall n | n in inodes
        ensures Holds(n)
      {
        assert old(Holds(n));
      }
    }

    /** Points an inode to a new block, and adjusts the sizes. */
    method Repoint(inode: Inode, direct: Block, bytesAdded: int)
      requires Valid() && inode.name in inodes && inode == inodes[inode.name]
      requires direct.file.artifact.size == inode.size + bytesAdded
      modifies `size, `sizes, inode`size, inode`direct
      ensures Valid() && inode.direct == direct
      ensures inode.size == old(inode.size) + bytesAdded && size == old(size) + bytesAdded
    {
      hide Consistent, DeleteFirst;
      assert Holds(inode.name);
      ghost var name, n := inode.name, inode.size + bytesAdded;
      ResizeConsistent(presence, sizes, count, size, name, n);
      inode.direct := direct;
      inode.size := inode.size + bytesAdded;
      size := size + bytesAdded;
      sizes := sizes[name := n];
      forall m | m in inodes
        ensures Holds(m)
      {
        assert old(Holds(m));
      }
    }

    /** Flushes the buffer of a copy into the file it was made from. */
    method FlushBuffer(copy: Inode, inode: Inode, now: Time)
      requires Valid() && copy.Valid() && copy !in repr
      requires copy.name in inodes && inode == inodes[copy.name]
      requires copy.buffer != [] && Shares(copy, inode)
      modifies `size, `sizes, inode`size, inode`direct
      modifies copy`size, copy`direct, copy`buffer, copy`ctime
      ensures Valid() && copy.Valid() && copy.buffer == []
      ensures copy.direct == inode.direct && copy.size == inode.size
      ensures copy.direct != null && fresh(copy.direct)
      ensures copy.direct.file.bytes == old(copy.Contents()) + old(copy.buffer)
      ensures size == old(size) - old(copy.size) + copy.size
    {
      assert Holds(copy.name);
      hide Consistent, HuffmanCodec.Recovered;
      var oldSize := copy.size;
      copy.Fflush(now);
      Repoint(inode, copy.direct, copy.size - oldSize);
    }

    /** Flushes a copy: writes its buffered bytes, if any, into the file. */
    method Fflush(copy: Inode, inode: Inode?, now: Time) returns (ok: bool)
      requires Valid() && copy.Valid() && copy !in repr
      requires if copy.name in inodes then inode == inodes[copy.name] else inode == null
      requires inode != null && copy.buffer != [] ==> Shares(copy, inode)
      modifies `size, `sizes
      modifies copy`size, copy`direct, copy`buffer, copy`ctime
      modifies (if inode == null then {} else {inode})`size, (if inode == null then {} else {inode})`direct
      modifies (if inode == null then {} else {inode})`ctime
      ensures Valid() && copy.Valid() && (ok <==> copy.name in inodes)
      ensures !ok || old(copy.buffer) == [] ==> unchanged(copy) && size == old(size)
      ensures ok && old(copy.buffer) == [] ==> inode.direct == old(inode.direct) && inode.size == old(inode.size)
      ensures ok && old(copy.buffer) != [] ==>
        && copy.direct == inode.direct && copy.size == inode.size
        && copy.direct != null && fresh(copy.direct) && copy.buffer == []
        && copy.direct.file.bytes == old(copy.Contents()) + old(copy.buffer)
        && size == old(size) - old(copy.size) + copy.size
    {
      hide Consistent, DeleteFirst;
      if inode == null {
        return false;
      }
      if |copy.buffer| > 0 {
        FlushBuffer(copy, inode, now);
      }
      inode.ctime := now;
      return true;
    }

    /** Flushes a copy with buffered bytes, and keeps up with the protocol. */
    method FflushStored(copy: Inode, inode: Inode, now: Time)
      requires Valid() && Matches() && copy.Valid() && copy !in repr
      requires Stores(inode) && inode.name == copy.name && copy.buffer != [] && Shares(copy, inode)
      modifies `size, `sizes, inode`size, inode`direct, inode`ctime
      modifies copy`size, copy`direct, copy`buffer, copy`ctime
      ensures Valid() && Matches() && Stores(inode)
      ensures copy.Valid() && copy.buffer == [] && copy.direct == inode.direct && copy.size == inode.size
      ensures copy.direct != null && copy.direct.file.bytes == old(inode.Contents()) + old(copy.buffer)
      ensures size == old(size) - old(inode.size) + inode.size
    {
      hide Valid, Matches, HuffmanCodec.Recovered;
      var ok := Fflush(copy, inode, now);
    }

    /** Flushes a copy without buffered bytes. */
    method FflushEmpty(copy: Inode, inode: Inode, now: Time)
      requires Valid() && Matches() && copy.Valid() && copy !in repr
      requires Stores(inode) && inode.name == copy.name && copy.buffer == []
      modifies `size, `sizes, inode`size, inode`direct, inode`ctime
      modifies copy`size, copy`direct, copy`buffer, copy`ctime
      ensures Valid() && Matches() && Stores(inode) && copy.Valid()
      ensures size == old(size) && inode.size == old(inode.size) && inode.direct == old(inode.direct)
      ensures copy.size == old(copy.size) && copy.direct == old(copy.direct) && copy.buffer == []
    {
      hide Valid, Matches, HuffmanCodec.Recovered, Shares;
      var ok := Fflush(copy, inode, now);
    }
  }
}
