/** An overdraft of one unit is a state the file system gets into: limits are checked for the new part only. */
module Overdraft {
  import opened HuffmanTree
  import opened HuffmanBuild
  import HuffmanCodec
  import opened ProtocolAccounting
  import opened Eviction
  import opened Writing
  import opened InodeModule
  import opened FileSystemModule
  import opened Scenarios
  import P = Protocol

  ghost function Repeat(b: Byte, n: nat): (s: seq<Byte>)
    ensures |s| == n && forall i :: 0 <= i < n ==> s[i] == b
  {
    seq(n, i => b)
  }

  /** One repeated byte takes up nothing. */
  lemma RepeatSize(b: Byte, n: nat, k: nat)
    requires n > 0 && HasSize(Repeat(b, n), k)
    ensures k == 0
  {
    var a :| HuffmanCodec.Encodes(a, Repeat(b, n)) && a.size == k;
    HuffmanCodec.LeafIffOneByte(a.root, Repeat(b, n));
  }

  lemma {:induction false} AtLeastOneBit(t: Tree, bs: seq<Byte>)
    requires t.Node? && Over(t, bs)
    ensures |CodeBits(t, bs)| >= |bs|
  {
    if bs != [] {
      AtLeastOneBit(t, bs[..|bs| - 1]);
    }
  }

  lemma OneMoreRepeat(bs: seq<Byte>, b: Byte, n: nat)
    ensures bs + Repeat(b, n + 1) == (bs + Repeat(b, n)) + [b] && bs + Repeat(b, 0) == bs
  {
  }

  /** A byte with a code of one bit. */
  lemma {:induction false} RepeatBits(t: Tree, bs: seq<Byte>, b: Byte, n: nat)
    requires Over(t, bs) && b in Leaves(t) && |PathTo(t, b)| == 1
    ensures Over(t, bs + Repeat(b, n)) && |CodeBits(t, bs + Repeat(b, n))| == |CodeBits(t, bs)| + n
  {
    hide CodeBits, PathTo, Leaves, Repeat;
    if n > 0 {
      RepeatBits(t, bs, b, n - 1);
      OneMoreRepeat(bs, b, n - 1);
      HuffmanCodec.OneMoreByte(t, bs + Repeat(b, n - 1), b);
    } else {
      OneMoreRepeat(bs, b, 0);
    }
  }

  /** A tree that codes 2 with one bit, and 0 and 1 with two. */
  ghost function SkewedTree(): Tree {
    Node(0, Leaf(0, 2), Node(0, Leaf(0, 0), Leaf(0, 1)))
  }

  lemma SkewedPaths()
    ensures Leaves(SkewedTree()) == [2, 0, 1]
    ensures |PathTo(SkewedTree(), 2)| == 1 && |PathTo(SkewedTree(), 0)| == |PathTo(SkewedTree(), 1)| == 2
    ensures |CodeBits(SkewedTree(), [0, 1])| == 4
  {
    var t := SkewedTree();
    assert Leaves(t.right) == [0, 1];
    assert CodeBits(t, []) == [];
    HuffmanCodec.OneMoreByte(t, [], 0);
    assert [] + [0] == [0];
    HuffmanCodec.OneMoreByte(t, [0], 1);
    assert [0] + [1] == [0, 1];
  }

  /** Two different bytes, and 32 times a third: the shortest code takes more than one word, and at most two. */
  lemma MixedSize(a: HuffmanCodec.Artifact)
    requires HuffmanCodec.Encodes(a, [0, 1] + Repeat(2, 32))
    ensures a.size == 2
  {
    var bs := [0, 1] + Repeat(2, 32);
    assert bs[0] != bs[1] && bs[2] == 2;
    HuffmanCodec.LeafIffOneByte(a.root, bs);
    AtLeastOneBit(a.root, bs);
    SkewedPaths();
    var t := SkewedTree();
    hide CodeBits, PathTo, SkewedTree;
    RepeatBits(t, [0, 1], 2, 32);
    assert IsTreeFor(t, bs);
  }

  /** Two different bytes take up one word. */
  lemma PairSize(a: HuffmanCodec.Artifact)
    requires HuffmanCodec.Encodes(a, [0, 1])
    ensures a.size == 1
  {
    assert [0, 1][0] != [0, 1][1];
    HuffmanCodec.NotLost(a, [0, 1]);
    HuffmanCodec.BitCountBound(a, [0, 1]);
  }

  // ---------- two writes ----------

  /** The first write, to an empty file in an empty memory of one unit. */
  lemma FirstWrite(a: Store, b: Store, name: P.Name, need: nat, fd: nat, pid: P.Pid, policy: Policy, collect: bool,
                   evicted: seq<EvictedFile>, r: P.Outcome)
    requires Written(1, policy, collect, fd, pid, [0, 1], need, a, b, evicted, r)
    requires P.Access(a.state, fd, pid) == P.Done && a.state.fds[fd].name == name
    requires name in a.files && a.files[name].Contents() == [] && a.files[name].size == 0 && a.size == 0
    ensures r == P.Done && b.state == a.state && b.size == 1 && name in b.files && b.files[name].size == 1
    ensures b.files[name].direct != null && b.files[name].direct.file.bytes == [0, 1]
  {
    assert HasSize([0, 1], need);
    var c :| HuffmanCodec.Encodes(c, [0, 1]) && c.size == need;
    PairSize(c);
    hide Written, HuffmanCodec.Encodes, P.Access, StoredFile.Contents;
    RoomyWrite(1, policy, collect, fd, pid, [0, 1], need, a, b, evicted, r);
    assert [] + [0, 1] == [0, 1];
    PairSize(b.files[name].direct.file.artifact);
  }

  /** The second write needs no room at all, and yet the file grows by a unit. */
  lemma SecondWrite(a: Store, b: Store, name: P.Name, need: nat, fd: nat, pid: P.Pid, policy: Policy, collect: bool,
                    evicted: seq<EvictedFile>, r: P.Outcome)
    requires Written(1, policy, collect, fd, pid, Repeat(2, 32), need, a, b, evicted, r)
    requires P.Access(a.state, fd, pid) == P.Done && a.state.fds[fd].name == name
    requires name in a.files && a.files[name].size == 1 && a.size == 1
    requires a.files[name].direct != null && a.files[name].direct.file.bytes == [0, 1]
    ensures r == P.Done && b.state == a.state && b.size == 2 && name in b.files && b.files[name].Readable()
  {
    var buf := Repeat(2, 32);
    assert HasSize(buf, need);
    RepeatSize(2, 32, need);
    hide Written, HuffmanCodec.Encodes, P.Access, Repeat;
    RoomyWrite(1, policy, collect, fd, pid, buf, need, a, b, evicted, r);
    assert [0, 1][0] != [0, 1][1];
    assert HuffmanCodec.TwoDistinct([0, 1]);
    TwoDistinctPrefix([0, 1], buf);
    MixedSize(b.files[name].direct.file.artifact);
  }

  lemma Room(fs: FileSystem)
    requires fs.View() == P.Init && fs.table.size == fs.table.count == 0 && fs.memoryLimit == 1 && fs.filesLimit == 2
    ensures fs.Room() && Accounted(fs.View()) && |fs.View().fds| != P.MAX_OPEN_FILES && fs.View().files == map[]
  {
  }

  lemma NewFile(a: Store, name: P.Name)
    requires Progress(a, name, [], [], [])
    ensures name in a.files && a.files[name].Contents() == [] && a.files[name].size == 0
  {
  }

  lemma ShortFile(f: StoredFile)
    requires f.direct != null && f.direct.file.bytes == [0, 1]
    ensures |f.Contents()| <= 2
  {
  }

  method WritePair(fs: FileSystem, fd: nat, pid: P.Pid, collect: bool, now: Time, ghost name: P.Name)
    returns (r: P.Outcome)
    requires fs.Valid() && Accounted(fs.View()) && ReadyToWrite(fs, fd, pid, name) && fs.memoryLimit == 1
    requires Progress(fs.Stored(), name, [], [], []) && fs.table.size == 0
    modifies fs`waits, fs.table, fs.table.repr`size, fs.table.repr`direct, fs.table.repr`ctime, fs.monitor
    modifies fs.descriptors.copies`size, fs.descriptors.copies`direct
    modifies fs.descriptors.copies`buffer, fs.descriptors.copies`ctime
    ensures fs.Valid() && Accounted(fs.View()) && ReadyToWrite(fs, fd, pid, name) && fs.table.repr == old(fs.table.repr)
    ensures r == P.Done && fs.table.size == 1 && name in fs.Stored().files
    ensures var f := fs.Stored().files[name]; f.size == 1 && f.direct != null && f.direct.file.bytes == [0, 1]
  {
    hide FileSystem.Valid, Accounted, P.Access, Written, FileSystem.FreshDescriptor, FileSystem.FreshFds, FileSystem.FlushedFds, Progress;
    ghost var a := fs.Stored();
    NewFile(a, name);
    AccessOpen(fs.View(), fd, pid);
    fs.FreshIs(fd, pid);
    fs.TakesBuffer(fd, pid, [0, 1]);
    var evicted;
    ghost var need;
    r, evicted, need := fs.Write(fd, [0, 1], pid, collect, now);
    FirstWrite(a, fs.Stored(), name, need, fd, pid, fs.policy, collect, evicted, r);
  }

  method WriteRepeated(fs: FileSystem, fd: nat, pid: P.Pid, collect: bool, now: Time, ghost name: P.Name)
    returns (r: P.Outcome)
    requires fs.Valid() && Accounted(fs.View()) && ReadyToWrite(fs, fd, pid, name) && fs.memoryLimit == 1
    requires fs.table.size == 1 && name in fs.Stored().files
    requires var f := fs.Stored().files[name]; f.size == 1 && f.direct != null && f.direct.file.bytes == [0, 1]
    modifies fs`waits, fs.table, fs.table.repr`size, fs.table.repr`direct, fs.table.repr`ctime, fs.monitor
    modifies fs.descriptors.copies`size, fs.descriptors.copies`direct
    modifies fs.descriptors.copies`buffer, fs.descriptors.copies`ctime
    ensures fs.Valid() && Accounted(fs.View())
    ensures r == P.Done && fs.table.size == 2 && name in fs.Stored().files && fs.Stored().files[name].Readable()
  {
    hide FileSystem.Valid, Accounted, P.Access, Written, Repeat, FileSystem.FreshDescriptor, FileSystem.FreshFds, FileSystem.FlushedFds;
    ghost var a := fs.Stored();
    var buf := seq(32, i => 2 as Byte);
    assert buf == Repeat(2, 32);
    ShortFile(a.files[name]);
    AccessOpen(fs.View(), fd, pid);
    fs.FreshIs(fd, pid);
    fs.TakesBuffer(fd, pid, buf);
    var evicted;
    ghost var need;
    r, evicted, need := fs.Write(fd, buf, pid, collect, now);
    SecondWrite(a, fs.Stored(), name, need, fd, pid, fs.policy, collect, evicted, r);
  }

  /**
   * Creates a file in a memory of one unit, and writes to it twice; no write is refused. From then on all
   * writes fail, and nothing is evicted, as `OverdraftBlocks` says, although the file could be evicted.
   */
  method Overdraw(name: P.Name, pid: P.Pid, policy: Policy, collect: bool, now: Time)
    returns (fs: FileSystem, r: P.Outcome)
    requires name != ""
    ensures fs.Valid() && Accounted(fs.View()) && fs.policy == policy && fs.memoryLimit == 1
    ensures r == P.Done && fs.table.size == fs.memoryLimit + 1
    ensures name in fs.Stored().files && fs.Stored().files[name].Readable()
  {
    hide FileSystem.Valid, Accounted, ReadyToWrite, Progress, FileSystem.Room;
    fs := new FileSystem(1, 2, policy);
    Room(fs);
    r := OpenToWrite(fs, name, false, pid, now);
    var fd := r.fd;
    r := WritePair(fs, fd, pid, collect, now, name);
    r := WriteRepeated(fs, fd, pid, collect, now, name);
  }
}
