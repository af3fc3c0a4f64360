/** The choice of victims in gnl_simfs_file_system_rts.c, and what a sequence of evictions leaves. */
module Eviction {
  import opened MinHeap
  import opened HuffmanTree
  import HuffmanCodec
  import opened InodeModule
  import opened FileTableModule
  import opened ProtocolAccounting
  import P = Protocol

  datatype Policy = NONE | FIFO | LIFO | LRU | MRU | LFU

  /** The file with the least key is evicted first. */
  function Key(policy: Policy, inode: Inode): (k: int)
    reads inode`ctime, inode`refCount
  {
    match policy
    case NONE => 0
    case FIFO => inode.btime
    case LIFO => -1 * inode.btime as int
    case LRU => inode.ctime
    case MRU => -1 * inode.ctime as int
    case LFU => inode.refCount
  }

  /** What the policies stand for: by age, by the last change, or by the number of references. */
  ghost predicate GoesFirst(policy: Policy, victim: Inode, inode: Inode)
    reads victim`ctime, victim`refCount, inode`ctime, inode`refCount
  {
    && (policy == FIFO ==> victim.btime <= inode.btime)
    && (policy == LIFO ==> victim.btime >= inode.btime)
    && (policy == LRU ==> victim.ctime <= inode.ctime)
    && (policy == MRU ==> victim.ctime >= inode.ctime)
    && (policy == LFU ==> victim.refCount <= inode.refCount)
  }

  lemma LeastKeyGoesFirst(policy: Policy, victim: Inode, inode: Inode)
    ensures policy != NONE ==> (GoesFirst(policy, victim, inode) <==> Key(policy, victim) <= Key(policy, inode))
  {
  }

  /** A victim goes before every other file. */
  lemma VictimGoesFirst(table: FileTable, policy: Policy, victim: Inode)
    requires IsVictim(victim.name, Files(table, policy)) && Files(table, policy)[victim.name].inode == victim
    requires forall n :: n in table.inodes ==> table.inodes[n] in table.repr
    ensures forall n :: n in table.inodes ==> GoesFirst(policy, victim, table.inodes[n])
  {
    forall n | n in table.inodes
      ensures GoesFirst(policy, victim, table.inodes[n])
    {
      assert n in Files(table, policy);
      LeastKeyGoesFirst(policy, victim, table.inodes[n]);
    }
  }

  /** All reference counts fit into an `int`. */
  ghost predicate CountsFit(files: map<P.Name, P.File>) {
    forall n :: n in files ==> files[n].refCount <= INT_MAX
  }

  /** In every run they do, because the descriptor table bounds them. */
  lemma AccountedFit(s: P.State)
    requires Accounted(s) && |s.fds| <= P.MAX_OPEN_FILES
    ensures CountsFit(s.files)
  {
    forall n | n in s.files
      ensures s.files[n].refCount <= INT_MAX
    {
      ReferencesFit(s, n);
    }
  }

  /** A victim of the eviction, as handed to the caller of a write. */
  datatype EvictedFile = EvictedFile(name: P.Name, bytes: seq<Byte>)

  /** A stored file: its inode, and what matters for reading and evicting it. */
  datatype StoredFile = StoredFile(inode: Inode, size: nat, direct: Block?, key: int) {
    ghost predicate Readable() {
      direct != null && HuffmanCodec.TwoDistinct(direct.file.bytes)
    }

    ghost function Contents(): seq<Byte> {
      if direct == null then [] else HuffmanCodec.Recovered(direct.file.bytes)
    }

    /** It holds one repeated byte; the first attempt to read it loses the block. */
    ghost predicate Spoiled() {
      direct != null && !HuffmanCodec.TwoDistinct(direct.file.bytes)
    }
  }

  /** The files have the same sizes and contents. */
  ghost predicate SameContents(files: map<P.Name, StoredFile>, files': map<P.Name, StoredFile>) {
    && files'.Keys == files.Keys
    && forall n :: n in files ==> files'[n].size == files[n].size && files'[n].Contents() == files[n].Contents()
  }

  /** The files have the same sizes and blocks, except the files in `except`; some may be gone. */
  ghost predicate SameBlocks(files: map<P.Name, StoredFile>, files': map<P.Name, StoredFile>, except: set<P.Name>) {
    forall n :: n in files' && n !in except ==>
      n in files && files'[n].size == files[n].size && files'[n].direct == files[n].direct
  }

  ghost function SpoiledFiles(files: map<P.Name, StoredFile>): set<P.Name> {
    set n | n in files && files[n].Spoiled()
  }

  /** What a failed attempt to read a file may change. */
  ghost predicate Reread(files: map<P.Name, StoredFile>, files': map<P.Name, StoredFile>) {
    SameContents(files, files') && SameBlocks(files, files', SpoiledFiles(files))
  }

  ghost function Files(table: FileTable, policy: Policy): map<P.Name, StoredFile>
    reads table, table.repr`size, table.repr`direct, table.repr`ctime, table.repr`refCount
  {
    map n | n in table.inodes && table.inodes[n] in table.repr ::
      StoredFile(table.inodes[n], table.inodes[n].size, table.inodes[n].direct, Key(policy, table.inodes[n]))
  }

  /** No file has a smaller key. */
  ghost predicate IsVictim(name: P.Name, files: map<P.Name, StoredFile>) {
    name in files && forall n :: n in files ==> files[name].key <= files[n].key
  }

  lemma SameFiles(files: map<P.Name, StoredFile>)
    ensures Reread(files, files) && SameBlocks(files, files, {})
  {
  }

  /** One file was read. */
  lemma OneFileRead(files: map<P.Name, StoredFile>, files': map<P.Name, StoredFile>, name: P.Name)
    requires name in files && name in files' && files - {name} == files' - {name}
    requires files[name].size == files'[name].size && files[name].Contents() == files'[name].Contents()
    ensures SameContents(files, files') && SameBlocks(files, files', {name})
  {
    forall n | n in files || n in files'
      ensures n in files && n in files'
      ensures files'[n].size == files[n].size && files'[n].Contents() == files[n].Contents()
      ensures n != name ==> files'[n].direct == files[n].direct
    {
      if n != name {
        assert n in files <==> n in files - {name};
        assert n in files' <==> n in files' - {name};
      }
    }
  }

  // ---------- sequences of evictions ----------

  /** The files left after evictions; the latest victim comes first, as in the list of the caller. */
  ghost function FilesAfter(files: map<P.Name, StoredFile>, evicted: seq<EvictedFile>): map<P.Name, StoredFile> {
    if evicted == [] then files else FilesAfter(files, evicted[1..]) - {evicted[0].name}
  }

  ghost function StateAfter(s: P.State, evicted: seq<EvictedFile>): P.State {
    if evicted == [] then s else P.Without(StateAfter(s, evicted[1..]), evicted[0].name)
  }

  /** Every victim had a least key among the files left, and was handed over with its contents. */
  ghost predicate InOrder(files: map<P.Name, StoredFile>, evicted: seq<EvictedFile>) {
    evicted == [] ||
    (InOrder(files, evicted[1..]) && IsEvicted(FilesAfter(files, evicted[1..]), evicted[0]))
  }

  /** The file may be evicted next. */
  ghost predicate IsEvicted(files: map<P.Name, StoredFile>, file: EvictedFile) {
    && IsVictim(file.name, files) && files[file.name].Readable()
    && file.bytes == files[file.name].Contents()
  }

  ghost function SizeAfter(size: int, files: map<P.Name, StoredFile>, evicted: seq<EvictedFile>): int
    requires InOrder(files, evicted)
  {
    if evicted == [] then size
    else SizeAfter(size, files, evicted[1..]) - FilesAfter(files, evicted[1..])[evicted[0].name].size
  }

  /** No further file can be evicted: a file of least key cannot be read, or there is no file. */
  ghost predicate Stuck(files: map<P.Name, StoredFile>, size: int) {
    || (files == map[] && size == 0)
    || exists n :: IsVictim(n, files) && !files[n].Readable() && (files.Keys == {n} ==> size == files[n].size)
  }

  lemma OneMoreEvicted(files: map<P.Name, StoredFile>, s: P.State, size: int, evicted: seq<EvictedFile>, file: EvictedFile)
    requires InOrder(files, evicted) && IsEvicted(FilesAfter(files, evicted), file)
    ensures InOrder(files, [file] + evicted)
    ensures FilesAfter(files, [file] + evicted) == FilesAfter(files, evicted) - {file.name}
    ensures StateAfter(s, [file] + evicted) == P.Without(StateAfter(s, evicted), file.name)
    ensures SizeAfter(size, files, [file] + evicted) ==
            SizeAfter(size, files, evicted) - FilesAfter(files, evicted)[file.name].size
  {
    assert ([file] + evicted)[1..] == evicted;
  }

  lemma FewerFiles(s: P.State, name: P.Name)
    requires name in s.files
    ensures |P.Without(s, name).files| < |s.files|
    ensures CountsFit(s.files) ==> CountsFit(P.Without(s, name).files)
  {
    assert P.Without(s, name).files.Keys == s.files.Keys - {name};
    assert |P.Without(s, name).files.Keys| == |s.files.Keys| - 1;
    assert |s.files| == |s.files.Keys| && |P.Without(s, name).files| == |P.Without(s, name).files.Keys|;
  }

  lemma {:induction false} LeftAsBefore(files: map<P.Name, StoredFile>, evicted: seq<EvictedFile>)
    ensures forall n :: n in FilesAfter(files, evicted) ==> n in files && FilesAfter(files, evicted)[n] == files[n]
  {
    if evicted != [] {
      LeftAsBefore(files, evicted[1..]);
    }
  }

  lemma {:induction false} DescriptorsStay(s: P.State, evicted: seq<EvictedFile>)
    ensures StateAfter(s, evicted).fds == s.fds && StateAfter(s, evicted).waits.Keys == s.waits.Keys
    ensures StateAfter(s, evicted).files.Keys <= s.files.Keys
  {
    if evicted != [] {
      DescriptorsStay(s, evicted[1..]);
    }
  }

  lemma {:induction false} SizeShrinks(size: int, files: map<P.Name, StoredFile>, evicted: seq<EvictedFile>)
    requires InOrder(files, evicted)
    ensures SizeAfter(size, files, evicted) <= size
  {
    if evicted != [] {
      SizeShrinks(size, files, evicted[1..]);
    }
  }

  lemma {:induction false} FileStays(s: P.State, evicted: seq<EvictedFile>, name: P.Name)
    requires name in s.files && forall i :: 0 <= i < |evicted| ==> evicted[i].name != name
    ensures name in StateAfter(s, evicted).files && StateAfter(s, evicted).files[name] == s.files[name]
  {
    if evicted != [] {
      forall i | 0 <= i < |evicted[1..]|
        ensures evicted[1..][i].name != name
      {
        assert evicted[1..][i] == evicted[i + 1];
      }
      FileStays(s, evicted[1..], name);
    }
  }

  /** Files are evicted in the order of their keys; the latest comes first in the list. */
  lemma {:induction false} LeastFirst(files: map<P.Name, StoredFile>, evicted: seq<EvictedFile>, i: nat, j: nat)
    requires InOrder(files, evicted) && i < j < |evicted|
    ensures evicted[i].name in files && evicted[j].name in files
    ensures files[evicted[j].name].key <= files[evicted[i].name].key
    decreases |evicted|
  {
    if i > 0 {
      LeastFirst(files, evicted[1..], i - 1, j - 1);
    } else {
      LeastAtItsTurn(files, evicted, j);
      LeftAsBefore(files, evicted[1..]);
    }
  }

  /** A file evicted earlier had a key no greater than any file left. */
  lemma {:induction false} LeastAtItsTurn(files: map<P.Name, StoredFile>, evicted: seq<EvictedFile>, j: nat)
    requires InOrder(files, evicted) && j < |evicted|
    ensures evicted[j].name in files
    ensures forall n :: n in FilesAfter(files, evicted) ==> n in files && files[evicted[j].name].key <= files[n].key
    ensures j > 0 ==> evicted[0].name in files && files[evicted[j].name].key <= files[evicted[0].name].key
    decreases |evicted|
  {
    LeftAsBefore(files, evicted);
    LeftAsBefore(files, evicted[1..]);
    if j > 0 {
      LeastAtItsTurn(files, evicted[1..], j - 1);
    }
  }

  // ---------- choosing a victim ----------

  ghost predicate Fits(key: int) {
    -INT_MAX - 1 <= key <= INT_MAX
  }

  /** The heap entries of the files, in the order of a list of their names. */
  ghost predicate AreEntries(es: seq<Entry<Inode>>, names: seq<P.Name>, files: map<P.Name, StoredFile>) {
    && |es| == |names|
    && forall i :: 0 <= i < |es| ==>
         names[i] in files && es[i].data == files[names[i]].inode && es[i].key == files[names[i]].key
  }

  lemma EntriesOf(names: seq<P.Name>, files: map<P.Name, StoredFile>) returns (es: seq<Entry<Inode>>)
    requires forall n :: n in names ==> n in files && Fits(files[n].key)
    ensures AreEntries(es, names, files)
  {
    es := seq(|names|, i requires 0 <= i < |names| && names[i] in files && Fits(files[names[i]].key) =>
      Entry(files[names[i]].inode, files[names[i]].key));
  }

  /** The file of a least entry has a least key. */
  lemma LeastEntryIsVictim(es: seq<Entry<Inode>>, names: seq<P.Name>, files: map<P.Name, StoredFile>, e: Entry<Inode>)
    requires (forall n :: n in files ==> n in names && files[n].inode.name == n)
    requires AreEntries(es, names, files) && LeastOf(e, multiset(es))
    ensures IsVictim(e.data.name, files) && files[e.data.name].inode == e.data
  {
    var i :| 0 <= i < |es| && es[i] == e;
    forall n | n in files
      ensures e.key <= files[n].key
    {
      var j :| 0 <= j < |es| && names[j] == n;
      assert es[j] in multiset(es);
    }
  }

  /** The list names the files of the table, and their keys fit into an `int`. */
  lemma FilesListed(table: FileTable, policy: Policy)
    requires table.Valid() && table.Matches() && CountsFit(table.files)
    ensures forall n :: n in table.inodes ==> table.inodes[n] in table.repr
    ensures forall n :: n in table.presence <==> n in Files(table, policy)
    ensures forall n :: n in Files(table, policy) ==>
      Fits(Files(table, policy)[n].key) && Files(table, policy)[n].inode.name == n
  {
    forall n
      ensures n in table.presence <==> n in Files(table, policy)
      ensures n in Files(table, policy) ==>
        Fits(Files(table, policy)[n].key) && Files(table, policy)[n].inode.name == n
    {
      assert n in table.inodes ==> table.Holds(n);
    }
  }

  lemma FileOf(table: FileTable, policy: Policy, n: P.Name)
    requires n in Files(table, policy)
    ensures n in table.inodes && Files(table, policy)[n].inode == table.inodes[n]
    ensures Files(table, policy)[n].key == Key(policy, table.inodes[n])
  {
  }

  lemma OneMoreEntry(es: seq<Entry<Inode>>, i: nat)
    requires i < |es|
    ensures multiset(es[..i + 1]) == multiset(es[..i]) + multiset{es[i]}
  {
    assert es[..i + 1] == es[..i] + [es[i]];
  }

  method BuildVictimHeap(table: FileTable, policy: Policy, ghost es: seq<Entry<Inode>>) returns (heap: Heap<Inode>)
    requires AreEntries(es, table.presence, Files(table, policy))
    ensures fresh(heap) && fresh(heap.list) && heap.Valid()
    ensures heap.size == |es| && heap.Contents() == multiset(es)
  {
    heap := new Heap<Inode>();
    hide Heap.Valid, Heap.Contents, Key, Files;
    var i := 0;
    while i < |table.presence|
      invariant i <= |es| && fresh(heap) && fresh(heap.list) && heap.Valid() && heap.size == i
      invariant heap.Contents() == multiset(es[..i])
    {
      FileOf(table, policy, table.presence[i]);
      OneMoreEntry(es, i);
      var inode := table.inodes[table.presence[i]];
      heap.Insert(inode, Key(policy, inode));
      i := i + 1;
    }
    assert es[..i] == es;
  }

  /** The file of least key, if there is a file. */
  method LeastFile(table: FileTable, policy: Policy) returns (victim: Inode?)
    requires table.Valid() && table.Matches() && CountsFit(table.files)
    ensures victim == null <==> table.presence == []
    ensures victim != null ==>
      IsVictim(victim.name, Files(table, policy)) && Files(table, policy)[victim.name].inode == victim
  {
    hide Heap.Valid, Heap.Contents, FileTable.Valid, FileTable.Matches, CountsFit, LeastOf, IsVictim, Files;
    ghost var files := Files(table, policy);
    FilesListed(table, policy);
    ghost var es := EntriesOf(table.presence, files);
    var heap := BuildVictimHeap(table, policy, es);
    var min, key := heap.ExtractMin();
    if min.None? {
      return null;
    }
    victim := min.value;
    LeastEntryIsVictim(es, table.presence, files, Entry(victim, key));
  }

  /** The file that goes first under the policy, if there is a file. */
  method SelectVictim(table: FileTable, policy: Policy) returns (victim: Inode?)
    requires table.Valid() && table.Matches() && CountsFit(table.files)
    ensures victim == null <==> table.presence == []
    ensures victim != null ==>
      IsVictim(victim.name, Files(table, policy)) && Files(table, policy)[victim.name].inode == victim
    ensures victim != null ==>
      forall n :: n in table.inodes ==> GoesFirst(policy, victim, table.inodes[n])
  {
    hide FileTable.Valid, FileTable.Matches, CountsFit, IsVictim, Files, GoesFirst;
    FilesListed(table, policy);
    victim := LeastFile(table, policy);
    if victim != null {
      VictimGoesFirst(table, policy, victim);
    }
  }
}
