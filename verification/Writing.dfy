/** What a write does in gnl_simfs_file_system.c, as a run of the protocol, and writes one after the other. */
module Writing {
  import opened MinHeap
  import opened HuffmanTree
  import HuffmanCodec
  import opened Eviction
  import P = Protocol

  // ---------- what a write does ----------

  /** The stored files, the state of the protocol and the total size. */
  datatype Store = Store(files: map<P.Name, StoredFile>, state: P.State, size: int)

  ghost function After(a: Store, evicted: seq<EvictedFile>): Store
    requires InOrder(a.files, evicted)
  {
    Store(FilesAfter(a.files, evicted), StateAfter(a.state, evicted), SizeAfter(a.size, a.files, evicted))
  }

  /** Whether `write` gets as far as evicting a file. An overdraft of exactly one unit passes for an error. */
  predicate CanEvict(limit: nat, policy: Policy, collect: bool, size: int) {
    limit - size != -1 && policy != NONE && collect
  }

  function GaveUp(limit: nat, policy: Policy, collect: bool, size: int): P.Outcome {
    if limit - size == -1 then P.Failed(P.EUNSET)
    else if policy == NONE then P.Failed(P.EDQUOT)
    else if !collect then P.Failed(P.EINVAL)
    else P.Failed(P.EUNSET)
  }

  /** Every file was evicted while room was missing, and when nothing stood against evicting it. */
  ghost predicate Needed(limit: nat, policy: Policy, collect: bool, need: nat, a: Store, evicted: seq<EvictedFile>)
    requires InOrder(a.files, evicted)
  {
    evicted == [] ||
    (Needed(limit, policy, collect, need, a, evicted[1..]) &&
     var size := SizeAfter(a.size, a.files, evicted[1..]);
     need > limit - size && CanEvict(limit, policy, collect, size))
  }

  lemma NothingNeeded(limit: nat, policy: Policy, collect: bool, need: nat, a: Store)
    ensures InOrder(a.files, []) && Needed(limit, policy, collect, need, a, []) && After(a, []) == a
  {
  }

  lemma NeededOnceMore(limit: nat, policy: Policy, collect: bool, need: nat, a: Store, evicted: seq<EvictedFile>,
                       file: EvictedFile)
    requires InOrder(a.files, evicted) && Needed(limit, policy, collect, need, a, evicted)
    requires IsEvicted(FilesAfter(a.files, evicted), file)
    requires var size := SizeAfter(a.size, a.files, evicted);
             need > limit - size && CanEvict(limit, policy, collect, size)
    ensures InOrder(a.files, [file] + evicted) && Needed(limit, policy, collect, need, a, [file] + evicted)
  {
    assert ([file] + evicted)[1..] == evicted;
  }

  /** The outcome of making room for `need` units. */
  ghost predicate RoomMade(limit: nat, policy: Policy, collect: bool, need: nat, a: Store, evicted: seq<EvictedFile>,
                           r: P.Outcome)
  {
    && InOrder(a.files, evicted) && Needed(limit, policy, collect, need, a, evicted)
    && var left := After(a, evicted);
       if need <= limit - left.size then r == P.Done
       else
         && r == GaveUp(limit, policy, collect, left.size)
         && (CanEvict(limit, policy, collect, left.size) ==> Stuck(left.files, left.size))
  }

  lemma RoomIff(limit: nat, policy: Policy, collect: bool, need: nat, a: Store, evicted: seq<EvictedFile>, r: P.Outcome)
    requires RoomMade(limit, policy, collect, need, a, evicted, r)
    ensures InOrder(a.files, evicted) && Needed(limit, policy, collect, need, a, evicted)
    ensures r == P.Done <==> need <= limit - After(a, evicted).size
  {
    hide InOrder, FilesAfter, StateAfter, SizeAfter, Stuck, Needed;
  }

  /** The bytes take up that many words. */
  ghost predicate HasSize(bytes: seq<Byte>, n: nat) {
    exists a :: HuffmanCodec.Encodes(a, bytes) && a.size == n
  }

  /** `buf` was appended to a file, and nothing else changed. */
  ghost predicate Appended(a: Store, b: Store, name: P.Name, buf: seq<Byte>) {
    && b.state == a.state && name in a.files && name in b.files && b.files - {name} == a.files - {name}
    && b.files[name].direct != null && b.files[name].direct.file.bytes == a.files[name].Contents() + buf
    && b.files[name].size == b.files[name].direct.file.artifact.size
    && b.size == a.size - a.files[name].size + b.files[name].size
  }

  /** When no room could be made: what is left was not touched, unless reading a victim was tried in vain. */
  ghost predicate GivenUp(limit: nat, policy: Policy, collect: bool, left: Store, b: Store) {
    && b.state == left.state && b.size == left.size
    && if CanEvict(limit, policy, collect, left.size) then Reread(left.files, b.files) else b == left
  }

  /** A write of `buf`, which takes up `need` units: checks, evictions, access, append. */
  ghost predicate Written(limit: nat, policy: Policy, collect: bool, fd: nat, pid: P.Pid, buf: seq<Byte>, need: nat,
                          a: Store, b: Store, evicted: seq<EvictedFile>, r: P.Outcome)
  {
    if buf == [] then r == P.Failed(P.EPERM) && b == a && evicted == []
    else
      && HasSize(buf, need)
      && if need > limit then r == P.Failed(P.E2BIG) && b == a && evicted == []
         else RoomAndAccess(limit, policy, collect, fd, pid, buf, need, a, b, evicted, r)
  }

  /** Evictions, and then, if there is room, access and append. */
  ghost predicate RoomAndAccess(limit: nat, policy: Policy, collect: bool, fd: nat, pid: P.Pid, buf: seq<Byte>,
                                need: nat, a: Store, b: Store, evicted: seq<EvictedFile>, r: P.Outcome)
  {
    && InOrder(a.files, evicted) && Needed(limit, policy, collect, need, a, evicted)
    && var left := After(a, evicted);
       if need > limit - left.size then
         RoomMade(limit, policy, collect, need, a, evicted, r) && GivenUp(limit, policy, collect, left, b)
       else Accessed(left, b, fd, pid, buf, r)
  }

  /** The guard of a write, and the append if the guard lets it through. */
  ghost predicate Accessed(a: Store, b: Store, fd: nat, pid: P.Pid, buf: seq<Byte>, r: P.Outcome) {
    && r == P.Access(a.state, fd, pid)
    && if r == P.Done then Appended(a, b, a.state.fds[fd].name, buf) else b == a
  }

  // ---------- a write is a run of the protocol ----------

  /** The evictions as events; the latest victim comes first in the list. */
  ghost function Evictions(evicted: seq<EvictedFile>): seq<P.Event> {
    if evicted == [] then [] else Evictions(evicted[1..]) + [P.EvEvict(evicted[0].name)]
  }

  ghost function WriteEvents(evicted: seq<EvictedFile>, fd: nat, pid: P.Pid): seq<P.Event> {
    Evictions(evicted) + [P.EvAccess(fd, pid)]
  }

  lemma NoEvents(s: P.State)
    ensures P.Possible(s, []) && P.Run(s, []) == s
  {
  }

  lemma EvictStep(s: P.State, name: P.Name)
    requires name in s.files
    ensures P.Enabled(s, P.EvEvict(name)) && P.Step(s, P.EvEvict(name)).0 == P.Without(s, name)
    ensures P.Without(s, name).files.Keys == s.files.Keys - {name}
  {
  }

  lemma AccessStep(s: P.State, fd: nat, pid: P.Pid)
    ensures P.Enabled(s, P.EvAccess(fd, pid)) && P.Step(s, P.EvAccess(fd, pid)) == (s, P.Access(s, fd, pid))
  {
  }

  lemma VictimStored(files: map<P.Name, StoredFile>, file: EvictedFile)
    requires IsEvicted(files, file)
    ensures file.name in files
  {
  }

  lemma {:induction false} EvictionsRun(files: map<P.Name, StoredFile>, s: P.State, evicted: seq<EvictedFile>)
    requires InOrder(files, evicted) && files.Keys == s.files.Keys
    ensures P.Possible(s, Evictions(evicted)) && P.Run(s, Evictions(evicted)) == StateAfter(s, evicted)
    ensures StateAfter(s, evicted).files.Keys == FilesAfter(files, evicted).Keys
  {
    hide P.Step, P.Enabled, P.Possible, P.Run, P.Without, IsEvicted;
    if evicted == [] {
      NoEvents(s);
    } else {
      EvictionsRun(files, s, evicted[1..]);
      VictimStored(FilesAfter(files, evicted[1..]), evicted[0]);
      EvictStep(StateAfter(s, evicted[1..]), evicted[0].name);
      P.OneMoreStep(s, Evictions(evicted[1..]), P.EvEvict(evicted[0].name));
    }
  }

  lemma WriteState(limit: nat, policy: Policy, collect: bool, fd: nat, pid: P.Pid, buf: seq<Byte>, need: nat,
                   a: Store, b: Store, evicted: seq<EvictedFile>, r: P.Outcome)
    requires Written(limit, policy, collect, fd, pid, buf, need, a, b, evicted, r)
    ensures InOrder(a.files, evicted) && b.state == StateAfter(a.state, evicted)
    ensures r == P.Done ==> P.Access(b.state, fd, pid) == P.Done
    ensures b.state.files.Keys <= a.state.files.Keys
  {
    DescriptorsStay(a.state, evicted);
    hide P.Access, HasSize, InOrder, FilesAfter, StateAfter, SizeAfter, Needed, RoomAndAccess;
    NothingNeeded(limit, policy, collect, need, a);
    if buf != [] && need <= limit {
      RoomState(limit, policy, collect, fd, pid, buf, need, a, b, evicted, r);
    }
  }

  lemma RoomState(limit: nat, policy: Policy, collect: bool, fd: nat, pid: P.Pid, buf: seq<Byte>, need: nat,
                  a: Store, b: Store, evicted: seq<EvictedFile>, r: P.Outcome)
    requires RoomAndAccess(limit, policy, collect, fd, pid, buf, need, a, b, evicted, r)
    ensures InOrder(a.files, evicted) && b.state == StateAfter(a.state, evicted)
    ensures r == P.Done ==> P.Access(b.state, fd, pid) == P.Done
  {
    hide P.Access, InOrder, FilesAfter, StateAfter, SizeAfter, Needed, Stuck;
  }

  /** Whatever its outcome, a write takes the protocol through the evictions and the access. */
  lemma WriteIsRun(limit: nat, policy: Policy, collect: bool, fd: nat, pid: P.Pid, buf: seq<Byte>, need: nat,
                   a: Store, b: Store, evicted: seq<EvictedFile>, r: P.Outcome)
    requires Written(limit, policy, collect, fd, pid, buf, need, a, b, evicted, r) && a.files.Keys == a.state.files.Keys
    ensures P.Possible(a.state, WriteEvents(evicted, fd, pid))
    ensures P.Run(a.state, WriteEvents(evicted, fd, pid)) == b.state
    ensures r == P.Done ==> P.Access(b.state, fd, pid) == P.Done
  {
    WriteState(limit, policy, collect, fd, pid, buf, need, a, b, evicted, r);
    hide *;
    EvictionsRun(a.files, a.state, evicted);
    AccessStep(b.state, fd, pid);
    P.OneMoreStep(a.state, Evictions(evicted), P.EvAccess(fd, pid));
  }

  lemma AccessErrors(s: P.State, fd: nat, pid: P.Pid)
    ensures var r := P.Access(s, fd, pid);
            r != P.Failed(P.EUNSET) && r != P.Failed(P.EDQUOT) && r != P.Failed(P.EINVAL) && r != P.Failed(P.E2BIG)
  {
  }

  lemma NoneEvicted(limit: nat, policy: Policy, collect: bool, need: nat, a: Store, evicted: seq<EvictedFile>)
    requires InOrder(a.files, evicted) && Needed(limit, policy, collect, need, a, evicted)
    requires policy == NONE || !collect
    ensures evicted == []
  {
  }

  /** Without a policy, or a list to collect them, no file is evicted: the write is one access step. */
  lemma NoPolicyNoEviction(limit: nat, policy: Policy, collect: bool, fd: nat, pid: P.Pid, buf: seq<Byte>, need: nat,
                           a: Store, b: Store, evicted: seq<EvictedFile>, r: P.Outcome)
    requires Written(limit, policy, collect, fd, pid, buf, need, a, b, evicted, r)
    requires policy == NONE || !collect
    ensures evicted == [] && b.state == a.state
    ensures r == P.Done ==> (b.state, r) == P.Step(a.state, P.EvAccess(fd, pid))
    ensures buf != [] && need <= limit ==> (need <= limit - a.size <==> r == P.Access(a.state, fd, pid))
    ensures r == P.Failed(P.E2BIG) <==> buf != [] && need > limit
    ensures r == P.Failed(P.EDQUOT) <==>
      buf != [] && need <= limit && need > limit - a.size && a.size != limit + 1 && policy == NONE
    ensures r == P.Failed(P.EINVAL) <==>
      buf != [] && need <= limit && need > limit - a.size && a.size != limit + 1 && policy != NONE
  {
    hide P.Access, HasSize, RoomAndAccess, P.Step;
    AccessStep(a.state, fd, pid);
    AccessErrors(a.state, fd, pid);
    if buf != [] && need <= limit {
      NoPolicyRoom(limit, policy, collect, fd, pid, buf, need, a, b, evicted, r);
    }
  }

  lemma NoPolicyRoom(limit: nat, policy: Policy, collect: bool, fd: nat, pid: P.Pid, buf: seq<Byte>, need: nat,
                     a: Store, b: Store, evicted: seq<EvictedFile>, r: P.Outcome)
    requires RoomAndAccess(limit, policy, collect, fd, pid, buf, need, a, b, evicted, r) && (policy == NONE || !collect)
    ensures evicted == [] && b.state == a.state && (need <= limit - a.size <==> r == P.Access(a.state, fd, pid))
    ensures need > limit - a.size ==>
      r == P.Failed(if a.size == limit + 1 then P.EUNSET else if policy == NONE then P.EDQUOT else P.EINVAL)
  {
    NoneEvicted(limit, policy, collect, need, a, evicted);
    AccessErrors(a.state, fd, pid);
    hide P.Access, Appended, Stuck, SameContents, Needed, InOrder;
  }

  // ---------- one write ----------

  /** The files whose blocks a write may change: its target, or what it tried to read and evict in vain. */
  ghost function Disturbed(a: Store, fd: nat, r: P.Outcome): set<P.Name> {
    if r == P.Done && fd in a.state.fds then {a.state.fds[fd].name}
    else if r == P.Failed(P.EUNSET) then SpoiledFiles(a.files)
    else {}
  }

  lemma BlocksKept(limit: nat, policy: Policy, collect: bool, fd: nat, pid: P.Pid, buf: seq<Byte>, need: nat,
                   a: Store, b: Store, evicted: seq<EvictedFile>, r: P.Outcome)
    requires Written(limit, policy, collect, fd, pid, buf, need, a, b, evicted, r)
    ensures SameBlocks(a.files, b.files, Disturbed(a, fd, r))
  {
    hide P.Access, HasSize, RoomAndAccess, SameBlocks, Disturbed;
    AnyBlocks(a.files, Disturbed(a, fd, r));
    if buf != [] && need <= limit {
      RoomBlocks(limit, policy, collect, fd, pid, buf, need, a, b, evicted, r);
    }
  }

  lemma AnyBlocks(files: map<P.Name, StoredFile>, except: set<P.Name>)
    ensures SameBlocks(files, files, except)
  {
  }

  lemma RoomBlocks(limit: nat, policy: Policy, collect: bool, fd: nat, pid: P.Pid, buf: seq<Byte>, need: nat,
                   a: Store, b: Store, evicted: seq<EvictedFile>, r: P.Outcome)
    requires RoomAndAccess(limit, policy, collect, fd, pid, buf, need, a, b, evicted, r)
    ensures SameBlocks(a.files, b.files, Disturbed(a, fd, r))
  {
    hide P.Access, InOrder, FilesAfter, StateAfter, SizeAfter, Needed, Stuck, StoredFile.Spoiled, Appended, SameBlocks;
    DescriptorsStay(a.state, evicted);
    var left := After(a, evicted);
    if need > limit - left.size {
      GivenUpBlocks(limit, policy, collect, left, b);
      LeftBlocks(a, evicted, b.files, if CanEvict(limit, policy, collect, left.size) then SpoiledFiles(left.files) else {});
      LeftSpoiled(a.files, evicted);
      MoreExcept(a.files, b.files, SpoiledFiles(left.files), SpoiledFiles(a.files));
      MoreExcept(a.files, b.files, {}, Disturbed(a, fd, r));
    } else {
      if r == P.Done {
        AccessOpen(left.state, fd, pid);
        AppendedBlocks(left, b, a.state.fds[fd].name, buf);
      } else {
        AccessErrors(left.state, fd, pid);
        AnyBlocks(left.files, {});
      }
      LeftBlocks(a, evicted, b.files, Disturbed(a, fd, r));
    }
  }

  lemma GivenUpBlocks(limit: nat, policy: Policy, collect: bool, left: Store, b: Store)
    requires GivenUp(limit, policy, collect, left, b)
    ensures SameBlocks(left.files, b.files, if CanEvict(limit, policy, collect, left.size) then SpoiledFiles(left.files) else {})
  {
  }

  /** What is left after evictions has the old blocks. */
  lemma LeftBlocks(a: Store, evicted: seq<EvictedFile>, files: map<P.Name, StoredFile>, except: set<P.Name>)
    requires SameBlocks(FilesAfter(a.files, evicted), files, except)
    ensures SameBlocks(a.files, files, except)
  {
    LeftAsBefore(a.files, evicted);
  }

  lemma LeftSpoiled(files: map<P.Name, StoredFile>, evicted: seq<EvictedFile>)
    ensures SpoiledFiles(FilesAfter(files, evicted)) <= SpoiledFiles(files)
  {
    LeftAsBefore(files, evicted);
  }

  lemma MoreExcept(files: map<P.Name, StoredFile>, files': map<P.Name, StoredFile>, x: set<P.Name>, y: set<P.Name>)
    requires x <= y
    ensures SameBlocks(files, files', x) ==> SameBlocks(files, files', y)
  {
  }

  lemma AccessOpen(s: P.State, fd: nat, pid: P.Pid)
    requires P.Access(s, fd, pid) == P.Done
    ensures fd in s.fds && s.fds[fd].name in s.files
  {
  }

  lemma AppendedBlocks(a: Store, b: Store, name: P.Name, buf: seq<Byte>)
    requires Appended(a, b, name, buf)
    ensures SameBlocks(a.files, b.files, {name})
  {
    forall n | n in b.files && n != name
      ensures n in a.files && a.files[n] == b.files[n]
    {
      assert n in b.files - {name};
    }
  }

  lemma DoneIsRun(limit: nat, policy: Policy, collect: bool, fd: nat, pid: P.Pid, buf: seq<Byte>, need: nat,
                  a: Store, b: Store, evicted: seq<EvictedFile>)
    requires Written(limit, policy, collect, fd, pid, buf, need, a, b, evicted, P.Done)
    ensures fd in a.state.fds && b.state.fds == a.state.fds
  {
    hide P.Access, HasSize, InOrder, FilesAfter, StateAfter, SizeAfter, Needed, Stuck, Appended;
    DescriptorsStay(a.state, evicted);
    DoneAccess(limit, policy, collect, fd, pid, buf, need, a, b, evicted);
    AccessOpen(After(a, evicted).state, fd, pid);
    SameState(After(a, evicted), b, fd, pid, buf);
  }

  lemma SameState(a: Store, b: Store, fd: nat, pid: P.Pid, buf: seq<Byte>)
    requires Accessed(a, b, fd, pid, buf, P.Done)
    ensures b.state == a.state
  {
  }

  /** A write that did not find its file. */
  lemma NotFound(limit: nat, policy: Policy, collect: bool, fd: nat, pid: P.Pid, buf: seq<Byte>, need: nat,
                 a: Store, b: Store, evicted: seq<EvictedFile>)
    requires Written(limit, policy, collect, fd, pid, buf, need, a, b, evicted, P.Failed(P.ENOENT))
    ensures fd in a.state.fds && b.state.fds == a.state.fds && a.state.fds[fd].name !in b.state.files
  {
    hide HasSize, InOrder, FilesAfter, StateAfter, SizeAfter, Needed, Stuck, Appended;
    DescriptorsStay(a.state, evicted);
  }

  /** A buffer takes up no more units than it has bytes. */
  lemma SizeBound(bytes: seq<Byte>, n: nat)
    requires HasSize(bytes, n)
    ensures n <= |bytes|
  {
    var a :| HuffmanCodec.Encodes(a, bytes) && a.size == n;
    HuffmanCodec.BitCountBound(a, bytes);
  }

  lemma {:induction false} NoneWithRoom(limit: nat, policy: Policy, collect: bool, need: nat, a: Store,
                                        evicted: seq<EvictedFile>)
    requires InOrder(a.files, evicted) && Needed(limit, policy, collect, need, a, evicted) && need <= limit - a.size
    ensures evicted == []
  {
    if evicted != [] {
      NoneWithRoom(limit, policy, collect, need, a, evicted[1..]);
    }
  }

  /** With room, and access, a write appends and evicts nothing. */
  lemma RoomyWrite(limit: nat, policy: Policy, collect: bool, fd: nat, pid: P.Pid, buf: seq<Byte>, need: nat,
                   a: Store, b: Store, evicted: seq<EvictedFile>, r: P.Outcome)
    requires Written(limit, policy, collect, fd, pid, buf, need, a, b, evicted, r) && buf != []
    requires 0 <= a.size && need <= limit - a.size && P.Access(a.state, fd, pid) == P.Done
    ensures evicted == [] && r == P.Done && Appended(a, b, a.state.fds[fd].name, buf)
  {
    hide P.Access, Appended, HasSize;
    NoneWithRoom(limit, policy, collect, need, a, evicted);
  }

  /** The state a successful write appends to: the evictions did not touch the file. */
  lemma DoneAppends(limit: nat, policy: Policy, collect: bool, fd: nat, pid: P.Pid, buf: seq<Byte>, need: nat,
                    a: Store, b: Store, evicted: seq<EvictedFile>)
    requires Written(limit, policy, collect, fd, pid, buf, need, a, b, evicted, P.Done)
    requires fd in a.state.fds
    ensures InOrder(a.files, evicted) && buf != [] && b.state.fds == a.state.fds
    ensures var name := a.state.fds[fd].name;
            && name in a.files && name in After(a, evicted).files && After(a, evicted).files[name] == a.files[name]
            && Appended(After(a, evicted), b, name, buf)
  {
    hide P.Access, HasSize, Needed, InOrder, IsEvicted, SizeAfter, FilesAfter, StateAfter, Written;
    DoneAccess(limit, policy, collect, fd, pid, buf, need, a, b, evicted);
    DescriptorsStay(a.state, evicted);
    LeftAsBefore(a.files, evicted);
  }

  lemma DoneAccess(limit: nat, policy: Policy, collect: bool, fd: nat, pid: P.Pid, buf: seq<Byte>, need: nat,
                   a: Store, b: Store, evicted: seq<EvictedFile>)
    requires Written(limit, policy, collect, fd, pid, buf, need, a, b, evicted, P.Done)
    ensures InOrder(a.files, evicted) && buf != [] && Accessed(After(a, evicted), b, fd, pid, buf, P.Done)
  {
    hide P.Access, HasSize, InOrder, Needed, After, Accessed;
  }

  // ---------- many writes ----------

  ghost function Concat(bufs: seq<seq<Byte>>): seq<Byte> {
    if bufs == [] then [] else Concat(bufs[..|bufs| - 1]) + bufs[|bufs| - 1]
  }

  /**
   * Write `i` appended `bufs[i]` to the file, which was empty at first; between the writes
   * other calls may run, as long as they keep the file's contents.
   */
  ghost predicate Appends(name: P.Name, bufs: seq<seq<Byte>>, before: seq<Store>, after: seq<Store>) {
    && |before| == |after| == |bufs|
    && (forall i :: 0 <= i < |bufs| ==> bufs[i] != [] && Appended(before[i], after[i], name, bufs[i]))
    && (|bufs| > 0 ==> before[0].files[name].Contents() == [])
    && (forall i :: 0 < i < |bufs| ==> before[i].files[name].Contents() == after[i - 1].files[name].Contents())
  }

  lemma TwoDistinctPrefix(a: seq<Byte>, b: seq<Byte>)
    requires HuffmanCodec.TwoDistinct(a)
    ensures HuffmanCodec.TwoDistinct(a + b)
  {
    var i, j :| 0 <= i < j < |a| && a[i] != a[j];
    assert (a + b)[i] == a[i] && (a + b)[j] == a[j];
  }

  /** What write `i` did. */
  lemma AppendAt(name: P.Name, bufs: seq<seq<Byte>>, before: seq<Store>, after: seq<Store>, i: nat)
    requires Appends(name, bufs, before, after) && i < |bufs|
    ensures bufs[i] != [] && name in after[i].files && after[i].files[name].direct != null
    ensures i > 0 ==> name in after[i - 1].files
    ensures after[i].files[name].direct.file.bytes ==
            (if i == 0 then [] else after[i - 1].files[name].Contents()) + bufs[i]
    ensures after[i].files[name].Contents() == HuffmanCodec.Recovered(after[i].files[name].direct.file.bytes)
  {
    hide HuffmanCodec.Recovered;
    assert Appended(before[i], after[i], name, bufs[i]);
    assert i > 0 ==> Appended(before[i - 1], after[i - 1], name, bufs[i - 1]);
  }

  /** What a file holds after all the buffers were written: each write keeps what can be recovered. */
  ghost function Accumulated(bufs: seq<seq<Byte>>): seq<Byte> {
    if bufs == [] then [] else HuffmanCodec.Recovered(Accumulated(bufs[..|bufs| - 1])) + bufs[|bufs| - 1]
  }

  lemma LastBuffer(bufs: seq<seq<Byte>>, n: nat)
    requires 0 < n <= |bufs|
    ensures Accumulated(bufs[..n]) == HuffmanCodec.Recovered(Accumulated(bufs[..n - 1])) + bufs[n - 1]
    ensures Concat(bufs[..n]) == Concat(bufs[..n - 1]) + bufs[n - 1]
    ensures n == 1 ==> Accumulated(bufs[..1]) == bufs[0] == Concat(bufs[..1])
  {
    hide HuffmanCodec.TwoDistinct;
    assert bufs[..n][..n - 1] == bufs[..n - 1];
    if n == 1 {
      assert bufs[..0] == [];
      assert [] + bufs[0] == bufs[0];
    }
  }

  lemma {:induction false} AllAppended(name: P.Name, bufs: seq<seq<Byte>>, before: seq<Store>, after: seq<Store>, n: nat)
    requires Appends(name, bufs, before, after) && 0 < n <= |bufs|
    ensures name in after[n - 1].files && after[n - 1].files[name].direct != null
    ensures after[n - 1].files[name].direct.file.bytes == Accumulated(bufs[..n])
    ensures after[n - 1].files[name].Contents() == HuffmanCodec.Recovered(Accumulated(bufs[..n]))
  {
    hide Appends, Appended, StoredFile.Contents, HuffmanCodec.Recovered, Accumulated, Concat;
    SameLengths(name, bufs, before, after);
    AppendAt(name, bufs, before, after, n - 1);
    LastBuffer(bufs, n);
    if n > 1 {
      AllAppended(name, bufs, before, after, n - 1);
    } else {
      assert [] + bufs[0] == bufs[0];
    }
  }

  lemma SameLengths(name: P.Name, bufs: seq<seq<Byte>>, before: seq<Store>, after: seq<Store>)
    requires Appends(name, bufs, before, after)
    ensures |before| == |after| == |bufs| && forall i :: 0 <= i < |bufs| ==> bufs[i] != []
  {
    hide Appended;
  }

  /** The file is what was written, or shorter. */
  lemma {:induction false} AccumulatedIs(bufs: seq<seq<Byte>>, n: nat)
    requires 0 < n <= |bufs| && forall i :: 0 <= i < |bufs| ==> bufs[i] != []
    ensures |Accumulated(bufs[..n])| <= |Concat(bufs[..n])|
    ensures if HuffmanCodec.TwoDistinct(bufs[0]) then
              Accumulated(bufs[..n]) == Concat(bufs[..n]) && HuffmanCodec.TwoDistinct(Concat(bufs[..n]))
            else n == 1 || |Accumulated(bufs[..n])| < |Concat(bufs[..n])|
    ensures n == 1 ==> Accumulated(bufs[..n]) == bufs[0]
  {
    hide HuffmanCodec.TwoDistinct, Accumulated, Concat;
    LastBuffer(bufs, n);
    if n > 1 {
      LastBuffer(bufs, 1);
      AccumulatedIs(bufs, n - 1);
      if HuffmanCodec.TwoDistinct(bufs[0]) {
        TwoDistinctPrefix(Concat(bufs[..n - 1]), bufs[n - 1]);
      }
    }
  }

  /** Appends compose: the file holds all that was written if, and only if, the first buffer has two different bytes. */
  lemma AppendsCompose(name: P.Name, bufs: seq<seq<Byte>>, before: seq<Store>, after: seq<Store>)
    requires Appends(name, bufs, before, after) && bufs != []
    ensures name in after[|bufs| - 1].files
    ensures after[|bufs| - 1].files[name].Contents() == Concat(bufs) <==> HuffmanCodec.TwoDistinct(bufs[0])
  {
    assert bufs[..|bufs|] == bufs;
    AllAppended(name, bufs, before, after, |bufs|);
    hide Appended, Appends, StoredFile.Contents;
    AppendAt(name, bufs, before, after, 0);
    SameLengths(name, bufs, before, after);
    AccumulatedIs(bufs, |bufs|);
  }

  lemma AppendedHas(a: Store, b: Store, name: P.Name, buf: seq<Byte>)
    requires Appended(a, b, name, buf)
    ensures name in a.files && name in b.files
  {
  }

  lemma OneMoreAppend(name: P.Name, bufs: seq<seq<Byte>>, buf: seq<Byte>, before: seq<Store>, after: seq<Store>,
                      a: Store, b: Store)
    requires Appends(name, bufs, before, after) && buf != [] && Appended(a, b, name, buf)
    requires a.files[name].Contents() == if bufs == [] then [] else after[|bufs| - 1].files[name].Contents()
    ensures Appends(name, bufs + [buf], before + [a], after + [b])
  {
    hide Appended, StoredFile.Contents;
    var bs, xs, ys := bufs + [buf], before + [a], after + [b];
    forall i | 0 <= i < |bs|
      ensures bs[i] != [] && Appended(xs[i], ys[i], name, bs[i])
      ensures name in xs[i].files && name in ys[i].files
    {
      AppendedHas(xs[i], ys[i], name, bs[i]);
    }
    forall i | 0 < i < |bs|
      ensures xs[i].files[name].Contents() == ys[i - 1].files[name].Contents()
    {
    }
  }

  /** The file is no longer than what was written. */
  lemma AppendsLength(name: P.Name, bufs: seq<seq<Byte>>, before: seq<Store>, after: seq<Store>)
    requires Appends(name, bufs, before, after) && bufs != []
    ensures name in after[|bufs| - 1].files
    ensures |after[|bufs| - 1].files[name].Contents()| <= |Concat(bufs)|
    ensures after[|bufs| - 1].files[name].size <= |Concat(bufs)|
  {
    var n := |bufs|;
    assert bufs[..n] == bufs;
    AllAppended(name, bufs, before, after, n);
    SameLengths(name, bufs, before, after);
    AccumulatedIs(bufs, |bufs|);
    var e := after[n - 1].files[name].direct.file;
    assert Appended(before[n - 1], after[n - 1], name, bufs[n - 1]);
    HuffmanCodec.BitCountBound(e.artifact, e.bytes);
  }

  lemma {:induction false} ConcatGrows(bufs: seq<seq<Byte>>, i: nat)
    requires i < |bufs|
    ensures Concat(bufs[..i + 1]) == Concat(bufs[..i]) + bufs[i]
    ensures |Concat(bufs[..i + 1])| <= |Concat(bufs)|
    decreases |bufs|
  {
    assert bufs[..i + 1][..i] == bufs[..i];
    var n := |bufs| - 1;
    if i < n {
      ConcatGrows(bufs[..n], i);
      assert bufs[..n][..i + 1] == bufs[..i + 1];
    } else {
      assert bufs[..i + 1] == bufs;
    }
  }
}
