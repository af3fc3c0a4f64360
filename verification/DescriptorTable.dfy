/** The descriptor table of gnl_simfs_file_descriptor_table.c: the least unused index comes first. */
module DescriptorTable {
  import opened Wrappers
  import opened FirstFit
  import opened MinHeap
  import opened InodeModule
  import P = Protocol

  /** An open descriptor: its owner and a copy of the inode. */
  datatype Slot = Slot(owner: P.Pid, inode: Inode)

  ghost function Below(n: nat): (r: set<nat>)
    ensures |r| == n
    ensures forall i: nat :: i in r <==> i < n
  {
    if n == 0 then {} else Below(n - 1) + {n - 1}
  }

  lemma SubsetSize(a: set<nat>, b: set<nat>)
    requires a <= b
    ensures |a| <= |b|
  {
    assert b == a + (b - a);
  }

  /** When all indices below `n` are used, and no other, the least free one is `n`. */
  lemma FirstFreeIs(used: set<nat>, n: nat)
    requires n !in used && forall i: nat :: i < n ==> i in used
    ensures FirstFree(used, 0) == n
  {
  }

  /** The table as a map from descriptors to slots. */
  ghost function Slots(slots: seq<Option<Slot>>): map<nat, Slot> {
    map i: nat | i < |slots| && slots[i].Some? :: slots[i].value
  }

  ghost function Used(slots: seq<Option<Slot>>): set<nat> {
    Slots(slots).Keys
  }

  ghost predicate Hole(e: Entry<nat>, slots: seq<Option<Slot>>) {
    0 <= e.data < |slots| && slots[e.data].None? && e.key == e.data
  }

  /** The heap of free indices holds every hole of the table once, and nothing else. */
  ghost predicate FreesHoles(m: multiset<Entry<nat>>, slots: seq<Option<Slot>>) {
    forall e :: m[e] == if Hole(e, slots) then 1 else 0
  }

  /** The heap lacks index `fd`, which was just taken from it. */
  ghost predicate FreesHolesBut(m: multiset<Entry<nat>>, slots: seq<Option<Slot>>, fd: nat) {
    forall e :: m[e] == if Hole(e, slots) && e.data != fd then 1 else 0
  }

  lemma UsedBound(slots: seq<Option<Slot>>)
    ensures |Used(slots)| <= |slots|
  {
    SubsetSize(Used(slots), Below(|slots|));
  }

  /** A full table has no holes: the next index is its length. */
  lemma NoHoles(m: multiset<Entry<nat>>, slots: seq<Option<Slot>>)
    requires FreesHoles(m, slots) && m == multiset{} && |slots| <= INT_MAX
    ensures |Used(slots)| == |slots| && FirstFree(Used(slots), 0) == |slots|
  {
    forall i: nat | i < |slots|
      ensures i in Used(slots)
    {
      assert m[Entry(i, i)] == 0;
    }
    assert Used(slots) == Below(|slots|);
    FirstFreeIs(Used(slots), |slots|);
  }

  /** The least hole is the least unused index. */
  lemma LeastHole(m: multiset<Entry<nat>>, slots: seq<Option<Slot>>, e: Entry<nat>)
    requires FreesHoles(m, slots) && LeastOf(e, m) && |slots| <= INT_MAX
    ensures e.data == e.key && e.data < |slots| && slots[e.data].None?
    ensures FirstFree(Used(slots), 0) == e.data
  {
    forall i: nat | i < e.data
      ensures i in Used(slots)
    {
      assert m[Entry(i, i)] == 0;
    }
    FirstFreeIs(Used(slots), e.data);
  }

  ghost function Placed(slots: seq<Option<Slot>>, fd: nat, s: Slot): seq<Option<Slot>>
    requires fd <= |slots|
  {
    if fd < |slots| then slots[fd := Some(s)] else slots + [Some(s)]
  }

  /** Filling the index that was taken from the heap. */
  lemma FilledHole(m: multiset<Entry<nat>>, slots: seq<Option<Slot>>, fd: nat, s: Slot)
    requires fd <= |slots| && FreesHolesBut(m, slots, fd)
    ensures FreesHoles(m, Placed(slots, fd, s))
  {
  }

  lemma PutSlot(slots: seq<Option<Slot>>, fd: nat, s: Slot)
    requires fd <= |slots| && (fd < |slots| ==> slots[fd].None?)
    ensures Slots(Placed(slots, fd, s)) == Slots(slots)[fd := s]
    ensures |Used(Placed(slots, fd, s))| == |Used(slots)| + 1
  {
    assert Slots(Placed(slots, fd, s)) == Slots(slots)[fd := s];
    assert Used(Placed(slots, fd, s)) == Used(slots) + {fd};
  }

  lemma EmptySlot(slots: seq<Option<Slot>>, fd: nat)
    requires fd < |slots| && slots[fd].Some?
    ensures Slots(slots[fd := None]) == Slots(slots) - {fd}
    ensures |Used(slots[fd := None])| == |Used(slots)| - 1
  {
    assert Slots(slots[fd := None]) == Slots(slots) - {fd};
    assert Used(slots[fd := None]) == Used(slots) - {fd};
  }

  /** The slots without those of a process. */
  ghost function WithoutPid(m: map<nat, Slot>, pid: P.Pid): map<nat, Slot> {
    map fd | fd in m && m[fd].owner != pid :: m[fd]
  }

  /** The slots without those of a process below index `n`. */
  ghost function WithoutPidBelow(m: map<nat, Slot>, pid: P.Pid, n: nat): map<nat, Slot> {
    map fd | fd in m && (fd >= n || m[fd].owner != pid) :: m[fd]
  }

  ghost function WithoutSlot(m: map<nat, Slot>, pid: P.Pid, i: nat): map<nat, Slot> {
    if i in m && m[i].owner == pid then m - {i} else m
  }

  lemma DroppedStep(m: map<nat, Slot>, pid: P.Pid, i: nat)
    ensures WithoutPidBelow(m, pid, i + 1) == WithoutSlot(WithoutPidBelow(m, pid, i), pid, i)
  {
  }

  lemma KeptBelow(m: map<nat, Slot>, pid: P.Pid, n: nat)
    ensures n == 0 ==> WithoutPidBelow(m, pid, n) == m
    ensures (forall fd :: fd in m ==> fd < n) ==> WithoutPidBelow(m, pid, n) == WithoutPid(m, pid)
  {
  }

  lemma BelowExtent(slots: seq<Option<Slot>>, m: map<nat, Slot>, pid: P.Pid, n: nat)
    requires Slots(slots) == WithoutPidBelow(m, pid, n) && |slots| <= n
    ensures WithoutPidBelow(m, pid, n) == WithoutPid(m, pid)
  {
    forall fd | fd in WithoutPidBelow(m, pid, n)
      ensures m[fd].owner != pid
    {
      assert fd in Slots(slots);
    }
  }

  /** The descriptors of a process on a file. */
  ghost function FdsOn(m: map<nat, Slot>, name: P.Name, pid: P.Pid): set<nat> {
    set fd | fd in m && m[fd].owner == pid && m[fd].inode.name == name
  }

  ghost function FdsOnBelow(m: map<nat, Slot>, name: P.Name, pid: P.Pid, n: nat): set<nat> {
    set fd | fd in FdsOn(m, name, pid) && fd < n
  }

  /** Whether a process may use a descriptor. */
  ghost function LookedUp(m: map<nat, Slot>, fd: nat, pid: P.Pid): P.Outcome {
    if fd !in m then P.Failed(P.EBADF) else if m[fd].owner != pid then P.Failed(P.EPERM) else P.Done
  }

  /** A new hole goes into the heap. */
  lemma FreeHole(m: multiset<Entry<nat>>, slots: seq<Option<Slot>>, fd: nat)
    requires FreesHoles(m, slots) && fd < |slots| <= INT_MAX && slots[fd].Some?
    ensures FreesHoles(m + multiset{Entry(fd, fd)}, slots[fd := None])
  {
  }

  ghost predicate SlotMatches(s: Slot, d: P.Desc, copies: set<Inode>)
    reads copies`locked, copies`size, copies`direct
  {
    s.inode in copies && s.inode.Valid() && d == P.Desc(s.owner, s.inode.name, s.inode.locked)
  }

  class Descriptors {
    const limit: nat
    var size: nat
    var maxFd: nat
    var free: Heap<nat>
    var table: array<Option<Slot>>

    ghost function Repr(): set<object>
      reads this, free
    {
      {this, table, free, free.list}
    }

    /** The arrays are the old ones or new, and so are the copies. */
    twostate predicate Reallocated()
      reads `free, `table, `copies, free`list
    {
      && free == old(free) && (free.list == old(free.list) || fresh(free.list))
      && (table == old(table) || fresh(table)) && fresh(copies - old(copies))
    }

    ghost predicate Valid()
      reads `size, `maxFd, `free, `table, free, table, free.list
    {
      && limit <= INT_MAX && size <= limit && table.Length <= limit
      && free.Valid()
      && maxFd == (if table.Length == 0 then 0 else table.Length - 1)
      && FreesHoles(free.Contents(), table[..])
      && size == |Used(table[..])|
    }

    ghost function Contents(): map<nat, Slot>
      reads `table, table
    {
      Slots(table[..])
    }

    /** The descriptors as the lock protocol sees them, and the inode copies there ever were. */
    ghost var fds: map<nat, P.Desc>
    ghost var copies: set<Inode>

    ghost predicate Matches()
      reads `fds, `copies, `table, table, copies`locked, copies`size, copies`direct
    {
      && fds.Keys == Contents().Keys
      && forall fd :: fd in fds ==> SlotMatches(Contents()[fd], fds[fd], copies)
    }

    /** Copies keep what the protocol sees of them. */
    twostate predicate CopiesKept()
      reads this, copies`locked, copies`size, copies`direct
    {
      && old(copies) <= copies
      && forall i :: i in old(copies) ==> i.locked == old(i.locked) && i.size == old(i.size) && i.direct == old(i.direct)
    }

    twostate lemma SlotAdded(fd: nat)
      requires old(Matches()) && CopiesKept()
      requires fd in Contents() && fd in fds && SlotMatches(Contents()[fd], fds[fd], copies)
      requires Contents() == old(Contents())[fd := Contents()[fd]] && fds == old(fds)[fd := fds[fd]]
      ensures Matches()
    {
      forall d | d in fds && d != fd
        ensures SlotMatches(Contents()[d], fds[d], copies)
      {
        assert old(SlotMatches(Contents()[d], fds[d], copies));
      }
    }

    /** A copy may get another file. */
    twostate lemma CopyChanged(copy: Inode)
      requires old(Matches()) && fds == old(fds) && copies == old(copies) && Contents() == old(Contents())
      requires forall i :: i in copies && i != copy ==>
        i.locked == old(i.locked) && i.size == old(i.size) && i.direct == old(i.direct)
      requires copy.locked == old(copy.locked) && copy.Valid()
      ensures Matches()
    {
      forall d | d in fds
        ensures SlotMatches(Contents()[d], fds[d], copies)
      {
        assert old(SlotMatches(Contents()[d], fds[d], copies));
      }
    }

    twostate lemma SlotsDropped(gone: set<nat>)
      requires old(Matches()) && CopiesKept()
      requires Contents() == old(Contents()) - gone && fds == old(fds) - gone
      ensures Matches()
    {
      forall d | d in fds
        ensures SlotMatches(Contents()[d], fds[d], copies)
      {
        assert old(SlotMatches(Contents()[d], fds[d], copies));
      }
    }

    constructor (limit: nat)
      requires limit <= INT_MAX
      ensures Valid() && fresh(Repr()) && this.limit == limit && Contents() == map[] && fds == map[] && copies == {}
    {
      this.limit, size, maxFd := limit, 0, 0;
      free := new Heap<nat>();
      table := new Option<Slot>[0];
      fds, copies := map[], {};
      new;
      assert Slots(table[..]) == map[];
    }

    /** Takes the least free index from the heap, or else the next index. */
    method GetFileDescriptor() returns (fd: nat)
      requires Valid()
      modifies free`size, free.list
      ensures free.list == old(free.list) && free.Valid()
      ensures fd == FirstFree(old(Used(table[..])), 0) && fd <= table.Length
      ensures fd < table.Length ==> table[fd].None?
      ensures fd == table.Length ==> size == table.Length
      ensures FreesHolesBut(free.Contents(), table[..], fd)
    {
      ghost var m := free.Contents();
      var raw, key := free.ExtractMin();
      if raw.Some? {
        fd := raw.value;
        LeastHole(m, table[..], Entry(fd, key));
      } else {
        fd := size;
        NoHoles(m, table[..]);
      }
    }

    /** Makes room for index `i`: the table is copied into a longer one. */
    method Reserve(i: nat)
      requires i <= table.Length && maxFd == (if table.Length == 0 then 0 else table.Length - 1)
      modifies `table
      ensures table == old(table) || fresh(table)
      ensures table[..] == old(table[..]) + if i == old(table.Length) then [None] else []
    {
      if maxFd == 0 || i > maxFd {
        var temp := new Option<Slot>[i + 1](k requires k >= 0 reads this, table =>
          if k < table.Length then table[k] else None);
        table := temp;
      }
    }

    /** Stores an entry at an index taken from the heap. */
    method PutAt(i: nat, entry: Slot)
      requires size < limit <= INT_MAX && table.Length <= limit && size == |Used(table[..])|
      requires i <= table.Length && (i < table.Length ==> table[i].None?) && (i == table.Length ==> i < limit)
      requires free.Valid() && FreesHolesBut(free.Contents(), table[..], i)
      requires maxFd == (if table.Length == 0 then 0 else table.Length - 1)
      modifies `size, `maxFd, `table, table
      ensures Valid() && (table == old(table) || fresh(table))
      ensures Contents() == old(Contents())[i := entry] && size == old(size) + 1
    {
      hide FreesHoles, FreesHolesBut, Hole, HeapOrdered, Slots;
      ghost var slots := table[..];
      Reserve(i);
      table[i] := Some(entry);
      size := size + 1;
      if i > maxFd {
        maxFd := i;
      }
      PutSlot(slots, i, entry);
      FilledHole(free.Contents(), slots, i, entry);
      assert table[..] == Placed(slots, i, entry);
    }

    /** Puts a copy of the inode at the least unused index; the array only grows when there is no hole. */
    method Put(inode: Inode, pid: P.Pid, now: Time) returns (fd: Option<nat>, copy: Inode?)
      requires Valid()
      modifies `size, `maxFd, `table, table, free`size, free.list
      ensures Valid() && free.list == old(free.list)
      ensures table == old(table) || fresh(table)
      ensures old(size) == limit ==> fd == None && copy == null && Contents() == old(Contents())
      ensures old(size) < limit ==>
        && fd == Some(FirstFree(old(Contents()).Keys, 0))
        && copy != null && fresh(copy) && copy.CopyOf(inode)
        && Contents() == old(Contents())[fd.value := Slot(pid, copy)]
        && size == old(size) + 1
    {
      if size == limit {
        return None, null;
      }
      UsedBound(table[..]);
      var i := GetFileDescriptor();
      copy := new Inode.Copy(inode, now);
      PutAt(i, Slot(pid, copy));
      fd := Some(i);
    }

    /** Empties a slot and frees its index. */
    method RemoveFd(fd: nat)
      requires Valid() && fd in Contents()
      modifies `size, table, free`size, free`list, free.list
      ensures Valid() && (free.list == old(free.list) || fresh(free.list))
      ensures Contents() == old(Contents()) - {fd}
    {
      ghost var slots, m := table[..], free.Contents();
      EmptySlot(slots, fd);
      FreeHole(m, slots, fd);
      table[fd] := None;
      assert table[..] == slots[fd := None];
      free.Insert(fd, fd);
      size := size - 1;
    }

    method Remove(fd: nat, pid: P.Pid) returns (r: P.Outcome)
      requires Valid()
      modifies `size, table, free`size, free`list, free.list
      ensures Valid() && (free.list == old(free.list) || fresh(free.list))
      ensures r == LookedUp(old(Contents()), fd, pid)
      ensures Contents() == if r == P.Done then old(Contents()) - {fd} else old(Contents())
    {
      if size == 0 || fd > maxFd || table[fd] == None {
        return P.Failed(P.EBADF);
      }
      if table[fd].value.owner != pid {
        return P.Failed(P.EPERM);
      }
      RemoveFd(fd);
      return P.Done;
    }

    /** One step of `RemovePid`. */
    method RemoveOwned(i: nat, pid: P.Pid)
      requires Valid() && i <= maxFd
      modifies `size, table, free`size, free`list, free.list
      ensures Valid() && (free.list == old(free.list) || fresh(free.list))
      ensures Contents() == WithoutSlot(old(Contents()), pid, i)
    {
      if size == 0 || table[i] == None || table[i].value.owner != pid {
        assert i !in Contents() || Contents()[i].owner != pid;
        return;
      }
      RemoveFd(i);
    }

    /** Removes every entry of a process. */
    method RemovePid(pid: P.Pid)
      requires Valid()
      modifies `size, table, free`size, free`list, free.list
      ensures Valid() && (free.list == old(free.list) || fresh(free.list))
      ensures Contents() == WithoutPid(old(Contents()), pid)
    {
      hide WithoutPid, WithoutPidBelow, WithoutSlot, FreesHoles, Hole, HeapOrdered;
      ghost var m := Contents();
      KeptBelow(m, pid, 0);
      for i := 0 to maxFd + 1
        invariant Valid() && (free.list == old(free.list) || fresh(free.list))
        invariant Contents() == WithoutPidBelow(m, pid, i)
      {
        DroppedStep(m, pid, i);
        RemoveOwned(i, pid);
      }
      BelowExtent(table[..], m, pid, maxFd + 1);
    }

    method Get(fd: nat, pid: P.Pid) returns (inode: Inode?, r: P.Outcome)
      requires Valid()
      ensures r == LookedUp(Contents(), fd, pid)
      ensures if r == P.Done then inode == Contents()[fd].inode else inode == null
    {
      if size == 0 || fd > maxFd || table[fd] == None {
        return null, P.Failed(P.EBADF);
      }
      if table[fd].value.owner != pid {
        return null, P.Failed(P.EPERM);
      }
      return table[fd].value.inode, P.Done;
    }

    /** How many descriptors a process has on the file of an inode. */
    method PidInodeSize(inode: Inode, pid: P.Pid) returns (n: nat)
      requires Valid()
      ensures n == |FdsOn(Contents(), inode.name, pid)|
    {
      n := 0;
      ghost var m := Contents();
      for i := 0 to maxFd + 1
        invariant n == |FdsOnBelow(m, inode.name, pid, i)|
      {
        if size == 0 || table[i] == None || table[i].value.owner != pid || table[i].value.inode.name != inode.name {
          assert i !in FdsOn(m, inode.name, pid);
          assert FdsOnBelow(m, inode.name, pid, i + 1) == FdsOnBelow(m, inode.name, pid, i);
        } else {
          n := n + 1;
          assert FdsOnBelow(m, inode.name, pid, i + 1) == FdsOnBelow(m, inode.name, pid, i) + {i};
        }
      }
      assert FdsOnBelow(m, inode.name, pid, maxFd + 1) == FdsOn(m, inode.name, pid);
    }

    // ---------- keeping up with the protocol ----------

    /** The slot holds a copy that shares the file of the inode. */
    ghost predicate CopyAt(fd: nat, inode: Inode)
      reads `table, table, `copies, copies, inode
    {
      && fd in Contents() && Contents()[fd].inode in copies
      && Contents()[fd].inode.name == inode.name && Contents()[fd].inode.buffer == []
      && Contents()[fd].inode.direct == inode.direct && Contents()[fd].inode.size == inode.size
    }

    method PutCopy(inode: Inode, pid: P.Pid, now: Time) returns (fd: nat)
      requires Valid() && Matches() && size < limit && inode.Valid()
      modifies `size, `maxFd, `table, table, free`size, free.list, `fds, `copies
      ensures Valid() && Matches() && free.list == old(free.list) && (table == old(table) || fresh(table))
      ensures fd == FirstFree(old(fds).Keys, 0)
      ensures fds == old(fds)[fd := P.Desc(pid, inode.name, inode.locked)]
      ensures fresh(copies - old(copies)) && old(copies) <= copies
      ensures CopyAt(fd, inode) && Contents() == old(Contents())[fd := Contents()[fd]]
    {
      hide Valid, FirstFree;
      var i, copy := Put(inode, pid, now);
      fd := i.value;
      copies := copies + {copy};
      fds := fds[fd := P.Desc(pid, inode.name, inode.locked)];
      SlotAdded(fd);
    }

    method DropCopy(fd: nat, pid: P.Pid)
      requires Valid() && Matches() && fd in fds && fds[fd].owner == pid
      modifies `size, table, free`size, free`list, free.list, `fds
      ensures Valid() && Matches() && fds == old(fds) - {fd} && Contents() == old(Contents()) - {fd}
      ensures Reallocated()
    {
      hide Valid;
      assert SlotMatches(Contents()[fd], fds[fd], copies);
      var r := Remove(fd, pid);
      fds := fds - {fd};
      SlotsDropped({fd});
    }

    method DropPid(pid: P.Pid)
      requires Valid() && Matches()
      modifies `size, table, free`size, free`list, free.list, `fds
      ensures Valid() && Matches()
      ensures fds == map fd | fd in old(fds) && old(fds)[fd].owner != pid :: old(fds)[fd]
      ensures Contents() == WithoutPid(old(Contents()), pid)
      ensures Reallocated()
    {
      hide Valid, Matches, WithoutPid, Contents;
      ghost var gone := set fd | fd in fds && fds[fd].owner == pid;
      OwnedSlots(pid, gone);
      RemovePid(pid);
      fds := fds - gone;
      SlotsDropped(gone);
    }

    lemma OwnedSlots(pid: P.Pid, gone: set<nat>)
      requires Matches() && gone == set fd | fd in fds && fds[fd].owner == pid
      ensures WithoutPid(Contents(), pid) == Contents() - gone
    {
      assert forall fd :: fd in fds ==> SlotMatches(Contents()[fd], fds[fd], copies);
    }

    lemma OwnedAre(name: P.Name, pid: P.Pid)
      requires Matches()
      ensures FdsOn(Contents(), name, pid) == set fd | fd in fds && fds[fd].name == name && fds[fd].owner == pid
    {
      assert forall fd :: fd in fds ==> SlotMatches(Contents()[fd], fds[fd], copies);
    }
  }
}
