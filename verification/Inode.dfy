/** The inode of gnl_simfs_inode.c: references, lock, pending locks, and the compressed file. */
module InodeModule {
  import opened Wrappers
  import opened MinHeap
  import opened HuffmanTree
  import opened HuffmanCodec
  import P = Protocol

  /** The result of `time`, as an `int`. */
  type Time = t: CInt | t >= 0

  /** A file together with its encoding. */
  datatype Encoding = Encoding(artifact: Artifact, ghost bytes: seq<Byte>)

  ghost predicate IsStored(e: Encoding) {
    e.bytes != [] && |e.bytes| <= MAX_BYTES && Encodes(e.artifact, e.bytes)
  }

  type Stored = e: Encoding | IsStored(e) ghost witness OneByte()

  ghost function OneByte(): (e: Encoding)
    ensures IsStored(e)
  {
    var t := Leaf(1, 0);
    assert CodeBits(t, [0][..0]) == [] && CodeBits(t, [0]) == [];
    Encoding(Artifact(t, 0, 0, []), [0])
  }

  /** What a direct pointer points to: an encoded file, never changed in place. Two inodes may share it. */
  class Block {
    const file: Stored

    constructor (file: Stored)
      ensures this.file == file
    {
      this.file := file;
    }
  }

  class Inode {
    const name: P.Name
    const btime: Time
    var ctime: Time
    var size: nat
    var direct: Block?
    var buffer: seq<Byte>
    var locked: nat
    var refs: seq<P.Pid>
    var refCount: nat
    var pending: nat

    /** What the lock protocol sees of the inode. */
    function File(): P.File
      reads `locked, `refs, `refCount, `pending
    {
      P.File(locked, refs, refCount, pending)
    }

    ghost predicate Valid()
      reads `size, `direct
    {
      && (direct == null ==> size == 0)
      && (direct != null ==> size == direct.file.artifact.size)
    }

    /** The bytes a read would give back; a file of one repeated byte is lost. */
    ghost function Contents(): seq<Byte>
      reads `direct
    {
      if direct == null then [] else Recovered(direct.file.bytes)
    }

    lemma ContentsFit()
      ensures |Contents()| <= MAX_BYTES
    {
    }

    /** The file can be decoded: neither missing nor one repeated byte. */
    ghost predicate Readable()
      reads `direct
    {
      direct != null && TwoDistinct(direct.file.bytes)
    }

    constructor Init(name: P.Name, now: Time)
      ensures this.name == name && btime == ctime == now
      ensures Valid() && direct == null && size == 0 && buffer == []
      ensures File() == P.File(0, [], 0, 0)
    {
      this.name, btime, ctime := name, now, now;
      size, direct, buffer := 0, null, [];
      locked, refs, refCount, pending := 0, [], 0, 0;
    }

    /** A copy for the descriptor table shares the file, but not the references or the buffer. */
    ghost predicate CopyOf(inode: Inode)
      reads this, inode
    {
      && name == inode.name && btime == inode.btime
      && size == inode.size && direct == inode.direct && buffer == []
      && File() == inode.File().(refs := [])
    }

    constructor Copy(inode: Inode, now: Time)
      ensures CopyOf(inode) && ctime == now
    {
      name, btime, ctime := inode.name, inode.btime, now;
      size, direct, buffer := inode.size, inode.direct, [];
      locked, refs, refCount, pending := inode.locked, [], inode.refCount, inode.pending;
    }

    method IncreaseRefs(pid: P.Pid, now: Time)
      modifies `refs, `refCount, `ctime
      ensures File() == P.IncreaseRefs(old(File()), pid) && ctime == now
    {
      refs := [pid] + refs;
      refCount := refCount + 1;
      ctime := now;
    }

    method DecreaseRefs(pid: P.Pid, now: Time) returns (ok: bool, signal: bool)
      modifies `refs, `refCount, `ctime
      ensures P.Drop(File(), ok, signal) == P.DropRefs(old(File()), pid, 1)
      ensures ctime == if ok then now else old(ctime)
    {
      if refCount == 0 || pid !in refs {
        return false, false;
      }
      refs := P.FirstFit.DeleteFirst(refs, pid);
      refCount := refCount - 1;
      ctime := now;
      return true, refCount == 0 || P.HasOthers(refs, pid);
    }

    method FileLock(pid: P.Pid, now: Time) returns (ok: bool)
      modifies `locked, `ctime
      ensures ok <==> old(locked) == 0 || old(locked) == pid
      ensures locked == if ok then pid else old(locked)
      ensures ctime == if old(locked) == 0 then now else old(ctime)
    {
      if locked == pid {
        return true;
      }
      if locked != 0 {
        return false;
      }
      locked := pid;
      ctime := now;
      return true;
    }

    method FileUnlock(pid: P.Pid, now: Time) returns (ok: bool)
      modifies `locked, `ctime
      ensures ok <==> old(locked) == 0 || old(locked) == pid
      ensures locked == if ok then 0 else old(locked)
      ensures ctime == if old(locked) == pid then now else old(ctime)
    {
      if locked == 0 {
        return true;
      }
      if locked != pid {
        return false;
      }
      locked := 0;
      ctime := now;
      return true;
    }

    method IncreasePendingLocks(now: Time)
      modifies `pending, `ctime
      ensures pending == old(pending) + 1 && ctime == now
    {
      pending := pending + 1;
      ctime := now;
    }

    method DecreasePendingLocks(now: Time) returns (ok: bool)
      modifies `pending, `ctime
      ensures ok <==> old(pending) > 0
      ensures pending == if ok then old(pending) - 1 else old(pending)
      ensures ctime == if ok then now else old(ctime)
    {
      if pending == 0 {
        return false;
      }
      pending := pending - 1;
      ctime := now;
      return true;
    }

    /** Appends to the buffer; writing nothing is an error. */
    method Write(buf: seq<Byte>, now: Time) returns (ok: bool)
      modifies `buffer, `ctime
      ensures ok <==> buf != []
      ensures buffer == old(buffer) + buf
      ensures ctime == if ok then now else old(ctime)
    {
      if |buf| <= 0 {
        return false;
      }
      buffer := buffer + buf;
      ctime := now;
      return true;
    }

    /** Decodes the file, and encodes it again into a new block. */
    method Read(now: Time) returns (r: Option<seq<Byte>>)
      requires Valid()
      modifies `size, `direct, `ctime
      ensures Valid() && size == old(size) && Contents() == old(Contents())
      ensures r.Some? <==> old(Readable())
      ensures r.Some? ==> r.value == Contents()
      ensures r.Some? ==> direct != null && fresh(direct) && direct.file.bytes == old(direct).file.bytes && ctime == now
      ensures old(direct) == null ==> ctime == old(ctime) && direct == null
    {
      if direct == null {
        return None;
      }
      ghost var was := direct;
      var bytes := Decode(direct.file.artifact);
      RoundTrip(was.file.artifact, was.file.bytes, bytes);
      size, direct := |bytes.value|, null;
      ctime := now;
      ShortIsCountable(bytes.value);
      var artifact := Encode(bytes.value);
      if artifact.None? {
        return None;
      }
      SameSize(was.file.artifact, artifact.value, was.file.bytes);
      direct := new Block(Encoding(artifact.value, bytes.value));
      size := artifact.value.size;
      return bytes;
    }

    /** Appends the buffer to the file: decodes it, extends it, encodes it into a new block. */
    method Fflush(now: Time)
      requires Valid() && buffer != [] && |Contents()| + |buffer| <= MAX_BYTES
      modifies `size, `direct, `buffer, `ctime
      ensures Valid() && direct != null && fresh(direct) && buffer == [] && ctime == now
      ensures direct.file.bytes == old(Contents()) + old(buffer)
    {
      var bytes := Some([]);
      if direct != null {
        bytes := Decode(direct.file.artifact);
        RoundTrip(direct.file.artifact, direct.file.bytes, bytes);
      }
      var extended := bytes.value + buffer;
      buffer := [];
      ctime := now;
      ShortIsCountable(extended);
      var artifact := Encode(extended);
      direct := new Block(Encoding(artifact.value, extended));
      size := artifact.value.size;
    }
  }
}
