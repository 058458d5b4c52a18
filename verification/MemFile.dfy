/** A file of the in-memory file system: a growable buffer read and written through any
    number of descriptors. */
module MemFile {
  import opened Bits

  // ------------------------------------------------------------------ byte sequences

  /** Writing at an offset within the file overwrites, then extends. */
  function Written(file: seq<Byte>, offset: nat, buf: seq<Byte>): (r: seq<Byte>)
    requires offset <= |file|
    ensures |r| == if offset + |buf| > |file| then offset + |buf| else |file|
  {
    file[..offset] + buf + if offset + |buf| < |file| then file[offset + |buf|..] else []
  }

  function ReadSize(file: seq<Byte>, offset: nat, size: nat): nat {
    if offset >= |file| then 0 else if size < |file| - offset then size else |file| - offset
  }

  /** What was written is read back from where it was written, and nothing else moved. */
  lemma WriteThenRead(file: seq<Byte>, offset: nat, buf: seq<Byte>)
    requires offset <= |file|
    ensures var r := Written(file, offset, buf);
      && r[offset..offset + |buf|] == buf
      && r[..offset] == file[..offset]
      && forall i :: offset + |buf| <= i < |file| ==> r[i] == file[i]
  {
  }

  /** Two writes one after the other are one write of both. */
  lemma WritesJoin(file: seq<Byte>, offset: nat, a: seq<Byte>, b: seq<Byte>)
    requires offset <= |file|
    ensures Written(Written(file, offset, a), offset + |a|, b) == Written(file, offset, a + b)
  {
    var one := Written(file, offset, a);
    assert one[..offset + |a|] == file[..offset] + a;
    if offset + |a| + |b| < |one| {
      assert one[offset + |a| + |b|..] == file[offset + |a| + |b|..];
    }
  }

  // -------------------------------------------------------------------- 32-bit sizes

  /** The capacity a write leaves: both the new end and its double are 32-bit words. */
  function NewCapacity(capacity: nat, offset: nat, size: nat): nat {
    if (offset + size) % WORD > capacity then (offset + size) % WORD * 2 % WORD else capacity
  }

  /** The buffer reaches the end of what is written exactly when it already did or the end
      lies below 2^31; only then is it the unbounded doubling. */
  lemma CapacityCovers(capacity: nat, offset: nat, size: nat)
    requires capacity < WORD && offset < WORD && size < WORD
    ensures var r := NewCapacity(capacity, offset, size);
      && (offset + size <= r <==> offset + size <= capacity || offset + size < WORD / 2)
      && (offset + size <= r ==> r == if offset + size > capacity then 2 * (offset + size) else capacity)
  {
    var end := (offset + size) % WORD;
    assert end == if offset + size < WORD then offset + size else offset + size - WORD;
    assert end * 2 % WORD == if end < WORD / 2 then end * 2 else end * 2 - WORD;
  }

  // ----------------------------------------------------------------------- the inode

  class Inode {
    var data: array?<Byte>
    var size: nat
    var capacity: nat
    /** Bytes moved by all regrowths so far. */
    ghost var copied: nat

    ghost predicate Valid()
      reads this, data
    {
      && size <= capacity <= 2 * size
      && copied <= capacity
      && (if data == null then capacity == 0 else data.Length == capacity)
    }

    ghost function Contents(): (s: seq<Byte>)
      requires Valid()
      reads this, data
      ensures |s| == size
    {
      if data == null then [] else data[..size]
    }

    /** create_inode, and load_initramfs for a file with data. */
    constructor (bytes: seq<Byte>)
      ensures Valid() && Contents() == bytes && (data != null ==> fresh(data))
    {
      if bytes != [] {
        var d := new Byte[|bytes|](i requires 0 <= i < |bytes| => bytes[i]);
        data := d;
      } else {
        data := null;
      }
      size, capacity, copied := |bytes|, |bytes|, 0;
    }

    /** The buffer doubles what is needed; the old bytes are copied over. */
    method Grow(needed: nat)
      requires Valid() && needed > capacity
      modifies this
      ensures data != null && fresh(data) && data.Length == capacity == 2 * needed
      ensures size == old(size) && data[..size] == old(Contents())
      ensures copied <= capacity
    {
      var d := new Byte[2 * needed](i => 0);
      if data != null {
        var i := 0;
        while i < size
          invariant 0 <= i <= size && d[..i] == data[..i]
          invariant unchanged(this) && fresh(d) && d.Length == 2 * needed
          modifies d
        {
          d[i] := data[i];
          i := i + 1;
        }
        copied := copied + size;
      }
      data, capacity := d, 2 * needed;
    }
  }

  lemma PutIsWritten(all: seq<Byte>, size: nat, offset: nat, buf: seq<Byte>)
    requires offset <= size <= |all| && offset + |buf| <= |all|
    ensures
      var end := if offset + |buf| > size then offset + |buf| else size;
      (all[..offset] + buf + all[offset + |buf|..])[..end] == Written(all[..size], offset, buf)
  {
  }

  class Descriptor {
    const inode: Inode
    var offset: nat

    ghost predicate Valid()
      reads this, inode, inode.data
    {
      inode.Valid() && offset <= inode.size
    }

    constructor (inode: Inode)
      requires inode.Valid()
      ensures this.inode == inode && offset == 0 && Valid()
    {
      this.inode := inode;
      offset := 0;
    }

    /** read: the slice at the offset, as far as the file goes. */
    method Read(size: nat) returns (buf: seq<Byte>)
      requires Valid()
      modifies `offset
      ensures Valid() && offset == old(offset) + ReadSize(inode.Contents(), old(offset), size)
      ensures buf == inode.Contents()[old(offset)..offset]
    {
      buf := [];
      if offset >= inode.size { return; }
      var remaining := inode.size - offset;
      var n := if size < remaining then size else remaining;
      var i := 0;
      while i < n
        invariant 0 <= i <= n && buf == inode.data[offset..offset + i]
        modifies {}
      {
        buf := buf + [inode.data[offset + i]];
        i := i + 1;
      }
      offset := offset + n;
    }

    /** write: overwrite, then extend. The file never shrinks, so the offsets of all other
        descriptors stay within it. */
    method Write(buf: seq<Byte>) returns (n: nat)
      requires Valid()
      modifies `offset, inode, inode.data
      ensures Valid() && n == |buf| && offset == old(offset) + n
      ensures inode.Contents() == Written(old(inode.Contents()), old(offset), buf)
      ensures inode.size >= old(inode.size)
      ensures inode.data == old(inode.data) || fresh(inode.data)
    {
      if offset + |buf| > inode.capacity {
        inode.Grow(offset + |buf|);
      }
      if inode.data != null { PutIsWritten(inode.data[..], inode.size, offset, buf); }
      Put(buf);
      offset := offset + |buf|;
      if offset > inode.size { inode.size := offset; }
      n := |buf|;
    }

    /** The copy into a buffer that is large enough. */
    method Put(buf: seq<Byte>)
      requires offset + |buf| <= inode.capacity && inode.size <= inode.capacity && offset <= inode.size
      requires inode.data == null ==> inode.capacity == 0
      requires inode.data != null ==> inode.data.Length == inode.capacity
      modifies inode.data
      ensures inode.data != null ==>
        inode.data[..] == old(inode.data[..offset]) + buf + old(inode.data[offset + |buf|..])
    {
      var d := inode.data;
      if d == null { return; }
      var i := 0;
      while i < |buf|
        invariant 0 <= i <= |buf|
        invariant d[..] == old(d[..offset]) + buf[..i] + old(d[offset + i..])
        modifies d
      {
        d[offset + i] := buf[i];
        i := i + 1;
      }
      assert buf[..i] == buf;
    }

    method Seek(to: nat) returns (ok: bool)
      requires Valid()
      modifies `offset
      ensures Valid() && (ok <==> to <= inode.size)
      ensures offset == if ok then to else old(offset)
    {
      if to > inode.size { return false; }
      offset := to;
      return true;
    }
  }

  // ----------------------------------------------------------------------------- runs

  /** A file as a byte sequence with the offsets of its descriptors. */
  datatype File = File(bytes: seq<Byte>, offsets: seq<nat>)

  datatype Op = Read(d: nat, size: nat) | Write(d: nat, buf: seq<Byte>) | Seek(d: nat, to: nat) | Open

  predicate Within(f: File) {
    forall d :: 0 <= d < |f.offsets| ==> f.offsets[d] <= |f.bytes|
  }

  function Step(f: File, op: Op): File
    requires Within(f)
  {
    match op
    case Open => f.(offsets := f.offsets + [0])
    case Read(d, size) =>
      if d >= |f.offsets| then f
      else f.(offsets := f.offsets[d := f.offsets[d] + ReadSize(f.bytes, f.offsets[d], size)])
    case Write(d, buf) =>
      if d >= |f.offsets| then f
      else File(Written(f.bytes, f.offsets[d], buf), f.offsets[d := f.offsets[d] + |buf|])
    case Seek(d, to) =>
      if d >= |f.offsets| || to > |f.bytes| then f else f.(offsets := f.offsets[d := to])
  }

  /** Whatever the descriptors do, every offset stays within the file and no byte is lost
      at its end. */
  lemma StepKeeps(f: File, op: Op)
    requires Within(f)
    ensures Within(Step(f, op)) && |Step(f, op).bytes| >= |f.bytes|
  {
  }

  ghost function Run(f: File, ops: seq<Op>): File
    requires Within(f)
    ensures Within(Run(f, ops)) && |Run(f, ops).bytes| >= |f.bytes|
    decreases |ops|
  {
    if ops == [] then f else StepKeeps(f, ops[0]); Run(Step(f, ops[0]), ops[1..])
  }

  /** The bytes that reads of these sizes return one after the other, from the i-th on. */
  function Chunks(file: seq<Byte>, offset: nat, sizes: seq<nat>, i: nat): seq<Byte>
    requires offset <= |file|
    decreases |sizes| - i
  {
    if i >= |sizes| then []
    else
      var n := ReadSize(file, offset, sizes[i]);
      file[offset..offset + n] + Chunks(file, offset + n, sizes, i + 1)
  }

  /** The total of the sizes from the i-th on. */
  function Total(sizes: seq<nat>, i: nat): nat
    decreases |sizes| - i
  {
    if i >= |sizes| then 0 else sizes[i] + Total(sizes, i + 1)
  }

  lemma ReadSizeAdds(file: seq<Byte>, offset: nat, a: nat, b: nat)
    requires offset <= |file|
    ensures var n := ReadSize(file, offset, a); ReadSize(file, offset, a + b) == n + ReadSize(file, offset + n, b)
  {
  }

  /** Reading in pieces returns what one read of the total size returns. */
  lemma {:induction false} ChunksJoin(file: seq<Byte>, offset: nat, sizes: seq<nat>, i: nat)
    requires offset <= |file|
    ensures Chunks(file, offset, sizes, i) == file[offset..offset + ReadSize(file, offset, Total(sizes, i))]
    decreases |sizes| - i
  {
    if i < |sizes| {
      var n := ReadSize(file, offset, sizes[i]);
      ChunksJoin(file, offset + n, sizes, i + 1);
      ChunkInFront(file, offset, sizes[i], Total(sizes, i + 1), Chunks(file, offset + n, sizes, i + 1));
    }
  }

  lemma ChunkInFront(file: seq<Byte>, offset: nat, a: nat, b: nat, rest: seq<Byte>)
    requires offset <= |file|
    requires var n := ReadSize(file, offset, a); rest == file[offset + n..offset + n + ReadSize(file, offset + n, b)]
    ensures file[offset..offset + ReadSize(file, offset, a)] + rest ==
        file[offset..offset + ReadSize(file, offset, a + b)]
  {
    var n := ReadSize(file, offset, a);
    ReadSizeAdds(file, offset, a, b);
    Adjacent(file, offset, n, ReadSize(file, offset + n, b), rest);
  }

  lemma Adjacent(file: seq<Byte>, offset: nat, n: nat, m: nat, rest: seq<Byte>)
    requires offset + n + m <= |file| && rest == file[offset + n..offset + n + m]
    ensures file[offset..offset + n] + rest == file[offset..offset + n + m]
  {
  }
}
