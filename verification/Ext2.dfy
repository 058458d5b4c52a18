/** Reading ext2 files through the page cache. */
module Ext2 {
  import opened Bits
  import opened HashList
  import MemFile

  const PAGE_SIZE: nat := 4096
  const DIRECT: nat := 12
  /** The block numbers of an indirect block that the code counts on, and those that a
      block of 4096 bytes holds. */
  const INDIRECT: nat := 256
  const WORDS: nat := 1024
  const DOUBLE: nat := DIRECT + INDIRECT  // where the double-indirect branch starts

  /** A block device that nobody writes: the bytes of every block. */
  type Device = nat -> seq<Byte>

  ghost predicate DeviceOk(dev: Device) {
    forall b :: |dev(b)| == PAGE_SIZE
  }

  // ----------------------------------------------------------------------- page cache

  /** What others may do to the cache between two reads. */
  datatype CacheOp = Get(key: nat) | Drop(key: nat)

  /** The keys in the cache after the first n operations. */
  function CachedAfter(keys: set<nat>, ops: seq<CacheOp>, n: nat): set<nat>
    requires n <= |ops|
  {
    if n == 0 then keys
    else
      var before, op := CachedAfter(keys, ops, n - 1), ops[n - 1];
      if op.Get? then before + {op.key} else before - {op.key}
  }

  ghost predicate IsDropped(ops: seq<CacheOp>, n: nat, key: nat)
    requires n <= |ops|
  {
    exists i :: 0 <= i < n && ops[i] == Drop(key)
  }

  /** What the first n operations do: the keys are those that CachedAfter says, and a page
      that is not dropped keeps its node. */
  ghost predicate Served(before: map<nat, Node>, after: map<nat, Node>, ops: seq<CacheOp>, n: nat)
    requires n <= |ops|
  {
    && after.Keys == CachedAfter(before.Keys, ops, n)
    && forall key :: key in before && !IsDropped(ops, n, key) ==> key in after && after[key] == before[key]
  }

  ghost predicate ServedOne(before: map<nat, Node>, after: map<nat, Node>, op: CacheOp) {
    match op
    case Get(key) => key in after && after == before[key := after[key]] && (key in before ==> before[key] == after[key])
    case Drop(key) => after == before - {key}
  }

  lemma ServedNext(before: map<nat, Node>, middle: map<nat, Node>, after: map<nat, Node>, ops: seq<CacheOp>, n: nat)
    requires n < |ops| && Served(before, middle, ops, n) && ServedOne(middle, after, ops[n])
    ensures Served(before, after, ops, n + 1)
  {
    assert after.Keys == if ops[n].Get? then middle.Keys + {ops[n].key} else middle.Keys - {ops[n].key};
    forall key | key in before && !IsDropped(ops, n + 1, key) ensures key in after && after[key] == before[key] {
      assert ops[n] != Drop(key) && !IsDropped(ops, n, key);
    }
  }

  class SimplePageCache {
    const dev: Device
    const cache: HashList

    /** Every page in the cache is the block of the device. */
    ghost predicate Valid()
      reads cache, cache.buckets, cache.view.Values
    {
      && cache.Valid() && DeviceOk(dev)
      && forall key :: key in cache.view ==> cache.view[key].value.data == dev(key)
    }

    constructor (dev: Device)
      requires DeviceOk(dev)
      ensures Valid() && this.dev == dev && fresh(cache) && fresh(cache.buckets)
    {
      this.dev := dev;
      this.cache := new HashList(256);
    }

    /** get_page: the page of the block, at the place it has had since it came into the
        cache, or at a new one. No page is moved or written. */
    method GetPage(key: nat) returns (page: Node)
      requires Valid()
      modifies cache, cache.buckets
      ensures Valid() && page.key == key && page.value.data == dev(key)
      ensures cache.view == old(cache.view)[key := page]
      ensures if key in old(cache.view) then page == old(cache.view)[key] else fresh(page)
    {
      var found := cache.Find(key);
      if found != null {
        assert cache.view[key := found] == cache.view;
        return found;
      }
      page := cache.Insert(key, Page(dev(key), false));
    }

    method ReadPage(key: nat, offset: nat, size: nat) returns (buf: seq<Byte>)
      requires Valid()
      ensures buf ==
        if key !in cache.view || offset >= PAGE_SIZE then []
        else dev(key)[offset..if size < PAGE_SIZE - offset then offset + size else PAGE_SIZE]
    {
      var found := cache.Find(key);
      if found == null { return []; }
      if offset >= PAGE_SIZE { return []; }
      var n := if size < PAGE_SIZE - offset then size else PAGE_SIZE - offset;
      buf := found.value.data[offset..offset + n];
    }

    method Invalidate(key: nat)
      requires Valid()
      modifies cache, cache.buckets
      ensures Valid() && cache.view == old(cache.view) - {key}
    {
      var found := cache.Find(key);
      if found != null {
        var ok := cache.Erase(key);
      } else {
        assert cache.view - {key} == cache.view;
      }
    }

    method ServeOne(op: CacheOp)
      requires Valid()
      modifies cache, cache.buckets
      ensures Valid() && ServedOne(old(cache.view), cache.view, op)
    {
      match op
      case Get(key) =>
        var page := GetPage(key);
      case Drop(key) =>
        Invalidate(key);
    }

    method ServeNext(ghost before: map<nat, Node>, ops: seq<CacheOp>, i: nat)
      requires Valid() && i < |ops| && Served(before, cache.view, ops, i)
      modifies cache, cache.buckets
      ensures Valid() && Served(before, cache.view, ops, i + 1)
    {
      ServeOne(ops[i]);
      ServedNext(before, old(cache.view), cache.view, ops, i);
    }

    /** Any run of get_page and invalidate. A page that was cached before and is not
        invalidated stays the same node with the same contents; the modifies clause leaves
        out every node there was. */
    method Serve(ops: seq<CacheOp>)
      requires Valid()
      modifies cache, cache.buckets
      ensures Valid() && Served(old(cache.view), cache.view, ops, |ops|)
    {
      var i := 0;
      while i < |ops|
        invariant 0 <= i <= |ops| && Valid() && Served(old(cache.view), cache.view, ops, i)
      {
        ServeNext(old(cache.view), ops, i);
        i := i + 1;
      }
    }
  }

  // ---------------------------------------------------------------------------- files

  /** A little-endian 32-bit word. */
  function Word(block: seq<Byte>, i: nat): nat
    requires i + 4 <= |block|
  {
    var a: nat, b: nat, c: nat, d: nat := block[i], block[i + 1], block[i + 2], block[i + 3];
    a + 0x100 * b + 0x1_0000 * c + 0x100_0000 * d
  }

  datatype Inode = Inode(size: nat, blocks: seq<nat>)

  /** Files of at most 1292 blocks: for later ones the double-indirect branch reads past
      the page. */
  predicate InodeOk(n: Inode) {
    |n.blocks| == 15 && n.size <= (DOUBLE + WORDS) * PAGE_SIZE
  }

  /** The device block that the code takes for block i of a file. */
  ghost function BlockOf(dev: Device, n: Inode, i: nat): nat
    requires DeviceOk(dev) && |n.blocks| == 15 && i < DOUBLE + WORDS
  {
    if i < DIRECT then n.blocks[i]
    else if i < DOUBLE then Word(dev(n.blocks[12]), (i - DIRECT) * 4)
    else Word(dev(Word(dev(n.blocks[13]), (i - DOUBLE) * 4)), (i - DOUBLE) % INDIRECT * 4)
  }

  lemma DoubleBlock(dev: Device, n: Inode, k: nat, indirect: nat)
    requires DeviceOk(dev) && |n.blocks| == 15 && k < WORDS && indirect == Word(dev(n.blocks[13]), k * 4)
    ensures BlockOf(dev, n, DOUBLE + k) == Word(dev(indirect), k % INDIRECT * 4)
  {
  }

  ghost function ByteOf(dev: Device, n: Inode, pos: nat): Byte
    requires DeviceOk(dev) && InodeOk(n) && pos < n.size
  {
    dev(BlockOf(dev, n, pos / PAGE_SIZE))[pos % PAGE_SIZE]
  }

  /** The file is the bytes of the mapped device blocks, in order. */
  ghost predicate IsContents(dev: Device, n: Inode, file: seq<Byte>) {
    && DeviceOk(dev) && InodeOk(n) && |file| == n.size
    && forall i: nat {:trigger ByteOf(dev, n, i)} :: i < n.size ==> file[i] == ByteOf(dev, n, i)
  }

  ghost function Contents(dev: Device, n: Inode): (file: seq<Byte>)
    requires DeviceOk(dev) && InodeOk(n)
    ensures IsContents(dev, n, file)
  {
    seq(n.size, (i: nat) requires i < n.size => ByteOf(dev, n, i))
  }

  // ------------------------------------------------------------------- ext2's own map

  /** The four bytes from i on are the number n, least significant byte first. */
  predicate HoldsNumber(block: seq<Byte>, i: nat, n: nat)
    requires i + 4 <= |block|
  {
    && n < WORD && block[i] == n % 256 && block[i + 1] == n / 256 % 256
    && block[i + 2] == n / 65536 % 256 && block[i + 3] == n / 16777216 % 256
  }

  lemma FourDigits(n: nat)
    requires n < WORD
    ensures n == n % 256 + 256 * (n / 256 % 256) + 65536 * (n / 65536 % 256) + 16777216 * (n / 16777216 % 256)
  {
    assert n / 65536 == n / 256 / 256 && n / 16777216 == n / 256 / 256 / 256;
  }

  lemma DigitsOf(a: nat, b: nat, c: nat, d: nat)
    requires a < 256 && b < 256 && c < 256 && d < 256
    ensures var n := a + 256 * b + 65536 * c + 16777216 * d;
            n < WORD && n % 256 == a && n / 256 % 256 == b && n / 65536 % 256 == c && n / 16777216 % 256 == d
  {
    var n := a + 256 * b + 65536 * c + 16777216 * d;
    assert n / 256 == b + 256 * c + 65536 * d && n / 65536 == c + 256 * d && n / 16777216 == d;
  }

  /** A 32-bit load gives the number that the bytes hold, and no other. */
  lemma WordIff(block: seq<Byte>, i: nat, n: nat)
    requires i + 4 <= |block|
    ensures HoldsNumber(block, i, n) <==> Word(block, i) == n
  {
    DigitsOf(block[i] as nat, block[i + 1] as nat, block[i + 2] as nat, block[i + 3] as nat);
    if HoldsNumber(block, i, n) { FourDigits(n); }
  }

  /** Block i of a file on ext2 with 4096-byte blocks, whose indirect blocks hold 1024
      numbers each, is device block b. */
  ghost predicate IsExt2Block(dev: Device, n: Inode, i: nat, b: nat)
    requires DeviceOk(dev) && |n.blocks| == 15 && i < DIRECT + WORDS + WORDS * WORDS
  {
    if i < DIRECT then b == n.blocks[i]
    else if i < DIRECT + WORDS then HoldsNumber(dev(n.blocks[12]), (i - DIRECT) * 4, b)
    else
      var k := i - DIRECT - WORDS;
      exists x: nat :: HoldsNumber(dev(n.blocks[13]), k / WORDS * 4, x) && HoldsNumber(dev(x), k % WORDS * 4, b)
  }

  lemma OneExt2Block(dev: Device, n: Inode, i: nat, b: nat, c: nat)
    requires DeviceOk(dev) && |n.blocks| == 15 && i < DIRECT + WORDS + WORDS * WORDS
    requires IsExt2Block(dev, n, i, b) && IsExt2Block(dev, n, i, c)
    ensures b == c
  {
    if i >= DIRECT + WORDS {
      var k := i - DIRECT - WORDS;
      var x: nat :| HoldsNumber(dev(n.blocks[13]), k / WORDS * 4, x) && HoldsNumber(dev(x), k % WORDS * 4, b);
      var y: nat :| HoldsNumber(dev(n.blocks[13]), k / WORDS * 4, y) && HoldsNumber(dev(y), k % WORDS * 4, c);
      WordIff(dev(n.blocks[13]), k / WORDS * 4, x);
      WordIff(dev(n.blocks[13]), k / WORDS * 4, y);
      WordIff(dev(x), k % WORDS * 4, b);
      WordIff(dev(x), k % WORDS * 4, c);
    } else if i >= DIRECT {
      WordIff(dev(n.blocks[12]), (i - DIRECT) * 4, b);
      WordIff(dev(n.blocks[12]), (i - DIRECT) * 4, c);
    }
  }

  /** Through the direct and the single-indirect branch the code takes the right block. */
  lemma BlockIsExt2(dev: Device, n: Inode, i: nat)
    requires DeviceOk(dev) && |n.blocks| == 15 && i < DOUBLE
    ensures IsExt2Block(dev, n, i, BlockOf(dev, n, i))
  {
    if i >= DIRECT { WordIff(dev(n.blocks[12]), (i - DIRECT) * 4, BlockOf(dev, n, i)); }
  }

  /** The byte at pos is the one at its offset in the block where ext2 has it. */
  ghost predicate IsExt2Byte(dev: Device, n: Inode, pos: nat, x: Byte)
    requires DeviceOk(dev) && InodeOk(n) && pos < n.size
  {
    exists b: nat :: IsExt2Block(dev, n, pos / PAGE_SIZE, b) && dev(b)[pos % PAGE_SIZE] == x
  }

  /** What the code takes for the file is the file. */
  ghost predicate IsExt2File(dev: Device, n: Inode)
    requires DeviceOk(dev) && InodeOk(n)
  {
    forall pos: nat {:trigger ByteOf(dev, n, pos)} :: pos < n.size ==> IsExt2Byte(dev, n, pos, ByteOf(dev, n, pos))
  }

  /** A device on which block 0 is all zeros and every other block all ones, but for the first
      `zeros` bytes of block 1. */
  function Ones(zeros: nat): Device {
    (b: nat) => seq(PAGE_SIZE, i requires 0 <= i < PAGE_SIZE => if b == 0 || (b == 1 && i < zeros) then 0 else 1)
  }

  /** Files on it have nothing but holes up to block 13, the double-indirect block, which is
      block 1. */
  function Holes(): (blocks: seq<nat>)
    ensures |blocks| == 15 && blocks[12] == 0 && blocks[13] == 1
  {
    seq(15, i => if i == 13 then 1 else 0)
  }

  function ZerosFor(i: nat): nat {
    if i < DIRECT + WORDS then 0 else 4
  }

  lemma DoubleIndirectWrong(i: nat, size: nat)
    requires DOUBLE <= i < DOUBLE + WORDS
    ensures var dev, n := Ones(ZerosFor(i)), Inode(size, Holes());
            && DeviceOk(dev) && BlockOf(dev, n, i) != 0 && forall b: nat :: IsExt2Block(dev, n, i, b) ==> b == 0
  {
    var dev, n := Ones(ZerosFor(i)), Inode(size, Holes());
    forall b: nat | IsExt2Block(dev, n, i, b) ensures b == 0 {
      if i < DIRECT + WORDS {
        WordIff(dev(0), (i - DIRECT) * 4, b);
      } else {
        var k := i - DIRECT - WORDS;
        assert k / WORDS == 0;
        var x: nat :| HoldsNumber(dev(1), k / WORDS * 4, x) && HoldsNumber(dev(x), k % WORDS * 4, b);
        WordIff(dev(1), 0, x);
        WordIff(dev(0), k % WORDS * 4, b);
      }
    }
  }

  /** The code takes ext2's block, on every device, exactly for the first 268 blocks. */
  lemma BlockRightIff(i: nat, size: nat)
    requires i < DOUBLE + WORDS
    ensures (forall dev: Device, blocks: seq<nat> :: DeviceOk(dev) && |blocks| == 15 ==>
               IsExt2Block(dev, Inode(size, blocks), i, BlockOf(dev, Inode(size, blocks), i)))
       <==> i < DOUBLE
  {
    if i < DOUBLE {
      forall dev: Device, blocks: seq<nat> | DeviceOk(dev) && |blocks| == 15
        ensures IsExt2Block(dev, Inode(size, blocks), i, BlockOf(dev, Inode(size, blocks), i))
      {
        BlockIsExt2(dev, Inode(size, blocks), i);
      }
    } else {
      DoubleIndirectWrong(i, size);
    }
  }

  /** So the first byte past the single-indirect branch goes wrong. */
  lemma LongFileWrong(size: nat)
    requires DOUBLE * PAGE_SIZE < size <= (DOUBLE + WORDS) * PAGE_SIZE
    ensures DeviceOk(Ones(0)) && !IsExt2File(Ones(0), Inode(size, Holes()))
  {
    var dev, n := Ones(0), Inode(size, Holes());
    Split(DOUBLE * PAGE_SIZE, DOUBLE, 0);
    DoubleIndirectWrong(DOUBLE, size);
    assert ByteOf(dev, n, DOUBLE * PAGE_SIZE) == 1 && !IsExt2Byte(dev, n, DOUBLE * PAGE_SIZE, 1);
  }

  /** Reads give the file of every device exactly up to 268 blocks. */
  lemma ReadsExt2Iff(size: nat)
    requires size <= (DOUBLE + WORDS) * PAGE_SIZE
    ensures (forall dev: Device, blocks: seq<nat> :: DeviceOk(dev) && |blocks| == 15 ==>
        IsExt2File(dev, Inode(size, blocks)))
       <==> size <= DOUBLE * PAGE_SIZE
  {
    if size > DOUBLE * PAGE_SIZE {
      LongFileWrong(size);
    } else {
      forall dev: Device, blocks: seq<nat> | DeviceOk(dev) && |blocks| == 15
        ensures IsExt2File(dev, Inode(size, blocks))
      {
        FileIsExt2(dev, Inode(size, blocks));
      }
    }
  }

  /** The bytes of a read that lie in the first 268 blocks are those of the file. */
  ghost predicate AreExt2Bytes(dev: Device, n: Inode, start: nat, buf: seq<Byte>)
    requires DeviceOk(dev) && InodeOk(n) && start + |buf| <= n.size
  {
    forall j: nat {:trigger buf[j]} :: j < |buf| && start + j < DOUBLE * PAGE_SIZE ==>
      IsExt2Byte(dev, n, start + j, buf[j])
  }

  lemma ReadIsExt2(dev: Device, n: Inode, file: seq<Byte>, start: nat, end: nat)
    requires IsContents(dev, n, file) && start <= end <= n.size
    ensures AreExt2Bytes(dev, n, start, file[start..end])
  {
    forall j: nat | j < end - start && start + j < DOUBLE * PAGE_SIZE
      ensures IsExt2Byte(dev, n, start + j, file[start..end][j])
    {
      BlockIsExt2(dev, n, (start + j) / PAGE_SIZE);
      assert file[start + j] == ByteOf(dev, n, start + j);
    }
  }

  lemma FileIsExt2(dev: Device, n: Inode)
    requires DeviceOk(dev) && InodeOk(n) && n.size <= DOUBLE * PAGE_SIZE
    ensures IsExt2File(dev, n)
  {
    forall pos: nat | pos < n.size ensures IsExt2Byte(dev, n, pos, ByteOf(dev, n, pos)) {
      BlockIsExt2(dev, n, pos / PAGE_SIZE);
    }
  }

  lemma Split(pos: nat, i: nat, o: nat)
    requires pos == i * PAGE_SIZE + o && o < PAGE_SIZE
    ensures pos / PAGE_SIZE == i && pos % PAGE_SIZE == o
  {
  }

  /** A piece of the file that lies within block i, from offset o on. */
  lemma WithinBlock(dev: Device, n: Inode, file: seq<Byte>, i: nat, o: nat, len: nat, b: nat)
    requires IsContents(dev, n, file) && i < DOUBLE + WORDS && i * PAGE_SIZE + o + len <= n.size && o + len <= PAGE_SIZE
    requires b == BlockOf(dev, n, i)
    ensures dev(b)[o..o + len] == file[i * PAGE_SIZE + o..i * PAGE_SIZE + o + len]
  {
    var pos := i * PAGE_SIZE + o;
    var piece, part := dev(b)[o..o + len], file[pos..pos + len];
    forall j | 0 <= j < len ensures piece[j] == part[j] {
      Split(pos + j, i, o + j);
      assert part[j] == ByteOf(dev, n, pos + j);
    }
  }

  lemma Extend(file: seq<Byte>, start: nat, pos: nat, next: nat, buf: seq<Byte>, piece: seq<Byte>)
    requires start <= pos <= next <= |file|
    requires buf == file[start..pos] && piece == file[pos..next]
    ensures buf + piece == file[start..next]
  {
  }

  class FileDescriptor {
    const inode: Inode
    const pages: SimplePageCache
    var position: nat
    ghost const file: seq<Byte>

    ghost predicate Valid()
      reads `position, pages.cache, pages.cache.buckets, pages.cache.view.Values
    {
      HasFile() && position <= inode.size
    }

    ghost predicate HasFile()
      reads pages.cache, pages.cache.buckets, pages.cache.view.Values
    {
      pages.Valid() && IsContents(pages.dev, inode, file)
    }

    constructor (inode: Inode, pages: SimplePageCache)
      requires pages.Valid() && InodeOk(inode)
      ensures Valid() && this.inode == inode && this.pages == pages && position == 0
    {
      this.inode, this.pages, this.position := inode, pages, 0;
      this.file := Contents(pages.dev, inode);
    }

    /** get_block_id: the direct and the single- and double-indirect branches. */
    method GetBlockId(i: nat) returns (b: nat)
      requires Valid() && i < DOUBLE + WORDS
      modifies pages.cache, pages.cache.buckets
      ensures Valid() && b == BlockOf(pages.dev, inode, i)
      ensures i < DOUBLE ==> IsExt2Block(pages.dev, inode, i, b)
    {
      if i < DOUBLE { BlockIsExt2(pages.dev, inode, i); }
      if i < DIRECT {
        b := inode.blocks[i];
      } else if i < DIRECT + INDIRECT {
        b := ReadWord(inode.blocks[12], (i - DIRECT) * 4);
      } else {
        b := DoubleIndirect(i - DIRECT - INDIRECT);
      }
    }

    method DoubleIndirect(k: nat) returns (b: nat)
      requires Valid() && k < WORDS
      modifies pages.cache, pages.cache.buckets
      ensures Valid() && b == BlockOf(pages.dev, inode, DOUBLE + k)
    {
      var offset := k % (INDIRECT * INDIRECT);
      assert offset == k;
      var indirect := ReadWord(inode.blocks[13], offset * 4);
      DoubleBlock(pages.dev, inode, k, indirect);
      b := ReadWord(indirect, k % INDIRECT * 4);
    }

    /** A word of a cached block. */
    method ReadWord(key: nat, offset: nat) returns (w: nat)
      requires Valid() && offset + 4 <= PAGE_SIZE
      modifies pages.cache, pages.cache.buckets
      ensures Valid() && w == Word(pages.dev(key), offset)
    {
      var page := pages.GetPage(key);
      w := Word(page.value.data, offset);
    }

    /** One turn of read: a piece of the file from a single cached page. */
    method ReadPiece(i: nat, o: nat, n: nat) returns (piece: seq<Byte>)
      requires Valid() && i < DOUBLE + WORDS && i * PAGE_SIZE + o + n <= inode.size && o + n <= PAGE_SIZE
      modifies pages.cache, pages.cache.buckets
      ensures Valid() && piece == file[i * PAGE_SIZE + o..i * PAGE_SIZE + o + n]
    {
      var b := GetBlockId(i);
      WithinBlock(pages.dev, inode, file, i, o, n, b);
      var page := pages.GetPage(b);
      piece := page.value.data[o..o + n];
    }

    /** As much as the block at the position gives. */
    method NextPiece(toRead: nat) returns (piece: seq<Byte>)
      requires Valid() && 0 < toRead <= inode.size - position
      modifies pages.cache, pages.cache.buckets
      ensures Valid() && 0 < |piece| <= toRead && piece == file[position..position + |piece|]
    {
      var i, offset := position / PAGE_SIZE, position % PAGE_SIZE;
      assert position == i * PAGE_SIZE + offset;
      var n := if PAGE_SIZE - offset < toRead then PAGE_SIZE - offset else toRead;
      piece := ReadPiece(i, offset, n);
    }

    /** One turn of the loop of read: the buffer so far, longer by a piece. */
    method ReadTurn(ghost start: nat, buf: seq<Byte>, toRead: nat) returns (longer: seq<Byte>, left: nat)
      requires Valid() && 0 < toRead <= inode.size - position && start <= position && buf == file[start..position]
      modifies `position, pages.cache, pages.cache.buckets
      ensures Valid() && left < toRead && position + left == old(position) + toRead
      ensures start <= position && longer == file[start..position]
    {
      var piece := NextPiece(toRead);
      var next := position + |piece|;
      Extend(file, start, position, next, buf, piece);
      longer := buf + piece;
      position, left := next, toRead - |piece|;
    }

    /** read: the bytes of the mapped blocks from the position on. */
    method Read(size: nat) returns (buf: seq<Byte>)
      requires Valid()
      modifies `position, pages.cache, pages.cache.buckets
      ensures Valid()
      ensures position == old(position) + MemFile.ReadSize(file, old(position), size)
      ensures buf == file[old(position)..position] && AreExt2Bytes(pages.dev, inode, old(position), buf)
    {
      var remaining := inode.size - position;
      var toRead := if size < remaining then size else remaining;
      ghost var start, end := position, position + toRead;
      buf := [];
      while toRead > 0
        invariant Valid() && start <= position && 0 <= toRead && position + toRead == end
        invariant buf == file[start..position]
        decreases toRead
      {
        buf, toRead := ReadTurn(start, buf, toRead);
      }
      ReadIsExt2(pages.dev, inode, file, start, position);
    }

    method Seek(to: nat) returns (r: int)
      requires Valid()
      modifies `position
      ensures Valid() && position == if to <= inode.size then to else old(position)
      ensures r == if to <= inode.size then to else -1
    {
      if to > inode.size { return -1; }
      position := to;
      return position;
    }

    /** The i-th of several reads, after others have used the cache. */
    method ReadNext(ghost start: nat, bufs: seq<Byte>, sizes: seq<nat>, i: nat, others: seq<CacheOp>)
      returns (longer: seq<Byte>)
      requires Valid() && i < |sizes| && start <= position && bufs == file[start..position]
      modifies `position, pages.cache, pages.cache.buckets
      ensures Valid() && start <= position && longer == file[start..position]
      ensures position + MemFile.ReadSize(file, position, MemFile.Total(sizes, i + 1)) ==
              old(position) + MemFile.ReadSize(file, old(position), MemFile.Total(sizes, i))
    {
      pages.Serve(others);
      var piece := Read(sizes[i]);
      MemFile.ReadSizeAdds(file, old(position), sizes[i], MemFile.Total(sizes, i + 1));
      Extend(file, start, old(position), position, bufs, piece);
      longer := bufs + piece;
    }

    /** Reads of the given sizes one after the other, with anything done to the cache
        before each: together they return what one read of the total size returns. */
    method ReadAll(sizes: seq<nat>, others: seq<seq<CacheOp>>) returns (bufs: seq<Byte>)
      requires Valid() && |others| == |sizes|
      modifies `position, pages.cache, pages.cache.buckets
      ensures Valid()
      ensures position == old(position) + MemFile.ReadSize(file, old(position), MemFile.Total(sizes, 0))
      ensures bufs == file[old(position)..position] && AreExt2Bytes(pages.dev, inode, old(position), bufs)
    {
      ghost var start, end := position, position + MemFile.ReadSize(file, position, MemFile.Total(sizes, 0));
      bufs := [];
      var i := 0;
      while i < |sizes|
        invariant 0 <= i <= |sizes| && Valid() && start <= position && bufs == file[start..position]
        invariant position + MemFile.ReadSize(file, position, MemFile.Total(sizes, i)) == end
      {
        bufs := ReadNext(start, bufs, sizes, i, others[i]);
        i := i + 1;
      }
      ReadIsExt2(pages.dev, inode, file, start, position);
    }
  }
}
