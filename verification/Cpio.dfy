/** The newc archive format and the initramfs loader. */
module Cpio {
  import opened Bits

  /** Memory by address. The archive lies in it; so does whatever follows. */
  type Memory = nat -> Byte

  const HEADER_SIZE: nat := 110
  const MODE_AT: nat := 14
  const FILESIZE_AT: nat := 54
  const NAMESIZE_AT: nat := 94
  const HALF_WORD: nat := 0x1_0000
  /** Names are copied with room for 255 bytes. */
  const NAME_ROOM: nat := 255

  const MAGIC: seq<Byte> := [48, 55, 48, 55, 48, 49]
  /** "TRAILER!!", the part of the trailer's name that is looked at. */
  const TRAILER_MARK: seq<Byte> := [84, 82, 65, 73, 76, 69, 82, 33, 33]

  // ---------------------------------------------------------------------- hex fields

  /** A character that is no hex digit counts as 0. */
  function HexValue(c: Byte): (v: nat)
    ensures v < 16
  {
    if 48 <= c <= 57 then c - 48
    else if 97 <= c <= 102 then c - 97 + 10
    else if 65 <= c <= 70 then c - 65 + 10
    else 0
  }

  /** The value of a field in an integer type that wraps at `modulus`. */
  function Decode(field: seq<Byte>, modulus: nat): (v: nat)
    requires modulus > 0
    ensures v < modulus
  {
    if field == [] then 0
    else (Decode(field[..|field| - 1], modulus) * 16 + HexValue(field[|field| - 1])) % modulus
  }

  lemma DecodeMore(mem: Memory, at: nat, i: nat, modulus: nat)
    requires modulus > 0
    ensures Decode(Bytes(mem, at, i + 1), modulus) ==
        (Decode(Bytes(mem, at, i), modulus) * 16 + HexValue(mem(at + i))) % modulus
  {
    var s := Bytes(mem, at, i + 1);
    assert s[..|s| - 1] == Bytes(mem, at, i);
  }

  /** get_filesize, get_namesize and get_mode: shift in one digit after the other. */
  method GetField(mem: Memory, at: nat, modulus: nat) returns (v: nat)
    requires modulus > 0
    ensures v == Decode(Bytes(mem, at, 8), modulus)
  {
    v := 0;
    var i, n := 0, 8;
    while i < n
      invariant 0 <= i <= n && v == Decode(Bytes(mem, at, i), modulus)
    {
      DecodeMore(mem, at, i, modulus);
      v := (v * 16 + HexValue(mem(at + i))) % modulus;
      i := i + 1;
    }
  }

  function HexDigit(v: nat, upper: bool): (c: Byte)
    requires v < 16
    ensures HexValue(c) == v
  {
    if v < 10 then 48 + v else if upper then 65 + v - 10 else 97 + v - 10
  }

  function Hex(n: nat, digits: nat, upper: bool): (s: seq<Byte>)
    ensures |s| == digits
  {
    if digits == 0 then [] else Hex(n / 16, digits - 1, upper) + [HexDigit(n % 16, upper)]
  }

  lemma AddMultiple(x: nat, q: nat, m: nat)
    requires m > 0
    ensures (x + q * m) % m == x % m
  {
    var d := x / m;
    assert x + q * m == (d + q) * m + x % m;
    QuotientOf(m, d + q, x % m);
  }

  lemma ShiftIn(a: nat, b: nat, m: nat)
    requires m > 0
    ensures (a % m * 16 + b) % m == (a * 16 + b) % m
  {
    var q := a / m;
    assert a * 16 + b == (a % m * 16 + b) + (q * 16) * m;
    AddMultiple(a % m * 16 + b, q * 16, m);
  }

  lemma HexFits(n: nat, k: nat)
    requires 0 < k && n < Pow2(4 * k)
    ensures n / 16 < Pow2(4 * (k - 1))
  {
    Pow2Add(4, 4 * (k - 1));
    assert Pow2(4) == 16;
  }

  /** Reading back a written field gives its value in the field's integer type. */
  lemma {:induction false} HexRoundTrip(n: nat, k: nat, upper: bool, modulus: nat)
    requires n < Pow2(4 * k) && modulus > 0
    ensures Decode(Hex(n, k, upper), modulus) == n % modulus
    decreases k
  {
    if k > 0 {
      HexFits(n, k);
      HexRoundTrip(n / 16, k - 1, upper, modulus);
      var s := Hex(n, k, upper);
      assert s[..k - 1] == Hex(n / 16, k - 1, upper);
      ShiftIn(n / 16, n % 16, modulus);
      assert n / 16 * 16 + n % 16 == n;
    } else {
      assert Pow2(0) == 1;
    }
  }

  // -------------------------------------------------------------------------- memory

  function Bytes(mem: Memory, a: nat, n: nat): (s: seq<Byte>)
    ensures |s| == n && forall i :: 0 <= i < n ==> s[i] == mem(a + i)
  {
    seq(n, (i: nat) => mem(a + i))
  }

  predicate Holds(mem: Memory, a: nat, s: seq<Byte>) {
    Bytes(mem, a, |s|) == s
  }

  lemma HoldsParts(mem: Memory, a: nat, s: seq<Byte>, t: seq<Byte>)
    requires Holds(mem, a, s + t)
    ensures Holds(mem, a, s) && Holds(mem, a + |s|, t)
  {
    var all := Bytes(mem, a, |s + t|);
    forall i | 0 <= i < |s| ensures Bytes(mem, a, |s|)[i] == s[i] {
      assert all[i] == s[i];
    }
    forall i | 0 <= i < |t| ensures Bytes(mem, a + |s|, |t|)[i] == t[i] {
      assert all[|s| + i] == t[i];
    }
  }

  /** A C string of at most `room` bytes. */
  function CString(mem: Memory, a: nat, room: nat): seq<Byte>
    decreases room, a
  {
    if room == 0 || mem(a) == 0 then [] else [mem(a)] + CString(mem, a + 1, room - 1)
  }

  lemma {:induction false} ReadsName(mem: Memory, a: nat, name: seq<Byte>, room: nat)
    requires Holds(mem, a, name + [0]) && 0 !in name && |name| <= room
    ensures CString(mem, a, room) == name
    decreases |name|
  {
    assert Bytes(mem, a, |name| + 1)[0] == (name + [0])[0];
    if name != [] {
      assert name + [0] == [name[0]] + (name[1..] + [0]);
      HoldsParts(mem, a, [name[0]], name[1..] + [0]);
      ReadsName(mem, a + 1, name[1..], room - 1);
    }
  }

  // -------------------------------------------------------------------------- format

  /** The fields of a header that the loader does not read. */
  datatype Meta = Meta(ino: nat, uid: nat, gid: nat, nlink: nat, mtime: nat,
                       devMajor: nat, devMinor: nat, rdevMajor: nat, rdevMinor: nat, check: nat)

  datatype Entry = Entry(name: seq<Byte>, mode: nat, data: seq<Byte>, meta: Meta)

  function Padding(n: nat): (s: seq<Byte>)
    ensures (n + |s|) % 4 == 0 && |s| < 4
  {
    if n % 4 == 0 then [] else if n % 4 == 1 then [0, 0, 0] else if n % 4 == 2 then [0, 0] else [0]
  }

  function Field(n: nat, upper: bool): (s: seq<Byte>)
    ensures |s| == 8
  {
    Hex(n, 8, upper)
  }

  /** The header as the fields before, between and after the three that are read. */
  function HeaderHead(e: Entry, upper: bool): (s: seq<Byte>)
    ensures |s| == MODE_AT
  {
    MAGIC + Field(e.meta.ino, upper)
  }

  function HeaderMiddle(e: Entry, upper: bool): (s: seq<Byte>)
    ensures |s| == FILESIZE_AT - MODE_AT - 8
  {
    Field(e.meta.uid, upper) + Field(e.meta.gid, upper) + Field(e.meta.nlink, upper) + Field(e.meta.mtime, upper)
  }

  function HeaderDevices(e: Entry, upper: bool): (s: seq<Byte>)
    ensures |s| == NAMESIZE_AT - FILESIZE_AT - 8
  {
    Field(e.meta.devMajor, upper) + Field(e.meta.devMinor, upper)
    + Field(e.meta.rdevMajor, upper) + Field(e.meta.rdevMinor, upper)
  }

  function Header(e: Entry, upper: bool): (s: seq<Byte>)
    ensures |s| == HEADER_SIZE
  {
    HeaderHead(e, upper) + (Field(e.mode, upper) + (HeaderMiddle(e, upper) + (Field(|e.data|, upper)
    + (HeaderDevices(e, upper) + (Field(|e.name| + 1, upper) + Field(e.meta.check, upper))))))
  }

  /** Name and data, each padded to a multiple of four bytes. */
  function Body(e: Entry): seq<Byte> {
    (e.name + [0]) + (Padding(HEADER_SIZE + |e.name| + 1) + (e.data + Padding(|e.data|)))
  }

  function Encode(e: Entry, upper: bool): seq<Byte> {
    Header(e, upper) + Body(e)
  }

  /** The entry named "TRAILER!!!". */
  function Trailer(meta: Meta): Entry {
    Entry([84, 82, 65, 73, 76, 69, 82, 33, 33, 33], 0, [], meta)
  }

  function Archive(entries: seq<Entry>, last: Meta, upper: bool): seq<Byte> {
    if entries == [] then Encode(Trailer(last), upper)
    else Encode(entries[0], upper) + Archive(entries[1..], last, upper)
  }

  /** The file type in a mode; 4 is a directory. */
  function FileType(mode: nat): nat {
    mode / 4096 % 16
  }

  /** Names without a NUL byte that fit an inode and do not look like the trailer's; sizes
      that fit their fields; no data in a directory. */
  predicate ValidEntry(e: Entry) {
    && 0 !in e.name && |e.name| < 255 && !(TRAILER_MARK <= e.name)
    && e.mode < WORD && |e.data| < WORD
    && (FileType(e.mode) == 4 ==> e.data == [])
  }

  predicate AllValid(entries: seq<Entry>) {
    entries == [] || (ValidEntry(entries[0]) && AllValid(entries[1..]))
  }

  // -------------------------------------------------------------- reading the format

  // What an archive means, in unbounded addresses.

  /** An inode below the root. */
  datatype Node = Node(name: seq<Byte>, directory: bool, data: seq<Byte>)

  function Align(a: nat): nat {
    (a + 3) / 4 * 4
  }

  /** is_directory of a 16-bit mode. */
  predicate IsDirectory(mode: nat) {
    mode % HALF_WORD / 0x1000 == 4
  }

  predicate IsTrailer(mem: Memory, a: nat) {
    Bytes(mem, a, 9) == TRAILER_MARK
  }

  function NameSize(mem: Memory, ptr: nat): nat {
    Decode(Bytes(mem, ptr + NAMESIZE_AT, 8), HALF_WORD)
  }

  function FileSize(mem: Memory, ptr: nat): nat {
    Decode(Bytes(mem, ptr + FILESIZE_AT, 8), WORD)
  }

  function DataAt(mem: Memory, ptr: nat): nat {
    Align(ptr + HEADER_SIZE + NameSize(mem, ptr))
  }

  /** The entry at ptr is whole and not the trailer. */
  predicate HasEntry(mem: Memory, ptr: nat, end: nat) {
    && ptr + HEADER_SIZE < end
    && ptr + HEADER_SIZE + NameSize(mem, ptr) <= end
    && !IsTrailer(mem, ptr + HEADER_SIZE)
    && DataAt(mem, ptr) + FileSize(mem, ptr) <= end
  }

  function NodeAt(mem: Memory, ptr: nat): Node {
    var directory := IsDirectory(Decode(Bytes(mem, ptr + MODE_AT, 8), HALF_WORD));
    Node(CString(mem, ptr + HEADER_SIZE, NAME_ROOM), directory,
         if directory then [] else Bytes(mem, DataAt(mem, ptr), FileSize(mem, ptr)))
  }

  function NextEntry(mem: Memory, ptr: nat): (next: nat)
    ensures next >= ptr + HEADER_SIZE
  {
    Align(DataAt(mem, ptr) + FileSize(mem, ptr))
  }

  /** The root's children after reading entries from ptr on, newest first. */
  function Load(mem: Memory, ptr: nat, end: nat, kids: seq<Node>): seq<Node>
    decreases end - ptr
  {
    if HasEntry(mem, ptr, end) then Load(mem, NextEntry(mem, ptr), end, [NodeAt(mem, ptr)] + kids) else kids
  }

  // -------------------------------------------------------------------------- loader

  // What the code does: every sum of the cursor wraps at 2^32.

  function Align32(a: nat): (r: nat)
    ensures r < WORD
  {
    (a + 3) % WORD / 4 * 4
  }

  function NamePtr(ptr: nat): nat {
    (ptr + HEADER_SIZE) % WORD
  }

  function DataPtr(mem: Memory, ptr: nat): nat {
    Align32((NamePtr(ptr) + NameSize(mem, ptr)) % WORD)
  }

  /** The tests that the entry at ptr has to pass. */
  predicate Accepts(mem: Memory, ptr: nat, end: nat) {
    && NamePtr(ptr) < end
    && (NamePtr(ptr) + NameSize(mem, ptr)) % WORD <= end
    && !IsTrailer(mem, NamePtr(ptr))
    && (DataPtr(mem, ptr) + FileSize(mem, ptr)) % WORD <= end
  }

  function NodeRead(mem: Memory, ptr: nat): Node {
    var directory := IsDirectory(Decode(Bytes(mem, ptr + MODE_AT, 8), HALF_WORD));
    Node(CString(mem, NamePtr(ptr), NAME_ROOM), directory,
         if directory then [] else Bytes(mem, DataPtr(mem, ptr), FileSize(mem, ptr)))
  }

  function NextPtr(mem: Memory, ptr: nat): (next: nat)
    ensures next < WORD
  {
    Align32((DataPtr(mem, ptr) + FileSize(mem, ptr)) % WORD)
  }

  /** Where the loop stands: its cursor, the root's children, and whether it has ended. */
  datatype Walk = Walk(ptr: nat, kids: seq<Node>, done: bool)

  function Turn(mem: Memory, end: nat, w: Walk): Walk {
    if Accepts(mem, w.ptr, end) then Walk(NextPtr(mem, w.ptr), [NodeRead(mem, w.ptr)] + w.kids, false)
    else w.(done := true)
  }

  /** The loop from w on, n turns at most. */
  function Turns(mem: Memory, end: nat, w: Walk, n: nat): Walk
    decreases n, w.ptr
  {
    if n == 0 || w.done then w else Turns(mem, end, Turn(mem, end, w), n - 1)
  }

  /** The body of the loop: the entry at ptr, and where the cursor goes. */
  method ReadEntry(mem: Memory, header: nat, end: nat) returns (found: bool, node: Node, ptr: nat)
    requires header < WORD
    ensures found <==> Accepts(mem, header, end)
    ensures found ==> node == NodeRead(mem, header) && ptr == NextPtr(mem, header)
  {
    node := Node([], false, []);
    ptr := (header + HEADER_SIZE) % WORD;
    if ptr >= end { return false, node, ptr; }
    var nameSize := GetField(mem, header + NAMESIZE_AT, HALF_WORD);
    if (ptr + nameSize) % WORD > end { return false, node, ptr; }
    var name := ptr;
    ptr := Align32((ptr + nameSize) % WORD);
    if IsTrailer(mem, name) { return false, node, ptr; }
    var fileSize := GetField(mem, header + FILESIZE_AT, WORD);
    if (ptr + fileSize) % WORD > end { return false, node, ptr; }
    var mode := GetField(mem, header + MODE_AT, HALF_WORD);
    if !IsDirectory(mode) && fileSize > 0 {
      node := Node(CString(mem, name, NAME_ROOM), false, Bytes(mem, ptr, fileSize));
    } else {
      node := Node(CString(mem, name, NAME_ROOM), IsDirectory(mode), []);
    }
    ptr := Align32((ptr + fileSize) % WORD);
    found := true;
  }

  method TakeTurn(mem: Memory, end: nat, w: Walk) returns (w': Walk)
    requires w.ptr < WORD
    ensures w' == Turn(mem, end, w) && w'.ptr < WORD
  {
    if NamePtr(w.ptr) > end { return w.(done := true); }
    var found, node, next := ReadEntry(mem, w.ptr, end);
    w' := if found then Walk(next, [node] + w.kids, false) else w.(done := true);
  }

  /** load_initramfs of a buffer in a 32-bit address space, `turns` turns at most, because
      the loop need not end. */
  method LoadInitramfs(mem: Memory, data: nat, size: nat, kids: seq<Node>, turns: nat) returns (ok: bool, w: Walk)
    requires data + size < WORD
    ensures ok <==> size >= HEADER_SIZE
    ensures w == if ok then Turns(mem, data + size, Walk(data, kids, false), turns) else Walk(data, kids, false)
  {
    w := Walk(data, kids, false);
    if size < HEADER_SIZE { return false, w; }
    var end, n := data + size, turns;
    while n > 0 && !w.done
      invariant w.ptr < WORD && 0 <= n && Turns(mem, end, w, n) == Turns(mem, end, Walk(data, kids, false), turns)
    {
      w := TakeTurn(mem, end, w);
      n := n - 1;
    }
    ok := true;
  }

  // --------------------------------------------------- when the code reads the format

  lemma AlignStraight(a: nat)
    requires Align(a) < WORD
    ensures a < WORD && Align32(a) == Align(a)
  {
  }

  /** Sums below 2^32 do not wrap. */
  lemma DataStraight(mem: Memory, ptr: nat)
    requires DataAt(mem, ptr) < WORD
    ensures NamePtr(ptr) == ptr + HEADER_SIZE && NamePtr(ptr) + NameSize(mem, ptr) < WORD
    ensures DataPtr(mem, ptr) == DataAt(mem, ptr)
  {
    AlignStraight(ptr + HEADER_SIZE + NameSize(mem, ptr));
  }

  /** An entry whose data ends below 2^32 is accepted exactly if it is there, and read as
      it is. */
  lemma EntryStraight(mem: Memory, ptr: nat, end: nat)
    requires end <= WORD - 4 && DataAt(mem, ptr) + FileSize(mem, ptr) < WORD
    ensures Accepts(mem, ptr, end) <==> HasEntry(mem, ptr, end)
    ensures NodeRead(mem, ptr) == NodeAt(mem, ptr)
    ensures HasEntry(mem, ptr, end) ==> NextPtr(mem, ptr) == NextEntry(mem, ptr)
  {
    DataStraight(mem, ptr);
    SumStraight(DataAt(mem, ptr), FileSize(mem, ptr));
  }

  lemma SumStraight(a: nat, b: nat)
    requires a + b < WORD
    ensures (a + b) % WORD == a + b && (a + b <= WORD - 4 ==> Align(a + b) < WORD)
    ensures Align(a + b) < WORD ==> Align32((a + b) % WORD) == Align(a + b)
  {
    if Align(a + b) < WORD { AlignStraight(a + b); }
  }

  /** The data of every entry that the loop comes to and accepts ends below 2^32. */
  predicate SizesFit(mem: Memory, ptr: nat, end: nat)
    decreases end - ptr
  {
    Accepts(mem, ptr, end) ==>
      && DataAt(mem, ptr) + FileSize(mem, ptr) < WORD
      && (DataStraight(mem, ptr); SizesFit(mem, NextEntry(mem, ptr), end))
  }

  lemma {:induction false} TurnsGrow(mem: Memory, end: nat, w: Walk, n: nat)
    ensures |Turns(mem, end, w, n).kids| >= |w.kids|
    decreases n
  {
    if n > 0 && !w.done { TurnsGrow(mem, end, Turn(mem, end, w), n - 1); }
  }

  /** Where all sizes fit, the loop ends within as many turns as there are bytes, with the
      entries of the archive. */
  lemma {:induction false} FitLoads(mem: Memory, ptr: nat, end: nat, kids: seq<Node>, n: nat)
    requires end <= WORD - 4 && SizesFit(mem, ptr, end) && n > 0 && ptr + n > end
    ensures EndsWith(Turns(mem, end, Walk(ptr, kids, false), n), Load(mem, ptr, end, kids))
    decreases n
  {
    if Accepts(mem, ptr, end) {
      EntryStraight(mem, ptr, end);
      FitLoads(mem, NextEntry(mem, ptr), end, [NodeAt(mem, ptr)] + kids, n - 1);
    } else if HasEntry(mem, ptr, end) {
      EntryStraight(mem, ptr, end);
      assert false;
    }
  }

  predicate EndsWith(w: Walk, kids: seq<Node>) {
    w.done && w.kids == kids
  }

  /** Otherwise it never ends with them. */
  lemma {:induction false} OverflowMisloads(mem: Memory, ptr: nat, end: nat, kids: seq<Node>, n: nat)
    requires end <= WORD - 4 && !SizesFit(mem, ptr, end)
    ensures !EndsWith(Turns(mem, end, Walk(ptr, kids, false), n), Load(mem, ptr, end, kids))
    decreases n
  {
    if n > 0 {
      var w := Turn(mem, end, Walk(ptr, kids, false));
      if DataAt(mem, ptr) + FileSize(mem, ptr) < WORD {
        EntryStraight(mem, ptr, end);
        OverflowMisloads(mem, w.ptr, end, w.kids, n - 1);
      } else {
        assert !HasEntry(mem, ptr, end);
        TurnsGrow(mem, end, w, n - 1);
      }
    }
  }

  /** The loader ends within n turns, with the entries of the archive. */
  predicate LoadsIn(mem: Memory, data: nat, end: nat, kids: seq<Node>, n: nat) {
    EndsWith(Turns(mem, end, Walk(data, kids, false), n), Load(mem, data, end, kids))
  }

  /** On any bytes, the loader ends with the entries of the archive if and only if the data
      of every entry it comes to and accepts ends below 2^32. */
  lemma LoadsIff(mem: Memory, data: nat, end: nat, kids: seq<Node>)
    requires data <= end <= WORD - 4
    ensures (exists n: nat :: LoadsIn(mem, data, end, kids, n)) <==> SizesFit(mem, data, end)
  {
    if SizesFit(mem, data, end) {
      FitLoads(mem, data, end, kids, end - data + 1);
      assert LoadsIn(mem, data, end, kids, end - data + 1);
    } else {
      forall n: nat ensures !LoadsIn(mem, data, end, kids, n) {
        OverflowMisloads(mem, data, end, kids, n);
      }
    }
  }

  // ------------------------------------------------------------- an endless archive

  /** An accepted entry that leads back to itself keeps the loop going for ever, with one
      more inode under the root each turn. */
  lemma {:induction false} LoopsForever(mem: Memory, ptr: nat, end: nat, kids: seq<Node>, n: nat)
    requires Accepts(mem, ptr, end) && NextPtr(mem, ptr) == ptr
    ensures var w := Turns(mem, end, Walk(ptr, kids, false), n); w.ptr == ptr && !w.done && |w.kids| == |kids| + n
    decreases n
  {
    if n > 0 {
      var more := [NodeRead(mem, ptr)] + kids;
      assert Turns(mem, end, Walk(ptr, kids, false), n) == Turns(mem, end, Walk(ptr, more, false), n - 1);
      LoopsForever(mem, ptr, end, more, n - 1);
    }
  }

  /** A directory named "a" whose size field is 2^32 - 112. */
  function BackEntry(): Entry {
    Entry([97], 0x4000, seq(WORD - 112, _ => 0), Meta(0, 0, 0, 0, 0, 0, 0, 0, 0, 0))
  }

  /** Memory with this text at ptr and zeros elsewhere. */
  function MemoryWith(text: seq<Byte>, ptr: nat): Memory {
    a => if ptr <= a < ptr + |text| then text[a - ptr] else 0
  }

  lemma MemoryHolds(text: seq<Byte>, ptr: nat)
    ensures Holds(MemoryWith(text, ptr), ptr, text)
  {
  }

  /** Sizes of 2 and 2^32 - 112 bring the cursor back. */
  lemma BackAccepted(mem: Memory, ptr: nat, end: nat)
    requires ptr % 4 == 0 && ptr + 112 <= end < WORD
    requires NameSize(mem, ptr) == 2 && FileSize(mem, ptr) == WORD - 112 && !IsTrailer(mem, ptr + HEADER_SIZE)
    ensures Accepts(mem, ptr, end) && NextPtr(mem, ptr) == ptr && !HasEntry(mem, ptr, end)
  {
    WrapsBack(ptr);
    DataStraight(mem, ptr);
  }

  lemma WrapsBack(ptr: nat)
    requires ptr % 4 == 0 && ptr < WORD
    ensures Align(ptr + 112) == ptr + 112 && (ptr + 112 + (WORD - 112)) % WORD == ptr && Align32(ptr) == ptr
  {
  }

  lemma BackSizes(mem: Memory, ptr: nat, upper: bool)
    requires Holds(mem, ptr, Header(BackEntry(), upper)) && Holds(mem, ptr + HEADER_SIZE, [97, 0])
    ensures NameSize(mem, ptr) == 2 && FileSize(mem, ptr) == WORD - 112 && !IsTrailer(mem, ptr + HEADER_SIZE)
  {
    FieldsReadBack(BackEntry(), upper, mem, ptr);
    var name: seq<Byte> := [97];
    assert name + [0] == [97, 0];
    MarkShows(mem, ptr + HEADER_SIZE, name);
  }

  /** The 112 bytes of its header and name, at any aligned address, lead the cursor back to
      where it was, though there is no whole entry. */
  lemma BackEntryLoops(ptr: nat, end: nat, upper: bool) returns (mem: Memory)
    requires ptr % 4 == 0 && ptr + 112 <= end < WORD
    ensures Holds(mem, ptr, Header(BackEntry(), upper) + [97, 0])
    ensures Accepts(mem, ptr, end) && NextPtr(mem, ptr) == ptr && !HasEntry(mem, ptr, end)
  {
    var text := Header(BackEntry(), upper) + [97, 0];
    mem := MemoryWith(text, ptr);
    MemoryHolds(text, ptr);
    HoldsParts(mem, ptr, Header(BackEntry(), upper), [97, 0]);
    BackSizes(mem, ptr, upper);
    BackAccepted(mem, ptr, end);
  }

  // ----------------------------------------------------------------- loading inverts

  lemma HeaderFields(e: Entry, upper: bool, mem: Memory, ptr: nat)
    requires Holds(mem, ptr, Header(e, upper))
    ensures Holds(mem, ptr + MODE_AT, Field(e.mode, upper))
    ensures Holds(mem, ptr + FILESIZE_AT, Field(|e.data|, upper))
    ensures Holds(mem, ptr + NAMESIZE_AT, Field(|e.name| + 1, upper))
  {
    var t6 := Field(|e.name| + 1, upper) + Field(e.meta.check, upper);
    var t5 := HeaderDevices(e, upper) + t6;
    var t4 := Field(|e.data|, upper) + t5;
    var t3 := HeaderMiddle(e, upper) + t4;
    var t2 := Field(e.mode, upper) + t3;
    HoldsParts(mem, ptr, HeaderHead(e, upper), t2);
    HoldsParts(mem, ptr + MODE_AT, Field(e.mode, upper), t3);
    HoldsParts(mem, ptr + MODE_AT + 8, HeaderMiddle(e, upper), t4);
    HoldsParts(mem, ptr + FILESIZE_AT, Field(|e.data|, upper), t5);
    HoldsParts(mem, ptr + FILESIZE_AT + 8, HeaderDevices(e, upper), t6);
    HoldsParts(mem, ptr + NAMESIZE_AT, Field(|e.name| + 1, upper), Field(e.meta.check, upper));
  }

  lemma FieldReads(n: nat, upper: bool, mem: Memory, at: nat, modulus: nat)
    requires Holds(mem, at, Field(n, upper)) && n < WORD && modulus > 0
    ensures Decode(Bytes(mem, at, 8), modulus) == n % modulus
  {
    WordIsPow2();
    HexRoundTrip(n, 8, upper, modulus);
  }

  /** What the three fields of an entry read back as. */
  lemma FieldsReadBack(e: Entry, upper: bool, mem: Memory, ptr: nat)
    requires Holds(mem, ptr, Header(e, upper)) && |e.name| < NAME_ROOM && e.mode < WORD && |e.data| < WORD
    ensures NameSize(mem, ptr) == |e.name| + 1 && FileSize(mem, ptr) == |e.data|
    ensures Decode(Bytes(mem, ptr + MODE_AT, 8), HALF_WORD) == e.mode % HALF_WORD
  {
    HeaderFields(e, upper, mem, ptr);
    FieldReads(e.mode, upper, mem, ptr + MODE_AT, HALF_WORD);
    FieldReads(|e.data|, upper, mem, ptr + FILESIZE_AT, WORD);
    FieldReads(|e.name| + 1, upper, mem, ptr + NAMESIZE_AT, HALF_WORD);
  }

  lemma AlignPadding(base: nat, n: nat)
    requires base % 4 == 0
    ensures Align(base + n) == base + n + |Padding(n)|
  {
    var q, r := base / 4, n % 4;
    assert base == 4 * q && n == 4 * (n / 4) + r;
  }

  lemma BodyParts(e: Entry, mem: Memory, a: nat)
    requires Holds(mem, a, Body(e))
    ensures Holds(mem, a, e.name + [0])
    ensures Holds(mem, a + |e.name| + 1 + |Padding(HEADER_SIZE + |e.name| + 1)|, e.data)
  {
    var pad := Padding(HEADER_SIZE + |e.name| + 1);
    var tail := e.data + Padding(|e.data|);
    HoldsParts(mem, a, e.name + [0], pad + tail);
    HoldsParts(mem, a + |e.name| + 1, pad, tail);
    HoldsParts(mem, a + |e.name| + 1 + |pad|, e.data, Padding(|e.data|));
  }

  lemma {:induction false} MarkShows(mem: Memory, a: nat, name: seq<Byte>)
    requires Holds(mem, a, name + [0]) && 0 !in name
    ensures IsTrailer(mem, a) <==> TRAILER_MARK <= name
  {
    var nine := Bytes(mem, a, 9);
    var s := Bytes(mem, a, |name| + 1);
    assert forall i :: 0 <= i < 9 && i < |s| ==> nine[i] == s[i];
    if |name| < 9 {
      assert nine[|name|] == s[|name|] == 0;
      assert TRAILER_MARK[|name|] != 0;
    } else {
      assert nine == name[..9];
    }
  }

  /** Where the parts of an entry lie. */
  function NameEnd(e: Entry): nat {
    HEADER_SIZE + |e.name| + 1 + |Padding(HEADER_SIZE + |e.name| + 1)|
  }

  predicate ReadsAs(e: Entry, mem: Memory, ptr: nat) {
    && NameSize(mem, ptr) == |e.name| + 1 && FileSize(mem, ptr) == |e.data|
    && IsDirectory(Decode(Bytes(mem, ptr + MODE_AT, 8), HALF_WORD)) == (FileType(e.mode) == 4)
    && Holds(mem, ptr + HEADER_SIZE, e.name + [0])
    && Holds(mem, ptr + NameEnd(e), e.data)
  }

  /** The type bits are among the sixteen that are read. */
  lemma DirectoryMode(mode: nat)
    ensures IsDirectory(mode % HALF_WORD) <==> FileType(mode) == 4
  {
    var q, r := mode / 0x1_0000, mode % 0x1_0000;
    assert mode == (16 * q) * 4096 + r;
    assert mode / 4096 == 16 * q + r / 4096;
  }

  lemma EncodedReadsAs(e: Entry, upper: bool, mem: Memory, ptr: nat)
    requires ValidEntry(e) && Holds(mem, ptr, Encode(e, upper))
    ensures ReadsAs(e, mem, ptr)
  {
    HoldsParts(mem, ptr, Header(e, upper), Body(e));
    FieldsReadBack(e, upper, mem, ptr);
    DirectoryMode(e.mode);
    BodyParts(e, mem, ptr + HEADER_SIZE);
  }

  lemma SumOfMultiples(a: nat, b: nat)
    requires a % 4 == 0 && b % 4 == 0
    ensures (a + b) % 4 == 0
  {
  }

  lemma EncodedLength(e: Entry, upper: bool)
    ensures |Encode(e, upper)| == NameEnd(e) + |e.data| + |Padding(|e.data|)|
    ensures NameEnd(e) % 4 == 0 && |Encode(e, upper)| % 4 == 0
  {
    SumOfMultiples(NameEnd(e), |e.data| + |Padding(|e.data|)|);
  }

  lemma PartsAligned(e: Entry, mem: Memory, ptr: nat)
    requires ptr % 4 == 0 && ReadsAs(e, mem, ptr)
    ensures DataAt(mem, ptr) == ptr + NameEnd(e)
    ensures NextEntry(mem, ptr) == ptr + NameEnd(e) + |e.data| + |Padding(|e.data|)|
  {
    AlignPadding(ptr, HEADER_SIZE + |e.name| + 1);
    AlignPadding(ptr + NameEnd(e), |e.data|);
  }

  lemma NodeReadsBack(e: Entry, mem: Memory, ptr: nat)
    requires ptr % 4 == 0 && ValidEntry(e) && ReadsAs(e, mem, ptr)
    ensures NodeAt(mem, ptr) == Node(e.name, FileType(e.mode) == 4, e.data)
    ensures !IsTrailer(mem, ptr + HEADER_SIZE)
  {
    PartsAligned(e, mem, ptr);
    MarkShows(mem, ptr + HEADER_SIZE, e.name);
    ReadsName(mem, ptr + HEADER_SIZE, e.name, NAME_ROOM);
  }

  /** An encoded entry is found, read back whole, and passed over exactly. */
  lemma EntryReadsBack(e: Entry, upper: bool, mem: Memory, ptr: nat, end: nat)
    requires ptr % 4 == 0 && ValidEntry(e) && Holds(mem, ptr, Encode(e, upper)) && ptr + |Encode(e, upper)| <= end
    ensures HasEntry(mem, ptr, end)
    ensures NodeAt(mem, ptr) == Node(e.name, FileType(e.mode) == 4, e.data)
    ensures NextEntry(mem, ptr) == ptr + |Encode(e, upper)| && NextEntry(mem, ptr) % 4 == 0
  {
    EncodedReadsAs(e, upper, mem, ptr);
    EncodedLength(e, upper);
    PartsAligned(e, mem, ptr);
    NodeReadsBack(e, mem, ptr);
    SumOfMultiples(ptr, |Encode(e, upper)|);
  }

  lemma TrailerEnds(last: Meta, upper: bool, mem: Memory, ptr: nat, end: nat)
    requires Holds(mem, ptr, Encode(Trailer(last), upper)) && ptr + |Encode(Trailer(last), upper)| <= end
    ensures ptr + HEADER_SIZE < end && IsTrailer(mem, ptr + HEADER_SIZE)
  {
    HoldsParts(mem, ptr, Header(Trailer(last), upper), Body(Trailer(last)));
    BodyParts(Trailer(last), mem, ptr + HEADER_SIZE);
    MarkShows(mem, ptr + HEADER_SIZE, Trailer(last).name);
  }

  function NodeOf(e: Entry): Node {
    Node(e.name, FileType(e.mode) == 4, e.data)
  }

  /** The inodes for a list of entries, last entry first. */
  function Nodes(entries: seq<Entry>): seq<Node> {
    if entries == [] then [] else Nodes(entries[1..]) + [NodeOf(entries[0])]
  }

  /** From ptr on there are exactly these entries. */
  predicate Parsed(mem: Memory, ptr: nat, end: nat, entries: seq<Entry>)
    decreases |entries|
  {
    if entries == [] then ptr + HEADER_SIZE < end && IsTrailer(mem, ptr + HEADER_SIZE)
    else
      && HasEntry(mem, ptr, end)
      && NodeAt(mem, ptr) == NodeOf(entries[0])
      && Parsed(mem, NextEntry(mem, ptr), end, entries[1..])
  }

  /** An encoded entry in front of parsed ones. */
  lemma ParsedFront(entries: seq<Entry>, upper: bool, mem: Memory, ptr: nat, end: nat)
    requires entries != [] && ptr % 4 == 0 && ValidEntry(entries[0])
    requires Holds(mem, ptr, Encode(entries[0], upper)) && ptr + |Encode(entries[0], upper)| <= end
    ensures Parsed(mem, ptr + |Encode(entries[0], upper)|, end, entries[1..]) ==> Parsed(mem, ptr, end, entries)
  {
    EntryReadsBack(entries[0], upper, mem, ptr, end);
  }

  /** The first entry of an archive ends on a multiple of four, where the rest begins. */
  lemma FrontAligned(e: Entry, upper: bool, mem: Memory, ptr: nat, image: seq<Byte>, rest: seq<Byte>)
    requires ptr % 4 == 0 && image == Encode(e, upper) && Holds(mem, ptr, image + rest)
    ensures (ptr + |image|) % 4 == 0 && Holds(mem, ptr, image) && Holds(mem, ptr + |image|, rest)
  {
    HoldsParts(mem, ptr, image, rest);
    EncodedLength(e, upper);
    SumOfMultiples(ptr, |image|);
  }

  lemma {:induction false} ArchiveParsed(entries: seq<Entry>, last: Meta, upper: bool, mem: Memory, ptr: nat, end: nat)
    requires ptr % 4 == 0 && Holds(mem, ptr, Archive(entries, last, upper))
    requires ptr + |Archive(entries, last, upper)| <= end
    requires AllValid(entries)
    ensures Parsed(mem, ptr, end, entries)
    decreases |entries|
  {
    if entries == [] {
      TrailerEnds(last, upper, mem, ptr, end);
    } else {
      var next := ArchiveFront(entries, last, upper, mem, ptr, end);
      ArchiveParsed(entries[1..], last, upper, mem, next, end);
    }
  }

  /** What the first entry leaves to show of the rest. */
  lemma ArchiveFront(entries: seq<Entry>, last: Meta, upper: bool, mem: Memory, ptr: nat, end: nat) returns (next: nat)
    requires entries != [] && ptr % 4 == 0 && Holds(mem, ptr, Archive(entries, last, upper))
    requires ptr + |Archive(entries, last, upper)| <= end && ValidEntry(entries[0])
    ensures next % 4 == 0 && Holds(mem, next, Archive(entries[1..], last, upper))
    ensures next + |Archive(entries[1..], last, upper)| <= end
    ensures Parsed(mem, next, end, entries[1..]) ==> Parsed(mem, ptr, end, entries)
  {
    var image, rest := Encode(entries[0], upper), Archive(entries[1..], last, upper);
    assert Archive(entries, last, upper) == image + rest;
    FrontAligned(entries[0], upper, mem, ptr, image, rest);
    ParsedFront(entries, upper, mem, ptr, end);
    next := ptr + |image|;
  }

  lemma LoadFirst(mem: Memory, ptr: nat, end: nat, kids: seq<Node>, first: Node, next: nat)
    requires HasEntry(mem, ptr, end) && NodeAt(mem, ptr) == first && NextEntry(mem, ptr) == next
    ensures Load(mem, ptr, end, kids) == Load(mem, next, end, [first] + kids)
  {
  }

  lemma NodesFront(entries: seq<Entry>, kids: seq<Node>)
    requires entries != []
    ensures Nodes(entries) + kids == Nodes(entries[1..]) + ([NodeOf(entries[0])] + kids)
  {
  }

  lemma {:induction false} LoadParsed(mem: Memory, ptr: nat, end: nat, entries: seq<Entry>, kids: seq<Node>)
    requires Parsed(mem, ptr, end, entries)
    ensures Load(mem, ptr, end, kids) == Nodes(entries) + kids
    decreases |entries|
  {
    if entries != [] {
      var next, first := NextEntry(mem, ptr), NodeOf(entries[0]);
      LoadFirst(mem, ptr, end, kids, first, next);
      LoadParsed(mem, next, end, entries[1..], [first] + kids);
      NodesFront(entries, kids);
    }
  }

  lemma InvertsUpTo(entries: seq<Entry>, last: Meta, upper: bool, mem: Memory, data: nat, end: nat, kids: seq<Node>)
    requires data % 4 == 0 && Holds(mem, data, Archive(entries, last, upper))
    requires data + |Archive(entries, last, upper)| <= end && AllValid(entries)
    ensures Load(mem, data, end, kids) == Nodes(entries) + kids
  {
    ArchiveParsed(entries, last, upper, mem, data, end);
    LoadParsed(mem, data, end, entries, kids);
  }

  /** Loading inverts encoding: whatever follows the archive in memory, the root's
      children become the entries in reverse order. */
  lemma LoadInverts(entries: seq<Entry>, last: Meta, upper: bool, mem: Memory, data: nat, size: nat, kids: seq<Node>)
    requires data % 4 == 0 && Holds(mem, data, Archive(entries, last, upper))
    requires |Archive(entries, last, upper)| <= size
    requires AllValid(entries)
    ensures Load(mem, data, data + size, kids) == Nodes(entries) + kids
  {
    InvertsUpTo(entries, last, upper, mem, data, data + size, kids);
  }

  /** An entry that is there, in a buffer in a 32-bit address space with more behind it, is
      read by a turn of the loop. */
  lemma TurnReads(mem: Memory, ptr: nat, end: nat, kids: seq<Node>)
    requires HasEntry(mem, ptr, end) && end < WORD && NextEntry(mem, ptr) < WORD
    ensures Turn(mem, end, Walk(ptr, kids, false)) == Walk(NextEntry(mem, ptr), [NodeAt(mem, ptr)] + kids, false)
  {
    DataStraight(mem, ptr);
    SumStraight(DataAt(mem, ptr), FileSize(mem, ptr));
  }

  lemma TurnEnds(mem: Memory, ptr: nat, end: nat, kids: seq<Node>)
    requires IsTrailer(mem, ptr + HEADER_SIZE) && ptr + HEADER_SIZE < WORD
    ensures Turn(mem, end, Walk(ptr, kids, false)) == Walk(ptr, kids, true)
  {
  }

  lemma ParsedStarts(mem: Memory, ptr: nat, end: nat, entries: seq<Entry>)
    requires Parsed(mem, ptr, end, entries)
    ensures ptr + HEADER_SIZE < end
  {
  }

  lemma {:induction false} TurnsParsed(mem: Memory, ptr: nat, end: nat, entries: seq<Entry>, kids: seq<Node>)
    requires Parsed(mem, ptr, end, entries) && end < WORD
    ensures EndsWith(Turns(mem, end, Walk(ptr, kids, false), |entries| + 1), Nodes(entries) + kids)
    decreases |entries|
  {
    if entries == [] {
      TurnEnds(mem, ptr, end, kids);
    } else {
      var next, first := NextEntry(mem, ptr), NodeOf(entries[0]);
      ParsedStarts(mem, next, end, entries[1..]);
      TurnReads(mem, ptr, end, kids);
      TurnsParsed(mem, next, end, entries[1..], [first] + kids);
      NodesFront(entries, kids);
    }
  }

  /** Loading inverts encoding in the loader itself: for every archive in a buffer of a 32-bit
      address space, whatever follows it, one turn for each entry and one for the trailer
      make the entries, in reverse order, the root's children. */
  lemma LoaderInverts(entries: seq<Entry>, last: Meta, upper: bool, mem: Memory, data: nat, end: nat, kids: seq<Node>)
    requires data % 4 == 0 && Holds(mem, data, Archive(entries, last, upper))
    requires data + |Archive(entries, last, upper)| <= end < WORD && AllValid(entries)
    ensures EndsWith(Turns(mem, end, Walk(data, kids, false), |entries| + 1), Nodes(entries) + kids)
  {
    ArchiveParsed(entries, last, upper, mem, data, end);
    TurnsParsed(mem, data, end, entries, kids);
  }
}
