/** The page-table side of a process's address space: mapping and unmapping ranges
    of pages, with tables created on demand. */
module UserMemory {
  import opened PageTable
  import opened Sequences

  /** Physical memory as paging sees it: the frames that hold tables, and the free
      frames in the order the page allocator hands them out. */
  datatype Frames = Frames(words: Memory, pool: seq<nat>)

  /** The next free frame; 0 when there is none, which callers do not check. */
  function NextFrame(pool: seq<nat>): nat {
    if pool == [] then 0 else pool[0]
  }

  function RestOf(pool: seq<nat>): seq<nat> {
    if pool == [] then [] else pool[1..]
  }

  /** The pages of a range starting at page v, wrapping at 4 GB, and the position of
      a page in it. */
  function PageAt(v: nat, i: nat): nat { (v + i) % PAGES }

  function Rank(v: nat, page: nat): nat { (page - v) % PAGES }

  lemma RankOfPage(v: nat, i: nat, q: nat)
    requires i < PAGES && q < PAGES
    ensures Rank(v, q) == i <==> q == PageAt(v, i)
  {
  }

  function NumPages(size: nat): nat { ((size + 0xFFF) % 0x1_0000_0000) / 0x1000 }

  /** The number of pages that hold size bytes, rounding in 32 bits. */
  lemma NumPagesMeans(size: nat)
    requires size < 0x1_0000_0000
    ensures size == 0 || size > 0x1_0000_0000 - 0x1000 ==> NumPages(size) == 0
    ensures 0 < size <= 0x1_0000_0000 - 0x1000 ==> (NumPages(size) - 1) * 0x1000 < size <= NumPages(size) * 0x1000
  {
  }

  /** Page q holds one of the size bytes that start with page v. */
  ghost predicate HoldsByte(v: nat, size: nat, q: nat) {
    exists b: nat :: b < size && PageAt(v, b / 0x1000) == q
  }

  lemma PagesOfBytes(v: nat, size: nat, q: nat)
    requires size <= 0x1_0000_0000 - 0x1000 && q < PAGES
    ensures Rank(v, q) < NumPages(size) <==> HoldsByte(v, size, q)
  {
    NumPagesMeans(size);
    var i := Rank(v, q);
    RankOfPage(v, i, q);
    if i < NumPages(size) {
      assert i * 0x1000 < size && i * 0x1000 / 0x1000 == i;
    } else if HoldsByte(v, size, q) {
      var b: nat :| b < size && PageAt(v, b / 0x1000) == q;
      RankOfPage(v, b / 0x1000, q);
      assert false;
    }
  }

  /** The page, counted from the first one, of byte b of a range that starts at an offset. */
  function PageOfByte(offset: nat, b: nat): nat { (offset + b) / 0x1000 }

  /** From an unaligned address on, the pages counted by the size alone hold all bytes
      exactly when the last byte does not spill over into one page more. */
  lemma UnalignedIff(offset: nat, size: nat)
    requires offset < 0x1000 && 0 < size <= 0x1_0000_0000 - 0x1000
    ensures (forall b: nat :: b < size ==> PageOfByte(offset, b) < NumPages(size)) <==>
            offset + (size - 1) % 0x1000 < 0x1000
  {
    var last := size - 1;
    NumPagesMeans(size);
    assert NumPages(size) == last / 0x1000 + 1;
    assert PageOfByte(offset, last) == last / 0x1000 + if offset + last % 0x1000 < 0x1000 then 0 else 1;
  }

  /** What map_pages writes for the i-th page. */
  function MapWord(phys: Word, i: nat, flags: bv12): Word {
    Word((phys.frame + i) % PAGES, phys.bits | flags | USER | PRESENT)
  }

  // ------------------------------------------------------------------- the operations

  /** The table of directory entry d exists afterwards. */
  function EnsureTable(s: Frames, pgd: nat, d: nat): Frames {
    if IsPresent(Pde(s.words, pgd, d)) then s
    else Frames(AddTable(s.words, pgd, d, NextFrame(s.pool)), RestOf(s.pool))
  }

  /** One page of map_pages. */
  function MapOne(s: Frames, pgd: nat, page: nat, e: Word): Frames {
    var s1 := EnsureTable(s, pgd, DirOf(page));
    Frames(SetEntry(s1.words, Pde(s1.words, pgd, DirOf(page)).frame, page % ENTRIES, e), s1.pool)
  }

  function MapMany(s: Frames, pgd: nat, v: nat, n: nat, phys: Word, flags: bv12): Frames {
    if n == 0 then s
    else MapOne(MapMany(s, pgd, v, n - 1, phys, flags), pgd, PageAt(v, n - 1), MapWord(phys, n - 1, flags))
  }

  /** One page of unmap_pages. */
  function UnmapOne(s: Frames, pgd: nat, page: nat): Frames {
    var pte := Lookup(s.words, pgd, page);
    if IsPresent(pte)
    then Frames(SetEntry(s.words, Pde(s.words, pgd, DirOf(page)).frame, page % ENTRIES, NOTHING), s.pool + [pte.frame])
    else s
  }

  function UnmapMany(s: Frames, pgd: nat, v: nat, n: nat): Frames {
    if n == 0 then s else UnmapOne(UnmapMany(s, pgd, v, n - 1), pgd, PageAt(v, n - 1))
  }

  class FrameStore {
    var words: Memory
    var pool: seq<nat>

    ghost function Now(): Frames
      reads this
    {
      Frames(words, pool)
    }

    method AllocPage() returns (f: nat)
      modifies this`pool
      ensures f == NextFrame(old(pool)) && pool == RestOf(old(pool))
    {
      if pool == [] { return 0; }
      f := pool[0];
      pool := pool[1..];
    }

    method FreePage(f: nat)
      modifies this`pool
      ensures pool == old(pool) + [f]
    {
      pool := pool + [f];
    }
  }

  class UserMemory {
    const pgd: nat
    const store: FrameStore

    constructor (pgd: nat, store: FrameStore)
      ensures this.pgd == pgd && this.store == store
    {
      this.pgd := pgd;
      this.store := store;
    }

    /** Map the pages of a range to consecutive frames, creating tables on demand. Wherever
        the region is in order and frames suffice, every page with a byte of the range gets
        its frame, and no other page changes. */
    method MapPages(virt: Word, phys: Word, size: nat, flags: bv12)
      modifies store
      ensures store.Now() == MapMany(old(store.Now()), pgd, virt.frame, NumPages(size), phys, flags)
      ensures forall lo, hi :: CanMapBytes(old(store.Now()), pgd, lo, hi, virt.frame, size) ==>
        BytesMapped(old(store.words), store.words, pgd, lo, hi, virt.frame, size, phys, flags)
    {
      var n := NumPages(size);
      var i := 0;
      while i < n
        invariant 0 <= i <= n
        invariant store.Now() == MapMany(old(store.Now()), pgd, virt.frame, i, phys, flags)
      {
        var page := PageAt(virt.frame, i);
        var d := DirOf(page);
        if !IsPresent(Pde(store.words, pgd, d)) {
          var table := store.AllocPage();
          store.words := AddTable(store.words, pgd, d, table);
        }
        var table := Pde(store.words, pgd, d).frame;
        store.words := SetEntry(store.words, table, page % ENTRIES, MapWord(phys, i, flags));
        i := i + 1;
      }
      MapsBytes(old(store.Now()), store.Now(), pgd, virt.frame, size, phys, flags);
    }

    /** Clear the present entries of a range and hand their frames back. Wherever the region
        is in order, no page with a byte of the range is left present, and no other page
        changes. */
    method UnmapPages(virt: Word, size: nat)
      modifies store
      ensures store.Now() == UnmapMany(old(store.Now()), pgd, virt.frame, NumPages(size))
      ensures forall lo, hi :: CanUnmapBytes(old(store.words), pgd, lo, hi, virt.frame, size) ==>
        BytesUnmapped(old(store.words), store.words, pgd, lo, hi, virt.frame, size)
    {
      var n := NumPages(size);
      var i := 0;
      while i < n
        invariant 0 <= i <= n
        invariant store.Now() == UnmapMany(old(store.Now()), pgd, virt.frame, i)
      {
        var page := PageAt(virt.frame, i);
        var pde := Pde(store.words, pgd, DirOf(page));
        if IsPresent(pde) {
          var pte := Pde(store.words, pde.frame, page % ENTRIES);
          if IsPresent(pte) {
            store.FreePage(pte.frame);
            store.words := SetEntry(store.words, pde.frame, page % ENTRIES, NOTHING);
          }
        }
        i := i + 1;
      }
      UnmapsBytes(old(store.Now()), store.Now(), pgd, virt.frame, size);
    }
  }

  // -------------------------------------------------------------------- the flat view

  /** Frame g is a page table of the region. */
  ghost predicate IsTable(m: Memory, pgd: nat, lo: nat, hi: nat, g: nat) {
    exists d :: lo <= d < hi && IsPresent(Pde(m, pgd, d)) && Pde(m, pgd, d).frame == g
  }

  ghost predicate PoolOk(s: Frames, pgd: nat, lo: nat, hi: nat)
    requires pgd in s.words && |s.words[pgd]| == ENTRIES && hi <= ENTRIES
  {
    NoRepeats(s.pool) && forall f :: f in s.pool ==> Unused(s.words, pgd, lo, hi, f)
  }

  /** The frames that went from the front of one pool to leave the other. */
  ghost function Taken(s: Frames, s': Frames): seq<nat> {
    if |s'.pool| <= |s.pool| then s.pool[..|s.pool| - |s'.pool|] else []
  }

  /** s' comes from s by creating tables from the front of the pool and by writing
      into the tables of the region; nothing else changes. */
  ghost predicate Extends(s: Frames, s': Frames, pgd: nat, lo: nat, hi: nat) {
    && s.pool == Taken(s, s') + s'.pool
    && s.words.Keys <= s'.words.Keys
    && (forall g :: g in s.words && g != pgd && !IsTable(s.words, pgd, lo, hi, g) && g !in Taken(s, s') ==>
          s'.words[g] == s.words[g])
    && (forall d :: 0 <= d < ENTRIES && (d < lo || hi <= d || IsPresent(Pde(s.words, pgd, d))) ==>
          Pde(s'.words, pgd, d) == Pde(s.words, pgd, d))
    && (forall d :: lo <= d < hi && Pde(s'.words, pgd, d) != Pde(s.words, pgd, d) ==>
          Pde(s'.words, pgd, d).frame in Taken(s, s'))
  }

  ghost predicate SpaceAndPool(s: Frames, pgd: nat, lo: nat, hi: nat) {
    SpaceOk(s.words, pgd, lo, hi) && PoolOk(s, pgd, lo, hi)
  }

  ghost predicate SameFlat(m: Memory, m': Memory, pgd: nat, lo: nat, hi: nat) {
    forall q: nat :: q < PAGES && InRegion(q, lo, hi) ==> Lookup(m', pgd, q) == Lookup(m, pgd, q)
  }

  /** The writes of a table created on demand, and no others. */
  ghost predicate TableAdded(m: Memory, m': Memory, pgd: nat, d: nat, f: nat) {
    && pgd in m && |m[pgd]| == ENTRIES && d < ENTRIES && m.Keys <= m'.Keys
    && m'[pgd] == m[pgd][d := Word(f, PRESENT | WRITE | USER)]
    && forall g :: g in m && g != pgd && g != f ==> m'[g] == m[g]
  }

  lemma AddTableExtends(s: Frames, m': Memory, pgd: nat, lo: nat, hi: nat, d: nat)
    requires SpaceAndPool(s, pgd, lo, hi) && lo <= d < hi && !IsPresent(Pde(s.words, pgd, d)) && s.pool != []
    requires TableAdded(s.words, m', pgd, d, s.pool[0])
    ensures Extends(s, Frames(m', s.pool[1..]), pgd, lo, hi)
  {
    var f, s' := s.pool[0], Frames(m', s.pool[1..]);
    assert Taken(s, s') == [f] && s.pool == [f] + s'.pool;
    assert f in Taken(s, s');
  }

  lemma AddTablePool(s: Frames, m': Memory, pgd: nat, lo: nat, hi: nat, d: nat)
    requires SpaceAndPool(s, pgd, lo, hi) && lo <= d < hi && s.pool != []
    requires TableAdded(s.words, m', pgd, d, s.pool[0])
    ensures PoolOk(Frames(m', s.pool[1..]), pgd, lo, hi)
  {
    forall g | g in s.pool[1..] ensures Unused(m', pgd, lo, hi, g) {
      assert g in s.pool && g != s.pool[0] && Unused(s.words, pgd, lo, hi, g);
    }
  }

  /** A directory entry for the frame f that forbids neither the user nor writing. */
  predicate OpenTo(e: Word, f: nat) {
    e.frame == f && IsPresent(e) && IsWritable(e) && e.bits & USER != 0
  }

  /** A table on demand: no mapping changes. */
  lemma EnsureTableFlat(s: Frames, pgd: nat, lo: nat, hi: nat, d: nat)
    requires SpaceAndPool(s, pgd, lo, hi) && lo <= d < hi
    requires !IsPresent(Pde(s.words, pgd, d)) ==> s.pool != []
    ensures var s' := EnsureTable(s, pgd, d);
            && SpaceAndPool(s', pgd, lo, hi) && Extends(s, s', pgd, lo, hi)
            && IsPresent(Pde(s'.words, pgd, d)) && SameFlat(s.words, s'.words, pgd, lo, hi)
            && |s.pool| - |s'.pool| == (if IsPresent(Pde(s.words, pgd, d)) then 0 else 1)
            && (!IsPresent(Pde(s.words, pgd, d)) ==> OpenTo(Pde(s'.words, pgd, d), s.pool[0]))
            && (forall d' :: 0 <= d' < ENTRIES && d' != d ==> Pde(s'.words, pgd, d') == Pde(s.words, pgd, d'))
  {
    if !IsPresent(Pde(s.words, pgd, d)) {
      var f := s.pool[0];
      var m' := AddTable(s.words, pgd, d, f);
      assert f in s.pool && TableAdded(s.words, m', pgd, d, f);
      AddTableKeeps(s.words, pgd, lo, hi, d, f);
      AddTableExtends(s, m', pgd, lo, hi, d);
      AddTablePool(s, m', pgd, lo, hi, d);
    }
  }

  lemma SetEntryFlat(s: Frames, pgd: nat, lo: nat, hi: nat, page: nat, e: Word)
    requires SpaceAndPool(s, pgd, lo, hi) && page < PAGES && InRegion(page, lo, hi)
    requires IsPresent(Pde(s.words, pgd, DirOf(page)))
    ensures var m' := SetEntry(s.words, Pde(s.words, pgd, DirOf(page)).frame, page % ENTRIES, e);
            && SpaceAndPool(Frames(m', s.pool), pgd, lo, hi) && Extends(s, Frames(m', s.pool), pgd, lo, hi)
            && m'[pgd] == s.words[pgd]
            && forall q: nat :: q < PAGES && InRegion(q, lo, hi) ==>
                 Lookup(m', pgd, q) == if q == page then e else Lookup(s.words, pgd, q)
  {
    SetEntryChanges(s.words, pgd, lo, hi, page, e);
  }

  lemma ExtendsTransitive(s: Frames, s1: Frames, s2: Frames, pgd: nat, lo: nat, hi: nat)
    requires lo <= hi <= ENTRIES && pgd in s.words && NoRepeats(s.pool)
    requires Extends(s, s1, pgd, lo, hi) && Extends(s1, s2, pgd, lo, hi)
    ensures Extends(s, s2, pgd, lo, hi)
  {
    assert Taken(s, s2) == Taken(s, s1) + Taken(s1, s2);
    forall g | g in s.words && g != pgd && !IsTable(s.words, pgd, lo, hi, g) && g !in Taken(s, s2)
      ensures s2.words[g] == s.words[g]
    {
      assert !IsTable(s1.words, pgd, lo, hi, g);
    }
  }

  /** Mapping one page, with a frame at hand if its table is missing. */
  lemma MapOneFlat(s: Frames, pgd: nat, lo: nat, hi: nat, page: nat, e: Word)
    requires SpaceAndPool(s, pgd, lo, hi) && page < PAGES && InRegion(page, lo, hi)
    requires !IsPresent(Pde(s.words, pgd, DirOf(page))) ==> s.pool != []
    ensures var s' := MapOne(s, pgd, page, e);
            && SpaceAndPool(s', pgd, lo, hi) && Extends(s, s', pgd, lo, hi)
            && forall q: nat :: q < PAGES && InRegion(q, lo, hi) ==>
                 Lookup(s'.words, pgd, q) == if q == page then e else Lookup(s.words, pgd, q)
  {
    var s1 := EnsureTable(s, pgd, DirOf(page));
    EnsureTableFlat(s, pgd, lo, hi, DirOf(page));
    SetEntryFlat(s1, pgd, lo, hi, page, e);
    ExtendsTransitive(s, s1, MapOne(s, pgd, page, e), pgd, lo, hi);
  }

  lemma MapOneTables(s: Frames, pgd: nat, lo: nat, hi: nat, page: nat, e: Word)
    requires SpaceAndPool(s, pgd, lo, hi) && page < PAGES && InRegion(page, lo, hi)
    requires !IsPresent(Pde(s.words, pgd, DirOf(page))) ==> s.pool != []
    ensures var s' := MapOne(s, pgd, page, e);
            && IsPresent(Pde(s'.words, pgd, DirOf(page)))
            && |s.pool| - |s'.pool| == (if IsPresent(Pde(s.words, pgd, DirOf(page))) then 0 else 1)
            && (forall d :: 0 <= d < ENTRIES && d != DirOf(page) ==> Pde(s'.words, pgd, d) == Pde(s.words, pgd, d))
  {
    EnsureTableFlat(s, pgd, lo, hi, DirOf(page));
    SetEntryFlat(EnsureTable(s, pgd, DirOf(page)), pgd, lo, hi, page, e);
  }

  // -------------------------------------------------------------------- whole ranges

  ghost predicate RangeInRegion(v: nat, n: nat, lo: nat, hi: nat) {
    forall i :: 0 <= i < n ==> InRegion(PageAt(v, i), lo, hi)
  }

  /** In the flat view, the first n pages from v are mapped to consecutive frames and
      every other page of the region is as before. */
  ghost predicate Mapped(m: Memory, m': Memory, pgd: nat, lo: nat, hi: nat, v: nat, n: nat, phys: Word, flags: bv12) {
    forall q: nat :: q < PAGES && InRegion(q, lo, hi) ==>
      Lookup(m', pgd, q) == if Rank(v, q) < n then MapWord(phys, Rank(v, q), flags) else Lookup(m, pgd, q)
  }

  lemma MappedStep(m: Memory, m1: Memory, m2: Memory, pgd: nat, lo: nat, hi: nat, v: nat, i: nat, phys: Word,
      flags: bv12)
    requires i < PAGES && Mapped(m, m1, pgd, lo, hi, v, i, phys, flags)
    requires forall q: nat :: q < PAGES && InRegion(q, lo, hi) ==>
      Lookup(m2, pgd, q) == if q == PageAt(v, i) then MapWord(phys, i, flags) else Lookup(m1, pgd, q)
    ensures Mapped(m, m2, pgd, lo, hi, v, i + 1, phys, flags)
  {
    forall q: nat | q < PAGES && InRegion(q, lo, hi)
      ensures Lookup(m2, pgd, q) == if Rank(v, q) < i + 1 then MapWord(phys, Rank(v, q), flags) else Lookup(m, pgd, q)
    {
      RankOfPage(v, i, q);
    }
  }

  /** The directory entries without a table among those of the first n pages from v. */
  ghost function Absent(m: Memory, pgd: nat, v: nat, n: nat): set<nat> {
    set d | 0 <= d < ENTRIES && !IsPresent(Pde(m, pgd, d)) && Touched(v, n, d)
  }

  /** d is the directory entry of one of the first n pages from v. */
  ghost predicate Touched(v: nat, n: nat, d: nat) {
    n > 0 && (d == DirOf(PageAt(v, n - 1)) || Touched(v, n - 1, d))
  }

  lemma AbsentGrows(m: Memory, pgd: nat, v: nat, n: nat)
    ensures Absent(m, pgd, v, n + 1) == Absent(m, pgd, v, n) +
            (if !IsPresent(Pde(m, pgd, DirOf(PageAt(v, n)))) then {DirOf(PageAt(v, n))} else {})
  {
  }

  ghost predicate TablesFor(m: Memory, m': Memory, pgd: nat, v: nat, n: nat) {
    forall d :: 0 <= d < ENTRIES ==>
      (IsPresent(Pde(m', pgd, d)) <==> IsPresent(Pde(m, pgd, d)) || Touched(v, n, d))
  }

  /** What map_pages achieves on the first n pages of a range: the flat map changes
      on exactly these pages, tables appear only where they are needed, and each
      takes one frame. */
  ghost predicate RangeMapped(s: Frames, s': Frames, pgd: nat, lo: nat, hi: nat, v: nat, n: nat, phys: Word,
      flags: bv12) {
    && SpaceAndPool(s', pgd, lo, hi) && Extends(s, s', pgd, lo, hi)
    && Mapped(s.words, s'.words, pgd, lo, hi, v, n, phys, flags)
    && TablesFor(s.words, s'.words, pgd, v, n)
    && |s.pool| - |s'.pool| == |Absent(s.words, pgd, v, n)|
  }

  /** The frame for the table of the next page is there if that table is missing. */
  lemma FrameAtHand(s: Frames, s1: Frames, pgd: nat, v: nat, n: nat)
    requires TablesFor(s.words, s1.words, pgd, v, n) && |s.pool| - |s1.pool| == |Absent(s.words, pgd, v, n)|
    requires |Absent(s.words, pgd, v, n + 1)| <= |s.pool|
    ensures var d := DirOf(PageAt(v, n));
            var missing := !IsPresent(Pde(s1.words, pgd, d));
            && (missing ==> s1.pool != [])
            && |Absent(s.words, pgd, v, n + 1)| == |Absent(s.words, pgd, v, n)| + (if missing then 1 else 0)
  {
    AbsentGrows(s.words, pgd, v, n);
    var d := DirOf(PageAt(v, n));
    if IsPresent(Pde(s1.words, pgd, d)) {
      assert Absent(s.words, pgd, v, n + 1) == Absent(s.words, pgd, v, n);
    } else {
      assert d !in Absent(s.words, pgd, v, n);
    }
  }

  lemma MapTablesStep(s: Frames, s1: Frames, pgd: nat, lo: nat, hi: nat, v: nat, n: nat, e: Word)
    requires SpaceAndPool(s1, pgd, lo, hi) && n < PAGES && InRegion(PageAt(v, n), lo, hi)
    requires TablesFor(s.words, s1.words, pgd, v, n) && |s.pool| - |s1.pool| == |Absent(s.words, pgd, v, n)|
    requires |Absent(s.words, pgd, v, n + 1)| <= |s.pool|
    ensures var s2 := MapOne(s1, pgd, PageAt(v, n), e);
            && TablesFor(s.words, s2.words, pgd, v, n + 1)
            && |s.pool| - |s2.pool| == |Absent(s.words, pgd, v, n + 1)|
  {
    FrameAtHand(s, s1, pgd, v, n);
    MapOneTables(s1, pgd, lo, hi, PageAt(v, n), e);
  }

  lemma MapRangeStep(s: Frames, s1: Frames, pgd: nat, lo: nat, hi: nat, v: nat, n: nat, phys: Word, flags: bv12)
    requires SpaceAndPool(s, pgd, lo, hi) && SpaceAndPool(s1, pgd, lo, hi) && n < PAGES
        && InRegion(PageAt(v, n), lo, hi)
    requires Extends(s, s1, pgd, lo, hi) && Mapped(s.words, s1.words, pgd, lo, hi, v, n, phys, flags)
    requires !IsPresent(Pde(s1.words, pgd, DirOf(PageAt(v, n)))) ==> s1.pool != []
    ensures var s2 := MapOne(s1, pgd, PageAt(v, n), MapWord(phys, n, flags));
            && SpaceAndPool(s2, pgd, lo, hi) && Extends(s, s2, pgd, lo, hi)
            && Mapped(s.words, s2.words, pgd, lo, hi, v, n + 1, phys, flags)
  {
    var page, e := PageAt(v, n), MapWord(phys, n, flags);
    var s2 := MapOne(s1, pgd, page, e);
    MapOneFlat(s1, pgd, lo, hi, page, e);
    ExtendsTransitive(s, s1, s2, pgd, lo, hi);
    MappedStep(s.words, s1.words, s2.words, pgd, lo, hi, v, n, phys, flags);
  }

  lemma RangeMappedStart(s: Frames, pgd: nat, lo: nat, hi: nat, v: nat, phys: Word, flags: bv12)
    requires SpaceAndPool(s, pgd, lo, hi)
    ensures RangeMapped(s, s, pgd, lo, hi, v, 0, phys, flags)
  {
    assert Absent(s.words, pgd, v, 0) == {};
  }

  lemma RangeMappedNext(s: Frames, s1: Frames, pgd: nat, lo: nat, hi: nat, v: nat, n: nat, phys: Word, flags: bv12)
    requires SpaceAndPool(s, pgd, lo, hi) && n < PAGES && InRegion(PageAt(v, n), lo, hi)
    requires RangeMapped(s, s1, pgd, lo, hi, v, n, phys, flags)
    requires |Absent(s.words, pgd, v, n + 1)| <= |s.pool|
    ensures RangeMapped(s, MapOne(s1, pgd, PageAt(v, n), MapWord(phys, n, flags)), pgd, lo, hi, v, n + 1, phys, flags)
  {
    FrameAtHand(s, s1, pgd, v, n);
    MapRangeStep(s, s1, pgd, lo, hi, v, n, phys, flags);
    MapTablesStep(s, s1, pgd, lo, hi, v, n, MapWord(phys, n, flags));
  }

  /** map_pages on a whole range, given a free frame for each missing table. */
  lemma {:induction false} MapManyFlat(s: Frames, pgd: nat, lo: nat, hi: nat, v: nat, n: nat, phys: Word, flags: bv12)
    requires SpaceAndPool(s, pgd, lo, hi) && n <= PAGES && RangeInRegion(v, n, lo, hi)
    requires |Absent(s.words, pgd, v, n)| <= |s.pool|
    ensures RangeMapped(s, MapMany(s, pgd, v, n, phys, flags), pgd, lo, hi, v, n, phys, flags)
  {
    if n == 0 {
      RangeMappedStart(s, pgd, lo, hi, v, phys, flags);
    } else {
      AbsentGrows(s.words, pgd, v, n - 1);
      SubsetSize(Absent(s.words, pgd, v, n - 1), Absent(s.words, pgd, v, n));
      MapManyFlat(s, pgd, lo, hi, v, n - 1, phys, flags);
      RangeMappedNext(s, MapMany(s, pgd, v, n - 1, phys, flags), pgd, lo, hi, v, n - 1, phys, flags);
    }
  }

  /** The frames of the present pages among the first n from v, in order. */
  function Released(m: Memory, pgd: nat, v: nat, n: nat): seq<nat> {
    if n == 0 then []
    else
      var e := Lookup(m, pgd, PageAt(v, n - 1));
      Released(m, pgd, v, n - 1) + if IsPresent(e) then [e.frame] else []
  }

  /** What unmap_pages achieves on the first n pages of a range: in the flat map their
      present entries are gone and nothing else changes, each of their frames is
      handed back once, and only tables of the region are written. */
  ghost predicate RangeUnmapped(s: Frames, s': Frames, pgd: nat, lo: nat, hi: nat, v: nat, n: nat) {
    && SpaceOk(s'.words, pgd, lo, hi) && s'.words.Keys == s.words.Keys
    && (forall g :: g in s.words && !IsTable(s.words, pgd, lo, hi, g) ==> s'.words[g] == s.words[g])
    && (forall d :: 0 <= d < ENTRIES ==> Pde(s'.words, pgd, d) == Pde(s.words, pgd, d))
    && (forall q: nat :: q < PAGES && InRegion(q, lo, hi) ==>
          Lookup(s'.words, pgd, q) ==
          if Rank(v, q) < n && IsPresent(Lookup(s.words, pgd, q)) then NOTHING else Lookup(s.words, pgd, q))
    && s'.pool == s.pool + Released(s.words, pgd, v, n)
  }

  /** The page is still mapped as it was before the range was started on. */
  lemma StillMapped(s: Frames, s1: Frames, pgd: nat, lo: nat, hi: nat, v: nat, n: nat)
    requires RangeUnmapped(s, s1, pgd, lo, hi, v, n) && n < PAGES && InRegion(PageAt(v, n), lo, hi)
    ensures Lookup(s1.words, pgd, PageAt(v, n)) == Lookup(s.words, pgd, PageAt(v, n))
  {
    RankOfPage(v, n, PageAt(v, n));
  }

  lemma RangeUnmappedNext(s: Frames, s1: Frames, s2: Frames, pgd: nat, lo: nat, hi: nat, v: nat, n: nat)
    requires SpaceOk(s.words, pgd, lo, hi) && n < PAGES && InRegion(PageAt(v, n), lo, hi)
    requires RangeUnmapped(s, s1, pgd, lo, hi, v, n) && s2 == UnmapOne(s1, pgd, PageAt(v, n))
    ensures RangeUnmapped(s, s2, pgd, lo, hi, v, n + 1)
  {
    var page := PageAt(v, n);
    StillMapped(s, s1, pgd, lo, hi, v, n);
    if IsPresent(Pde(s1.words, pgd, DirOf(page))) {
      SetEntryChanges(s1.words, pgd, lo, hi, page, NOTHING);
    }
    forall q: nat | q < PAGES && InRegion(q, lo, hi)
      ensures Lookup(s2.words, pgd, q) ==
        if Rank(v, q) < n + 1 && IsPresent(Lookup(s.words, pgd, q)) then NOTHING else Lookup(s.words, pgd, q)
    {
      RankOfPage(v, n, q);
    }
  }

  /** unmap_pages on a whole range. */
  lemma {:induction false} UnmapManyFlat(s: Frames, s': Frames, pgd: nat, lo: nat, hi: nat, v: nat, n: nat)
    requires SpaceOk(s.words, pgd, lo, hi) && n <= PAGES && RangeInRegion(v, n, lo, hi) && s' == UnmapMany(s, pgd, v, n)
    ensures RangeUnmapped(s, s', pgd, lo, hi, v, n)
    decreases n
  {
    if n > 0 {
      var s1 := UnmapMany(s, pgd, v, n - 1);
      UnmapManyFlat(s, s1, pgd, lo, hi, v, n - 1);
      RangeUnmappedNext(s, s1, s', pgd, lo, hi, v, n - 1);
    }
  }

  // ---------------------------------------------------------------------- byte ranges

  /** Every byte of the range is in a page that is mapped, for the user, to the frame of that
      byte; pages without a byte of it are as before. */
  ghost predicate BytesMapped(m: Memory, m': Memory, pgd: nat, lo: nat, hi: nat, v: nat, size: nat, phys: Word,
      flags: bv12) {
    && (forall b: nat :: b < size ==>
          Lookup(m', pgd, PageAt(v, b / 0x1000)) ==
          Word((phys.frame + b / 0x1000) % PAGES, phys.bits | flags | USER | PRESENT))
    && (forall q: nat :: q < PAGES && InRegion(q, lo, hi) && !HoldsByte(v, size, q) ==>
          Lookup(m', pgd, q) == Lookup(m, pgd, q))
  }

  /** No byte of the range is in a page that is present; pages without a byte of it are as
      before. */
  ghost predicate BytesUnmapped(m: Memory, m': Memory, pgd: nat, lo: nat, hi: nat, v: nat, size: nat) {
    && (forall b: nat :: b < size ==> !IsPresent(Lookup(m', pgd, PageAt(v, b / 0x1000))))
    && (forall q: nat :: q < PAGES && InRegion(q, lo, hi) && !HoldsByte(v, size, q) ==>
          Lookup(m', pgd, q) == Lookup(m, pgd, q))
  }

  /** The range lies in a region in order, its size does not wrap around when rounded up, and
      there is a frame for every missing table. */
  ghost predicate CanMapBytes(s: Frames, pgd: nat, lo: nat, hi: nat, v: nat, size: nat) {
    && size <= 0x1_0000_0000 - 0x1000 && SpaceAndPool(s, pgd, lo, hi) && RangeInRegion(v, NumPages(size), lo, hi)
    && |Absent(s.words, pgd, v, NumPages(size))| <= |s.pool|
  }

  ghost predicate CanUnmapBytes(m: Memory, pgd: nat, lo: nat, hi: nat, v: nat, size: nat) {
    size <= 0x1_0000_0000 - 0x1000 && SpaceOk(m, pgd, lo, hi) && RangeInRegion(v, NumPages(size), lo, hi)
  }

  /** The i-th page of a range in the region. */
  lemma RangePage(v: nat, n: nat, i: nat, lo: nat, hi: nat)
    requires RangeInRegion(v, n, lo, hi) && i < n <= PAGES
    ensures InRegion(PageAt(v, i), lo, hi) && PageAt(v, i) < PAGES && Rank(v, PageAt(v, i)) == i
  {
    RankOfPage(v, i, PageAt(v, i));
  }

  lemma MappedBytes(m: Memory, m': Memory, pgd: nat, lo: nat, hi: nat, v: nat, size: nat, phys: Word, flags: bv12)
    requires size <= 0x1_0000_0000 - 0x1000 && RangeInRegion(v, NumPages(size), lo, hi)
    requires Mapped(m, m', pgd, lo, hi, v, NumPages(size), phys, flags)
    ensures BytesMapped(m, m', pgd, lo, hi, v, size, phys, flags)
  {
    NumPagesMeans(size);
    forall b: nat | b < size
      ensures Lookup(m', pgd, PageAt(v, b / 0x1000)) ==
              Word((phys.frame + b / 0x1000) % PAGES, phys.bits | flags | USER | PRESENT)
    {
      RangePage(v, NumPages(size), b / 0x1000, lo, hi);
    }
    forall q: nat | q < PAGES && InRegion(q, lo, hi) && !HoldsByte(v, size, q)
      ensures Lookup(m', pgd, q) == Lookup(m, pgd, q)
    {
      PagesOfBytes(v, size, q);
    }
  }

  lemma UnmappedBytes(s: Frames, s': Frames, pgd: nat, lo: nat, hi: nat, v: nat, size: nat)
    requires size <= 0x1_0000_0000 - 0x1000 && RangeInRegion(v, NumPages(size), lo, hi)
    requires RangeUnmapped(s, s', pgd, lo, hi, v, NumPages(size))
    ensures BytesUnmapped(s.words, s'.words, pgd, lo, hi, v, size)
  {
    NumPagesMeans(size);
    forall b: nat | b < size ensures !IsPresent(Lookup(s'.words, pgd, PageAt(v, b / 0x1000))) {
      RangePage(v, NumPages(size), b / 0x1000, lo, hi);
    }
    forall q: nat | q < PAGES && InRegion(q, lo, hi) && !HoldsByte(v, size, q)
      ensures Lookup(s'.words, pgd, q) == Lookup(s.words, pgd, q)
    {
      PagesOfBytes(v, size, q);
    }
  }

  /** map_pages of size bytes. */
  lemma MapsBytes(s: Frames, s': Frames, pgd: nat, v: nat, size: nat, phys: Word, flags: bv12)
    requires s' == MapMany(s, pgd, v, NumPages(size), phys, flags)
    ensures forall lo, hi :: CanMapBytes(s, pgd, lo, hi, v, size) ==>
      BytesMapped(s.words, s'.words, pgd, lo, hi, v, size, phys, flags)
  {
    forall lo, hi | CanMapBytes(s, pgd, lo, hi, v, size)
      ensures BytesMapped(s.words, s'.words, pgd, lo, hi, v, size, phys, flags)
    {
      MapManyFlat(s, pgd, lo, hi, v, NumPages(size), phys, flags);
      MappedBytes(s.words, s'.words, pgd, lo, hi, v, size, phys, flags);
    }
  }

  /** unmap_pages of size bytes. */
  lemma UnmapsBytes(s: Frames, s': Frames, pgd: nat, v: nat, size: nat)
    requires s' == UnmapMany(s, pgd, v, NumPages(size))
    ensures forall lo, hi :: CanUnmapBytes(s.words, pgd, lo, hi, v, size) ==>
      BytesUnmapped(s.words, s'.words, pgd, lo, hi, v, size)
  {
    forall lo, hi | CanUnmapBytes(s.words, pgd, lo, hi, v, size)
      ensures BytesUnmapped(s.words, s'.words, pgd, lo, hi, v, size)
    {
      UnmapManyFlat(s, s', pgd, lo, hi, v, NumPages(size));
      UnmappedBytes(s, s', pgd, lo, hi, v, size);
    }
  }

  /** Unmapping a range mapped over absent pages restores the flat map, and hands back
      exactly the frames that were mapped. */
  lemma UnmapsMapped(s: Frames, s1: Frames, pgd: nat, lo: nat, hi: nat, v: nat, n: nat, phys: Word, flags: bv12)
    requires SpaceOk(s1.words, pgd, lo, hi) && n <= PAGES && RangeInRegion(v, n, lo, hi)
    requires Mapped(s.words, s1.words, pgd, lo, hi, v, n, phys, flags)
    requires forall i :: 0 <= i < n ==> Lookup(s.words, pgd, PageAt(v, i)) == NOTHING
    ensures var s2 := UnmapMany(s1, pgd, v, n);
            && SameFlat(s.words, s2.words, pgd, lo, hi)
            && s2.pool == s1.pool + seq(n, i requires 0 <= i < n => (phys.frame + i) % PAGES)
  {
    UnmapManyFlat(s1, UnmapMany(s1, pgd, v, n), pgd, lo, hi, v, n);
    ReleasedFrames(s.words, s1.words, pgd, lo, hi, v, n, n, phys, flags);
    forall q: nat | q < PAGES && InRegion(q, lo, hi)
      ensures Lookup(UnmapMany(s1, pgd, v, n).words, pgd, q) == Lookup(s.words, pgd, q)
    {
      if Rank(v, q) < n {
        RankOfPage(v, Rank(v, q), q);
        MapWordPresent(phys, Rank(v, q), flags);
      }
    }
  }

  /** Mapping a range over absent pages and unmapping it again. */
  lemma MapThenUnmap(s: Frames, pgd: nat, lo: nat, hi: nat, v: nat, n: nat, phys: Word, flags: bv12)
    requires SpaceAndPool(s, pgd, lo, hi) && n <= PAGES && RangeInRegion(v, n, lo, hi)
    requires |Absent(s.words, pgd, v, n)| <= |s.pool|
    requires forall i :: 0 <= i < n ==> Lookup(s.words, pgd, PageAt(v, i)) == NOTHING
    ensures var s1 := MapMany(s, pgd, v, n, phys, flags);
            var s2 := UnmapMany(s1, pgd, v, n);
            && SameFlat(s.words, s2.words, pgd, lo, hi)
            && s2.pool == s1.pool + seq(n, i requires 0 <= i < n => (phys.frame + i) % PAGES)
  {
    MapManyFlat(s, pgd, lo, hi, v, n, phys, flags);
    UnmapsMapped(s, MapMany(s, pgd, v, n, phys, flags), pgd, lo, hi, v, n, phys, flags);
  }

  lemma MapWordPresent(phys: Word, i: nat, flags: bv12)
    ensures IsPresent(MapWord(phys, i, flags))
  {
  }

  lemma {:induction false} ReleasedFrames(m: Memory, m': Memory, pgd: nat, lo: nat, hi: nat, v: nat, n: nat, k: nat,
      phys: Word, flags: bv12)
    requires k <= n <= PAGES && RangeInRegion(v, n, lo, hi) && Mapped(m, m', pgd, lo, hi, v, n, phys, flags)
    ensures Released(m', pgd, v, k) == seq(k, i requires 0 <= i < k => (phys.frame + i) % PAGES)
    decreases k
  {
    if k > 0 {
      ReleasedFrames(m, m', pgd, lo, hi, v, n, k - 1, phys, flags);
      var page := PageAt(v, k - 1);
      RankOfPage(v, k - 1, page);
      MapWordPresent(phys, k - 1, flags);
      assert Lookup(m', pgd, page) == MapWord(phys, k - 1, flags);
    }
  }
}
