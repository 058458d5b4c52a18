/** map_pages when the free frames run out: the 0 that the page allocator then returns is
    taken for a frame, and frame 0 becomes a page table. */
module FrameZero {
  import opened PageTable
  import opened Sequences
  import opened UserMemory

  /** Frame 0 is neither free nor the directory or a table of the region. */
  ghost predicate ZeroIdle(s: Frames, pgd: nat, lo: nat, hi: nat)
    requires pgd in s.words && |s.words[pgd]| == ENTRIES && hi <= ENTRIES
  {
    0 !in s.pool && Unused(s.words, pgd, lo, hi, 0)
  }

  // ------------------------------------------------- one frame short: frame 0 stands in

  function WithZero(s: Frames): Frames {
    Frames(s.words, s.pool + [0])
  }

  /** z has frame 0 as one more free frame, unless it is used up too. */
  predicate Alike(s: Frames, z: Frames) {
    s.words == z.words && (z.pool == s.pool + [0] || (s.pool == [] && z.pool == []))
  }

  lemma AlikeOne(s: Frames, z: Frames, pgd: nat, page: nat, e: Word)
    requires Alike(s, z)
    ensures Alike(MapOne(s, pgd, page, e), MapOne(z, pgd, page, e))
  {
    if s.pool != [] { assert (s.pool + [0])[1..] == s.pool[1..] + [0]; }
  }

  /** Having frame 0 as a last free frame writes the same words as having run out. */
  lemma {:induction false} AlikeMany(s: Frames, z: Frames, pgd: nat, v: nat, n: nat, phys: Word, flags: bv12)
    requires Alike(s, z)
    ensures Alike(MapMany(s, pgd, v, n, phys, flags), MapMany(z, pgd, v, n, phys, flags))
  {
    if n > 0 {
      AlikeMany(s, z, pgd, v, n - 1, phys, flags);
      AlikeOne(MapMany(s, pgd, v, n - 1, phys, flags), MapMany(z, pgd, v, n - 1, phys, flags),
               pgd, PageAt(v, n - 1), MapWord(phys, n - 1, flags));
    }
  }

  lemma ZeroInPool(s: Frames, pgd: nat, lo: nat, hi: nat)
    requires SpaceAndPool(s, pgd, lo, hi) && ZeroIdle(s, pgd, lo, hi)
    ensures SpaceAndPool(WithZero(s), pgd, lo, hi)
  {
  }

  /** With one frame too few the flat map is still the right one, and the space in order. */
  lemma OneShort(s: Frames, pgd: nat, lo: nat, hi: nat, v: nat, n: nat, phys: Word, flags: bv12)
    requires SpaceAndPool(s, pgd, lo, hi) && ZeroIdle(s, pgd, lo, hi) && n <= PAGES && RangeInRegion(v, n, lo, hi)
    requires |Absent(s.words, pgd, v, n)| <= |s.pool| + 1
    ensures var s' := MapMany(s, pgd, v, n, phys, flags);
            && SpaceOk(s'.words, pgd, lo, hi) && Mapped(s.words, s'.words, pgd, lo, hi, v, n, phys, flags)
            && TablesFor(s.words, s'.words, pgd, v, n)
            && (|Absent(s.words, pgd, v, n)| >= |s.pool| ==> s'.pool == [])
  {
    ZeroInPool(s, pgd, lo, hi);
    MapManyFlat(WithZero(s), pgd, lo, hi, v, n, phys, flags);
    AlikeMany(s, WithZero(s), pgd, v, n, phys, flags);
  }

  /** Unmapping what was mapped with one frame too few still restores the flat map and
      hands back exactly the frames that were mapped. */
  lemma OneShortUnmap(s: Frames, pgd: nat, lo: nat, hi: nat, v: nat, n: nat, phys: Word, flags: bv12)
    requires SpaceAndPool(s, pgd, lo, hi) && ZeroIdle(s, pgd, lo, hi) && n <= PAGES && RangeInRegion(v, n, lo, hi)
    requires |Absent(s.words, pgd, v, n)| <= |s.pool| + 1
    requires forall i :: 0 <= i < n ==> Lookup(s.words, pgd, PageAt(v, i)) == NOTHING
    ensures var s1 := MapMany(s, pgd, v, n, phys, flags);
            var s2 := UnmapMany(s1, pgd, v, n);
            && SameFlat(s.words, s2.words, pgd, lo, hi)
            && s2.pool == s1.pool + seq(n, i requires 0 <= i < n => (phys.frame + i) % PAGES)
  {
    OneShort(s, pgd, lo, hi, v, n, phys, flags);
    UnmapsMapped(s, MapMany(s, pgd, v, n, phys, flags), pgd, lo, hi, v, n, phys, flags);
  }

  // ------------------------------------------------------ two frames short: tables alias

  const ZERO_TABLE: Word := Word(0, PRESENT | WRITE | USER)

  /** The directory is in memory and no entry of the region leads to it. */
  ghost predicate DirOk(m: Memory, pgd: nat, lo: nat, hi: nat) {
    && lo <= hi <= ENTRIES && pgd in m && |m[pgd]| == ENTRIES && pgd != 0
    && forall d :: lo <= d < hi && IsPresent(m[pgd][d]) ==> m[pgd][d].frame != pgd
  }

  lemma MapOneDir(s: Frames, pgd: nat, lo: nat, hi: nat, page: nat, e: Word)
    requires DirOk(s.words, pgd, lo, hi) && InRegion(page, lo, hi) && s.pool == []
    ensures var s' := MapOne(s, pgd, page, e);
            var d := DirOf(page);
            && DirOk(s'.words, pgd, lo, hi) && s'.pool == []
            && s'.words[pgd] == if IsPresent(s.words[pgd][d]) then s.words[pgd] else s.words[pgd][d := ZERO_TABLE]
  {
    var d := DirOf(page);
    if !IsPresent(s.words[pgd][d]) {
      var m1 := AddTable(s.words, pgd, d, 0);
      assert m1[pgd] == s.words[pgd][d := ZERO_TABLE] && IsPresent(ZERO_TABLE);
    }
  }

  /** A table in frame 0 stays where it is, and a missing one ends up there. */
  lemma ZeroTableNext(s: Frames, pgd: nat, lo: nat, hi: nat, page: nat, e: Word, d: nat)
    requires SpaceOk(s.words, pgd, lo, hi) && pgd != 0 && InRegion(page, lo, hi) && s.pool == []
    requires Pde(s.words, pgd, d) == ZERO_TABLE || (d == DirOf(page) && !IsPresent(Pde(s.words, pgd, d)))
    ensures Pde(MapOne(s, pgd, page, e).words, pgd, d) == ZERO_TABLE
  {
    assert DirOk(s.words, pgd, lo, hi) && IsPresent(ZERO_TABLE);
    MapOneDir(s, pgd, lo, hi, page, e);
  }

  lemma AbsentStep(m: Memory, pgd: nat, v: nat, n: nat)
    requires |Absent(m, pgd, v, n)| > 0
    ensures n > 0 && var d := DirOf(PageAt(v, n - 1));
            && |Absent(m, pgd, v, n - 1)| <= |Absent(m, pgd, v, n)| <= |Absent(m, pgd, v, n - 1)| + 1
            && (|Absent(m, pgd, v, n - 1)| < |Absent(m, pgd, v, n)| ==>
                  !IsPresent(Pde(m, pgd, d)) && !Touched(v, n - 1, d))
  {
    var d :| d in Absent(m, pgd, v, n);
    AbsentGrows(m, pgd, v, n - 1);
    d := DirOf(PageAt(v, n - 1));
    if d in Absent(m, pgd, v, n - 1) || IsPresent(Pde(m, pgd, d)) {
      assert Absent(m, pgd, v, n) == Absent(m, pgd, v, n - 1);
    }
  }

  /** Before the last page of a range for which frames run out: a table that is missing is
      still missing. */
  lemma BeforeLast(s: Frames, s1: Frames, pgd: nat, lo: nat, hi: nat, v: nat, n: nat, phys: Word, flags: bv12)
    requires SpaceAndPool(s, pgd, lo, hi) && ZeroIdle(s, pgd, lo, hi) && n < PAGES && RangeInRegion(v, n, lo, hi)
    requires |Absent(s.words, pgd, v, n)| <= |s.pool| + 1 && |Absent(s.words, pgd, v, n + 1)| > |s.pool|
    requires s1 == MapMany(s, pgd, v, n, phys, flags) && InRegion(PageAt(v, n), lo, hi)
    ensures SpaceOk(s1.words, pgd, lo, hi) && pgd != 0 && s1.pool == []
    ensures |Absent(s.words, pgd, v, n)| < |Absent(s.words, pgd, v, n + 1)| ==>
            !IsPresent(Pde(s1.words, pgd, DirOf(PageAt(v, n))))
  {
    AbsentStep(s.words, pgd, v, n + 1);
    OneShort(s, pgd, lo, hi, v, n, phys, flags);
  }

  /** With one frame too few, the table of some page of the range is frame 0. */
  lemma {:induction false} ZeroTable(s: Frames, pgd: nat, lo: nat, hi: nat, v: nat, n: nat, phys: Word, flags: bv12)
    returns (i: nat)
    requires SpaceAndPool(s, pgd, lo, hi) && ZeroIdle(s, pgd, lo, hi) && n <= PAGES && RangeInRegion(v, n, lo, hi)
    requires |Absent(s.words, pgd, v, n)| == |s.pool| + 1
    ensures i < n && Pde(MapMany(s, pgd, v, n, phys, flags).words, pgd, DirOf(PageAt(v, i))) == ZERO_TABLE
  {
    AbsentStep(s.words, pgd, v, n);
    var s1, page := MapMany(s, pgd, v, n - 1, phys, flags), PageAt(v, n - 1);
    BeforeLast(s, s1, pgd, lo, hi, v, n - 1, phys, flags);
    if |Absent(s.words, pgd, v, n - 1)| == |s.pool| + 1 {
      i := ZeroTable(s, pgd, lo, hi, v, n - 1, phys, flags);
    } else {
      i := n - 1;
    }
    ZeroTableNext(s1, pgd, lo, hi, page, MapWord(phys, n - 1, flags), DirOf(PageAt(v, i)));
  }

  /** The entry of page i of the range, in frame 0, is empty or that of another page. */
  ghost predicate Lost(s: Frames, pgd: nat, lo: nat, hi: nat, v: nat, n: nat, i: nat, phys: Word, flags: bv12) {
    && DirOk(s.words, pgd, lo, hi) && s.pool == [] && i < n && 0 in s.words && |s.words[0]| == ENTRIES
    && Pde(s.words, pgd, DirOf(PageAt(v, i))) == ZERO_TABLE
    && OfAnother(s.words[0][PageAt(v, i) % ENTRIES], n, i, phys, flags)
  }

  ghost predicate OfAnother(e: Word, n: nat, i: nat, phys: Word, flags: bv12) {
    e == NOTHING || exists k: nat :: k < n && k != i && e == MapWord(phys, k, flags)
  }

  lemma LostNext(s: Frames, pgd: nat, lo: nat, hi: nat, v: nat, n: nat, i: nat, phys: Word, flags: bv12)
    requires Lost(s, pgd, lo, hi, v, n, i, phys, flags) && InRegion(PageAt(v, n), lo, hi)
    ensures Lost(MapOne(s, pgd, PageAt(v, n), MapWord(phys, n, flags)), pgd, lo, hi, v, n + 1, i, phys, flags)
  {
    var page, e := PageAt(v, n), MapWord(phys, n, flags);
    var s', at := MapOne(s, pgd, page, e), PageAt(v, i) % ENTRIES;
    MapOneDir(s, pgd, lo, hi, page, e);
    assert IsPresent(ZERO_TABLE);
    assert s'.words[0][at] == s.words[0][at] || s'.words[0][at] == NOTHING || s'.words[0][at] == e;
  }

  /** The second table that gets no frame empties the first one. */
  lemma LostFirst(s: Frames, pgd: nat, lo: nat, hi: nat, v: nat, n: nat, i: nat, phys: Word, flags: bv12)
    requires SpaceOk(s.words, pgd, lo, hi) && pgd != 0 && s.pool == [] && i < n && InRegion(PageAt(v, n), lo, hi)
    requires Pde(s.words, pgd, DirOf(PageAt(v, i))) == ZERO_TABLE
    requires !IsPresent(Pde(s.words, pgd, DirOf(PageAt(v, n))))
    ensures Lost(MapOne(s, pgd, PageAt(v, n), MapWord(phys, n, flags)), pgd, lo, hi, v, n + 1, i, phys, flags)
  {
    var page, e := PageAt(v, n), MapWord(phys, n, flags);
    var s', at := MapOne(s, pgd, page, e), PageAt(v, i) % ENTRIES;
    assert DirOk(s.words, pgd, lo, hi);
    MapOneDir(s, pgd, lo, hi, page, e);
    assert IsPresent(ZERO_TABLE);
    assert s'.words[0][at] == NOTHING || s'.words[0][at] == e;
  }

  lemma TwoShortNext(s: Frames, s1: Frames, pgd: nat, lo: nat, hi: nat, v: nat, n: nat, i: nat, phys: Word, flags: bv12)
    requires SpaceAndPool(s, pgd, lo, hi) && ZeroIdle(s, pgd, lo, hi) && n < PAGES && RangeInRegion(v, n, lo, hi)
    requires |Absent(s.words, pgd, v, n)| == |s.pool| + 1 && |Absent(s.words, pgd, v, n + 1)| >= |s.pool| + 2
    requires s1 == MapMany(s, pgd, v, n, phys, flags) && InRegion(PageAt(v, n), lo, hi)
    requires i < n && Pde(s1.words, pgd, DirOf(PageAt(v, i))) == ZERO_TABLE
    ensures Lost(MapOne(s1, pgd, PageAt(v, n), MapWord(phys, n, flags)), pgd, lo, hi, v, n + 1, i, phys, flags)
  {
    BeforeLast(s, s1, pgd, lo, hi, v, n, phys, flags);
    LostFirst(s1, pgd, lo, hi, v, n, i, phys, flags);
  }

  lemma {:induction false} TwoShort(s: Frames, s': Frames, pgd: nat, lo: nat, hi: nat, v: nat, n: nat, phys: Word,
      flags: bv12)
    returns (i: nat)
    requires SpaceAndPool(s, pgd, lo, hi) && ZeroIdle(s, pgd, lo, hi) && n <= PAGES && RangeInRegion(v, n, lo, hi)
    requires |Absent(s.words, pgd, v, n)| >= |s.pool| + 2 && s' == MapMany(s, pgd, v, n, phys, flags)
    ensures Lost(s', pgd, lo, hi, v, n, i, phys, flags)
    decreases n
  {
    AbsentStep(s.words, pgd, v, n);
    var before: nat := n - 1;
    var s1 := MapMany(s, pgd, v, before, phys, flags);
    assert s' == MapOne(s1, pgd, PageAt(v, before), MapWord(phys, before, flags));
    if |Absent(s.words, pgd, v, before)| >= |s.pool| + 2 {
      i := TwoShort(s, s1, pgd, lo, hi, v, before, phys, flags);
      LostNext(s1, pgd, lo, hi, v, before, i, phys, flags);
    } else {
      i := ZeroTable(s, pgd, lo, hi, v, before, phys, flags);
      TwoShortNext(s, s1, pgd, lo, hi, v, before, i, phys, flags);
    }
  }

  lemma OtherPage(e: Word, n: nat, i: nat, phys: Word, flags: bv12)
    requires OfAnother(e, n, i, phys, flags) && i < n <= PAGES
    ensures e != MapWord(phys, i, flags)
  {
    MapWordPresent(phys, i, flags);
    if e != NOTHING {
      var k: nat :| k < n && k != i && e == MapWord(phys, k, flags);
      RankOfPage(phys.frame, k, PageAt(phys.frame, i));
      RankOfPage(phys.frame, i, PageAt(phys.frame, i));
    }
  }

  /** map_pages gives the range the right flat map exactly when free frames are short of the
      missing tables by at most one. */
  lemma MapManyFlatIff(s: Frames, pgd: nat, lo: nat, hi: nat, v: nat, n: nat, phys: Word, flags: bv12)
    requires SpaceAndPool(s, pgd, lo, hi) && ZeroIdle(s, pgd, lo, hi) && n <= PAGES && RangeInRegion(v, n, lo, hi)
    ensures Mapped(s.words, MapMany(s, pgd, v, n, phys, flags).words, pgd, lo, hi, v, n, phys, flags) <==>
            |Absent(s.words, pgd, v, n)| <= |s.pool| + 1
  {
    if |Absent(s.words, pgd, v, n)| <= |s.pool| + 1 {
      OneShort(s, pgd, lo, hi, v, n, phys, flags);
    } else {
      var s' := MapMany(s, pgd, v, n, phys, flags);
      var i := TwoShort(s, s', pgd, lo, hi, v, n, phys, flags);
      var m, page := s'.words, PageAt(v, i);
      assert IsPresent(ZERO_TABLE) && Lookup(m, pgd, page) == m[0][page % ENTRIES];
      OtherPage(m[0][page % ENTRIES], n, i, phys, flags);
      RankOfPage(v, i, page);
    }
  }
}
