/** Isolation over every run: whatever is cloned and whatever faults, a frame that
    is writable at one user page of one address space is mapped nowhere else. */
module CopyOnWriteRuns {
  import opened PageTable
  import opened Sequences
  import opened UserMemory
  import opened CopyOnWrite

  /** The frames of memory and the directories of the address spaces in use. */
  datatype Sys = Sys(frames: Frames, spaces: set<nat>)

  predicate UserPage(page: nat) {
    page < PAGES && InRegion(page, USER_LO, USER_HI)
  }

  /** Frame t is the table of directory entry d of space p. */
  ghost predicate HasTable(m: Memory, p: nat, d: nat, t: nat) {
    USER_LO <= d < USER_HI && IsPresent(Pde(m, p, d)) && Pde(m, p, d).frame == t
  }

  /** User page q of space p is present and maps frame f. */
  ghost predicate MapsTo(m: Memory, p: nat, q: nat, f: nat) {
    UserPage(q) && IsPresent(Lookup(m, p, q)) && Lookup(m, p, q).frame == f
  }

  /** Directories and tables are never shared, and none of them, nor the APIC table, is
      frame 0, which is what a failed allocation leaves behind. */
  ghost predicate TablesApart(m: Memory, spaces: set<nat>) {
    && 0 !in spaces
    && (forall p :: p in spaces ==> SpaceOk(m, p, USER_LO, USER_HI) && Pde(m, p, APIC_DIR).frame != 0)
    && (forall p: nat, d: nat, t: nat :: p in spaces && HasTable(m, p, d, t) ==> t !in spaces && 0 < t)
    && (forall p: nat, p': nat, d: nat, d': nat, t: nat |
          p in spaces && p' in spaces && HasTable(m, p, d, t) && HasTable(m, p', d', t) :: p == p')
  }

  /** The free frames are frames of memory in no use: no directory, no table, mapped
      at no user page. */
  ghost predicate PoolFree(s: Sys) {
    var m := s.frames.words;
    var pool := s.frames.pool;
    && NoRepeats(pool)
    && (forall f :: f in pool ==> f in m && |m[f]| == ENTRIES && f !in s.spaces && 0 < f < PAGES)
    && (forall p: nat, d: nat, t: nat :: p in s.spaces && HasTable(m, p, d, t) ==> t !in pool)
    && (forall p: nat, q: nat, f: nat :: p in s.spaces && MapsTo(m, p, q, f) ==> f !in pool)
  }

  /** A page that is present and writable shares its frame with no other user page of
      any address space. */
  ghost predicate Isolated(m: Memory, spaces: set<nat>) {
    forall p: nat, q: nat, p': nat, q': nat, f: nat |
      p in spaces && p' in spaces && MapsTo(m, p, q, f) && MapsTo(m, p', q', f) && IsWritable(Lookup(m, p, q)) ::
      p == p' && q == q'
  }

  ghost predicate Inv(s: Sys) {
    TablesApart(s.frames.words, s.spaces) && PoolFree(s) && Isolated(s.frames.words, s.spaces)
  }

  // ------------------------------------------------------------------ mapping one page

  lemma SpaceReady(s: Sys, p: nat, pool: seq<nat>)
    requires TablesApart(s.frames.words, s.spaces) && PoolFree(s) && p in s.spaces
    requires NoRepeats(pool) && forall f :: f in pool ==> f in s.frames.pool
    ensures SpaceAndPool(Frames(s.frames.words, pool), p, USER_LO, USER_HI)
  {
    var m := s.frames.words;
    forall f | f in pool ensures Unused(m, p, USER_LO, USER_HI, f) {
      forall d | USER_LO <= d < USER_HI && IsPresent(m[p][d]) ensures m[p][d].frame != f {
        assert HasTable(m, p, d, m[p][d].frame);
      }
    }
  }

  /** A space whose directory and tables are as before is as before. */
  lemma SpaceKept(m: Memory, m': Memory, p: nat)
    requires SpaceOk(m, p, USER_LO, USER_HI) && p in m' && m'[p] == m[p]
    requires forall d: nat, t: nat :: HasTable(m, p, d, t) ==> t in m' && m'[t] == m[t]
    ensures SpaceOk(m', p, USER_LO, USER_HI)
    ensures forall d: nat, t: nat :: HasTable(m', p, d, t) <==> HasTable(m, p, d, t)
    ensures forall q: nat :: UserPage(q) ==> Lookup(m', p, q) == Lookup(m, p, q)
    ensures forall q: nat, f: nat :: MapsTo(m', p, q, f) <==> MapsTo(m, p, q, f)
  {
    forall d | USER_LO <= d < USER_HI && IsPresent(m'[p][d])
      ensures var t := m'[p][d].frame; t in m' && |m'[t]| == ENTRIES && t != p
    {
      assert HasTable(m, p, d, m[p][d].frame);
    }
    forall q: nat | UserPage(q) ensures Lookup(m', p, q) == Lookup(m, p, q) {
      if IsPresent(Pde(m, p, DirOf(q))) { assert HasTable(m, p, DirOf(q), Pde(m, p, DirOf(q)).frame); }
    }
  }

  /** Changing one address space leaves the others as they are. */
  lemma OtherSpaceKept(s: Sys, pool: seq<nat>, s': Frames, p: nat, p': nat)
    requires TablesApart(s.frames.words, s.spaces) && PoolFree(s) && p in s.spaces && p' in s.spaces && p != p'
    requires forall f :: f in pool ==> f in s.frames.pool
    requires Extends(Frames(s.frames.words, pool), s', p, USER_LO, USER_HI)
    ensures SpaceOk(s'.words, p', USER_LO, USER_HI) && s'.words[p'] == s.frames.words[p']
    ensures forall d: nat, t: nat :: HasTable(s'.words, p', d, t) <==> HasTable(s.frames.words, p', d, t)
    ensures forall q: nat :: UserPage(q) ==> Lookup(s'.words, p', q) == Lookup(s.frames.words, p', q)
    ensures forall q: nat, f: nat :: MapsTo(s'.words, p', q, f) <==> MapsTo(s.frames.words, p', q, f)
  {
    var m := s.frames.words;
    assert !IsTable(m, p, USER_LO, USER_HI, p') by {
      forall d | USER_LO <= d < USER_HI && IsPresent(Pde(m, p, d)) ensures Pde(m, p, d).frame != p' {
        assert HasTable(m, p, d, Pde(m, p, d).frame);
      }
    }
    forall d: nat, t: nat | HasTable(m, p', d, t) ensures t in s'.words && s'.words[t] == m[t] {
      assert IsPresent(m[p'][d]);
      forall e | USER_LO <= e < USER_HI && IsPresent(Pde(m, p, e)) ensures Pde(m, p, e).frame != t {
        assert HasTable(m, p, e, Pde(m, p, e).frame);
      }
    }
    SpaceKept(m, s'.words, p');
  }

  /** map_pages of one page to the next free frame. */
  function MapFresh(s: Sys, p: nat, page: nat, flags: bv12): Sys {
    var phys := Word(NextFrame(s.frames.pool), 0);
    s.(frames := MapMany(Frames(s.frames.words, RestOf(s.frames.pool)), p, page, 1, phys, flags))
  }

  /** Frames enough for the page and, if it is missing, for its table. */
  predicate EnoughToMap(s: Sys, p: nat, page: nat) {
    |s.frames.pool| >= if IsPresent(Pde(s.frames.words, p, DirOf(page))) then 1 else 2
  }

  lemma MapFreshIs(s: Sys, p: nat, page: nat, flags: bv12)
    requires PoolFree(s) && s.frames.pool != [] && page < PAGES
    ensures var f := s.frames.pool[0];
            MapFresh(s, p, page, flags).frames ==
            MapOne(Frames(s.frames.words, s.frames.pool[1..]), p, page, Word(f, flags | USER | PRESENT))
  {
    var f := s.frames.pool[0];
    assert f in s.frames.pool && PageAt(page, 0) == page;
    assert MapWord(Word(f, 0), 0, flags) == Word(f, flags | USER | PRESENT);
    var rest := Frames(s.frames.words, s.frames.pool[1..]);
    assert MapMany(rest, p, page, 0, Word(f, 0), flags) == rest;
  }

  /** The step seen in the space itself: page maps the first free frame, the rest is
      as before, and tables come from the rest of the pool. */
  ghost predicate MappedHere(s: Sys, s': Frames, p: nat, page: nat, e: Word) {
    && s.frames.pool != [] && e.frame == s.frames.pool[0]
    && SpaceAndPool(s', p, USER_LO, USER_HI)
    && Extends(Frames(s.frames.words, s.frames.pool[1..]), s', p, USER_LO, USER_HI)
    && forall q: nat :: UserPage(q) ==> Lookup(s'.words, p, q) == if q == page then e else Lookup(s.frames.words, p, q)
  }

  lemma MapFreshHere(s: Sys, p: nat, page: nat, flags: bv12)
    requires Inv(s) && p in s.spaces && UserPage(page) && EnoughToMap(s, p, page)
    ensures MappedHere(s, MapFresh(s, p, page, flags).frames, p, page, Word(s.frames.pool[0], flags | USER | PRESENT))
  {
    var pool := s.frames.pool[1..];
    assert forall f :: f in pool ==> f in s.frames.pool;
    SpaceReady(s, p, pool);
    MapFreshIs(s, p, page, flags);
    MapOneFlat(Frames(s.frames.words, pool), p, USER_LO, USER_HI, page, Word(s.frames.pool[0], flags | USER | PRESENT));
  }

  lemma PoolParts(s: Sys, s': Frames)
    requires PoolFree(s) && s.frames.pool != []
    requires s.frames.pool[1..] == Taken(Frames(s.frames.words, s.frames.pool[1..]), s') + s'.pool
    ensures NoRepeats(s'.pool)
    ensures forall f :: f in s'.pool ==> f in s.frames.pool && f != s.frames.pool[0]
    ensures forall f :: f in s'.pool ==> f !in Taken(Frames(s.frames.words, s.frames.pool[1..]), s')
    ensures forall f :: f in Taken(Frames(s.frames.words, s.frames.pool[1..]), s') ==> f in s.frames.pool
  {
    var taken := Taken(Frames(s.frames.words, s.frames.pool[1..]), s');
    assert s.frames.pool == [s.frames.pool[0]] + taken + s'.pool;
  }

  /** The other spaces after the step. */
  lemma MappedElsewhere(s: Sys, s': Frames, p: nat, page: nat, e: Word)
    requires Inv(s) && p in s.spaces && MappedHere(s, s', p, page, e)
    ensures forall p' :: p' in s.spaces && p' != p ==>
              SpaceOk(s'.words, p', USER_LO, USER_HI)
                  && Pde(s'.words, p', APIC_DIR) == Pde(s.frames.words, p', APIC_DIR)
    ensures forall p', d: nat, t: nat :: p' in s.spaces && p' != p ==>
              (HasTable(s'.words, p', d, t) <==> HasTable(s.frames.words, p', d, t))
    ensures forall p', q: nat :: p' in s.spaces && p' != p && UserPage(q) ==>
              Lookup(s'.words, p', q) == Lookup(s.frames.words, p', q)
  {
    assert forall f :: f in s.frames.pool[1..] ==> f in s.frames.pool;
    forall p' | p' in s.spaces && p' != p
      ensures SpaceOk(s'.words, p', USER_LO, USER_HI)
          && Pde(s'.words, p', APIC_DIR) == Pde(s.frames.words, p', APIC_DIR)
      ensures forall d: nat, t: nat :: HasTable(s'.words, p', d, t) <==> HasTable(s.frames.words, p', d, t)
      ensures forall q: nat :: UserPage(q) ==> Lookup(s'.words, p', q) == Lookup(s.frames.words, p', q)
    {
      OtherSpaceKept(s, s.frames.pool[1..], s', p, p');
    }
  }

  /** A table of the space after the step was its table before or was taken from the
      pool. */
  lemma MappedTables(s: Sys, s': Frames, p: nat, page: nat, e: Word)
    requires Inv(s) && p in s.spaces && MappedHere(s, s', p, page, e)
    ensures TablesApart(s'.words, s.spaces)
    ensures forall p': nat, d: nat, t: nat :: p' in s.spaces && HasTable(s'.words, p', d, t) ==>
              t !in s'.pool && (HasTable(s.frames.words, p', d, t) || t in s.frames.pool)
  {
    MappedElsewhere(s, s', p, page, e);
    PoolParts(s, s');
    var m := s.frames.words;
    forall d: nat, t: nat | HasTable(s'.words, p, d, t)
      ensures (HasTable(m, p, d, t) || t in s.frames.pool) && t !in s'.pool
    {
      if IsPresent(Pde(m, p, d)) { assert HasTable(m, p, d, t); }
    }
  }

  lemma MappedPool(s: Sys, s': Frames, p: nat, page: nat, e: Word)
    requires Inv(s) && p in s.spaces && MappedHere(s, s', p, page, e)
    ensures NoRepeats(s'.pool)
    ensures forall f :: f in s'.pool ==> f in s'.words && |s'.words[f]| == ENTRIES && f !in s.spaces && 0 < f < PAGES
  {
    PoolParts(s, s');
    var m := s.frames.words;
    forall f | f in s'.pool ensures f in s'.words && s'.words[f] == m[f] {
      forall d | USER_LO <= d < USER_HI && IsPresent(Pde(m, p, d)) ensures Pde(m, p, d).frame != f {
        assert HasTable(m, p, d, Pde(m, p, d).frame);
      }
    }
  }

  /** Apart from the new page, what is mapped was mapped before. */
  lemma MappedBefore(s: Sys, s': Frames, p: nat, page: nat, e: Word, p': nat, q: nat, f: nat)
    requires Inv(s) && p in s.spaces && MappedHere(s, s', p, page, e) && p' in s.spaces && MapsTo(s'.words, p', q, f)
    ensures if p' == p && q == page then f == s.frames.pool[0] && Lookup(s'.words, p', q) == e
            else
              && MapsTo(s.frames.words, p', q, f) && f !in s.frames.pool
              && Lookup(s'.words, p', q) == Lookup(s.frames.words, p', q)
  {
    if p' != p { MappedElsewhere(s, s', p, page, e); }
    if p' != p || q != page {
      assert Lookup(s'.words, p', q) == Lookup(s.frames.words, p', q);
      assert MapsTo(s.frames.words, p', q, f);
    }
  }

  lemma MappedIsolated(s: Sys, s': Frames, p: nat, page: nat, e: Word)
    requires Inv(s) && p in s.spaces && MappedHere(s, s', p, page, e)
    ensures Isolated(s'.words, s.spaces)
    ensures forall p': nat, q: nat, f: nat :: p' in s.spaces && MapsTo(s'.words, p', q, f) ==> f !in s'.pool
  {
    PoolParts(s, s');
    forall p': nat, q: nat, f: nat | p' in s.spaces && MapsTo(s'.words, p', q, f)
      ensures f !in s'.pool
      ensures if p' == p && q == page then f == s.frames.pool[0]
              else
                && MapsTo(s.frames.words, p', q, f) && f !in s.frames.pool
                && Lookup(s'.words, p', q) == Lookup(s.frames.words, p', q)
    {
      MappedBefore(s, s', p, page, e, p', q, f);
    }
  }

  lemma MapFreshKeeps(s: Sys, p: nat, page: nat, flags: bv12)
    requires Inv(s) && p in s.spaces && UserPage(page) && EnoughToMap(s, p, page)
    ensures Inv(MapFresh(s, p, page, flags))
  {
    var s', e := MapFresh(s, p, page, flags).frames, Word(s.frames.pool[0], flags | USER | PRESENT);
    MapFreshHere(s, p, page, flags);
    MappedTables(s, s', p, page, e);
    MappedPool(s, s', p, page, e);
    MappedIsolated(s, s', p, page, e);
  }

  /** Without a frame for a missing table, frame 0 becomes the table. */
  lemma ShortMapBreaks(s: Sys, p: nat, page: nat, flags: bv12)
    requires Inv(s) && p in s.spaces && UserPage(page) && s.frames.pool != [] && !EnoughToMap(s, p, page)
    ensures HasTable(MapFresh(s, p, page, flags).frames.words, p, DirOf(page), 0)
  {
    MapFreshIs(s, p, page, flags);
    var m, d := s.frames.words, DirOf(page);
    var m1 := AddTable(m, p, d, 0);
    assert m1[p] == m[p][d := Word(0, PRESENT | WRITE | USER)];
    assert EnsureTable(Frames(m, s.frames.pool[1..]), p, d) == Frames(m1, []);
    assert IsPresent(Word(0, PRESENT | WRITE | USER));
  }

  /** Mapping the first free frame keeps the invariant, whatever flags it is mapped with,
      exactly when a missing table gets a frame too. */
  lemma MapFreshKeepsIff(s: Sys, p: nat, page: nat, flags: bv12)
    requires Inv(s) && p in s.spaces && UserPage(page) && s.frames.pool != []
    ensures Inv(MapFresh(s, p, page, flags)) <==> EnoughToMap(s, p, page)
  {
    if EnoughToMap(s, p, page) {
      MapFreshKeeps(s, p, page, flags);
    } else {
      ShortMapBreaks(s, p, page, flags);
    }
  }

  // --------------------------------------------------------------------------- cloning

  /** The state copyMemorySpaceCOW starts from: the next free frame is the new
      directory. */
  function ForkStart(s: Sys): (Frames, nat) {
    (Frames(s.frames.words, RestOf(s.frames.pool)), NextFrame(s.frames.pool))
  }

  /** Frames for the directory, the APIC table and the copies of the user tables. */
  predicate EnoughToClone(s: Sys, src: nat) {
    |s.frames.pool| >= 2 + CopyCount(s.frames.words, src, USER_HI)
  }

  /** The system after cloning space src: kernel part first, then the user entries. */
  function CloneSpace(s: Sys, src: nat): Sys {
    var (start, dst) := ForkStart(s);
    Sys(CloneDirs(CloneKernel(start, src, dst), src, dst, USER_HI), s.spaces + {dst})
  }

  /** No user table of the space lies beyond the directly mapped memory. */
  ghost predicate NoFarTable(m: Memory, src: nat) {
    forall d: nat :: USER_LO <= d < USER_HI && IsPresent(Pde(m, src, d)) ==> Pde(m, src, d).frame <= MAX_TABLE
  }

  /** No page that is writable is mapped by such a table. */
  ghost predicate NoFarWritable(m: Memory, src: nat) {
    forall q: nat :: UserPage(q) && IsPresent(Lookup(m, src, q)) && IsWritable(Lookup(m, src, q)) ==>
      Copied(Pde(m, src, DirOf(q)))
  }

  lemma KernelWrites(s: Sys, src: nat)
    requires Inv(s) && src in s.spaces && EnoughToClone(s, src)
    ensures var m := s.frames.words;
            var pool := s.frames.pool;
            var k := CloneKernel(ForkStart(s).0, src, s.frames.pool[0]);
            && k.words.Keys == m.Keys && k.pool == pool[2..] && pool[0] != pool[1]
            && |k.words[pool[0]]| == ENTRIES
            && forall g :: g in m && g != pool[0] && g != pool[1] ==> k.words[g] == m[g]
  {
    var pool := s.frames.pool;
    assert pool[0] in pool && pool[1] in pool;
    assert pool[1..][1..] == pool[2..];
  }

  lemma {:induction false} CopyCountSame(m: Memory, m': Memory, src: nat, d: nat)
    requires src in m && src in m' && m'[src] == m[src]
    ensures CopyCount(m', src, d) == CopyCount(m, src, d)
    decreases d
  {
    if d > USER_LO { CopyCountSame(m, m', src, d - 1); }
  }

  /** After the kernel part, the old spaces are as they were and the user loop is
      ready to run. */
  lemma KernelReady(s: Sys, src: nat)
    requires Inv(s) && src in s.spaces && EnoughToClone(s, src)
    ensures var dst := s.frames.pool[0];
            var k := CloneKernel(ForkStart(s).0, src, s.frames.pool[0]);
            && CloneReady(k, src, dst) && k.words[src] == s.frames.words[src]
  {
    var m, pool := s.frames.words, s.frames.pool;
    var dst, k := pool[0], CloneKernel(ForkStart(s).0, src, pool[0]);
    KernelWrites(s, src);
    assert pool[0] in pool && pool[1] in pool;
    SpaceKept(m, k.words, src);
    CopyCountSame(m, k.words, src, USER_HI);
    forall f | f in k.pool || f == dst
      ensures f in pool && Unused(k.words, src, USER_LO, USER_HI, f) && (f in k.pool ==> f != dst && f != pool[1])
    {
      forall d | USER_LO <= d < USER_HI && IsPresent(k.words[src][d]) ensures k.words[src][d].frame != f {
        assert HasTable(m, src, d, m[src][d].frame);
      }
    }
  }

  /** k is the state after the kernel part of a clone of src. */
  ghost predicate KernelDone(s: Sys, k: Frames, src: nat) {
    var m := s.frames.words;
    var pool := s.frames.pool;
    && |pool| >= 2 && k.words.Keys == m.Keys && k.pool == pool[2..]
    && (forall g :: g in m && g != pool[0] && g != pool[1] ==> k.words[g] == m[g])
    && src in m && src in k.words && k.words[src] == m[src] && CloneReady(k, src, pool[0])
  }

  lemma KernelIsDone(s: Sys, src: nat)
    requires Inv(s) && src in s.spaces && EnoughToClone(s, src)
    ensures KernelDone(s, CloneKernel(ForkStart(s).0, src, s.frames.pool[0]), src)
  {
    KernelWrites(s, src);
    KernelReady(s, src);
  }

  /** What a clone step leaves alone, seen from before it. */
  ghost predicate CloneSpares(s: Sys, s': Frames, src: nat)
    requires Inv(s) && src in s.spaces && |s.frames.pool| >= 2
  {
    var m := s.frames.words;
    var pool := s.frames.pool;
    && s'.words.Keys == m.Keys && (forall g :: g in m && g != pool[1] && |m[g]| == ENTRIES ==> |s'.words[g]| == ENTRIES)
    && |s'.pool| <= |pool| - 2 && s'.pool == pool[|pool| - |s'.pool|..]
    && s'.words[src] == m[src]
    && (forall g :: g in m && g !in pool && (forall d: nat :: !HasTable(m, src, d, g)) ==> s'.words[g] == m[g])
    && (forall g :: g in s'.pool ==> g in m && s'.words[g] == m[g])
  }

  /** The child's tables: taken from the pool, one for each entry. */
  ghost predicate CloneTables(s: Sys, s': Frames)
    requires |s.frames.pool| >= 2
  {
    var pool := s.frames.pool;
    var dst := s.frames.pool[0];
    && Pde(s'.words, dst, APIC_DIR).frame != 0
    && (forall d: nat, t: nat :: HasTable(s'.words, dst, d, t) ==>
          t in pool && t !in s'.pool && t != dst && t != pool[1])
    && (forall d: nat, d': nat, t: nat :: HasTable(s'.words, dst, d, t) && HasTable(s'.words, dst, d', t) ==> d == d')
  }

  /** What parent and child see: the parent's entry, made copy-on-write where its table
      was copied. */
  function ClonedEntry(m: Memory, src: nat, q: nat): Word {
    if Copied(Pde(m, src, DirOf(q))) then CowWord(Lookup(m, src, q)) else Lookup(m, src, q)
  }

  ghost predicate CloneView(s: Sys, s': Frames, src: nat)
    requires |s.frames.pool| >= 2
  {
    forall q: nat :: UserPage(q) ==>
      && Lookup(s'.words, src, q) == ClonedEntry(s.frames.words, src, q)
      && Lookup(s'.words, s.frames.pool[0], q) == ClonedEntry(s.frames.words, src, q)
  }

  lemma CloneSparesFrame(s: Sys, k: Frames, s': Frames, src: nat, g: nat)
    requires Inv(s) && src in s.spaces && KernelDone(s, k, src) && ClonedTo(k, s', src, s.frames.pool[0], USER_HI)
    requires g in s.frames.words && g != s.frames.pool[0] && g != s.frames.pool[1]
    requires g !in k.pool[..CopyCount(k.words, src, USER_HI)] && forall d: nat :: !HasTable(s.frames.words, src, d, g)
    ensures s'.words[g] == s.frames.words[g]
  {
    forall d | USER_LO <= d < USER_HI && Copied(Pde(k.words, src, d)) ensures Pde(k.words, src, d).frame != g {
      assert !HasTable(s.frames.words, src, d, g);
    }
  }

  lemma CloneSparesRest(s: Sys, k: Frames, s': Frames, src: nat)
    requires Inv(s) && src in s.spaces && KernelDone(s, k, src) && ClonedTo(k, s', src, s.frames.pool[0], USER_HI)
    ensures CloneSpares(s, s', src)
  {
    var m, pool, n := s.frames.words, s.frames.pool, CopyCount(k.words, src, USER_HI);
    SourceDirectoryKept(k, s', src, pool[0]);
    assert pool[0] in pool && pool[1] in pool;
    assert s'.pool == pool[2 + n..] && k.pool[..n] == pool[2..2 + n];
    forall g | g in m && g !in pool && (forall d: nat :: !HasTable(m, src, d, g)) ensures s'.words[g] == m[g] {
      CloneSparesFrame(s, k, s', src, g);
    }
    forall g | g in s'.pool ensures g in m && s'.words[g] == m[g] {
      var i :| 0 <= i < |s'.pool| && s'.pool[i] == g;
      assert g == pool[2 + n + i] && g in pool;
      CloneSparesFrame(s, k, s', src, g);
    }
  }

  // The clone when frames may run out or tables may lie far.

  /** The kernel part, with a frame for the APIC table or without. */
  lemma KernelSafe(s: Sys, src: nat)
    requires Inv(s) && src in s.spaces && s.frames.pool != []
    ensures var dst, k := s.frames.pool[0], CloneKernel(ForkStart(s).0, src, s.frames.pool[0]);
            && CloneSafe(k, src, dst) && Unwritten(k, src, dst) && k.words[src] == s.frames.words[src]
            && dst in k.words && |k.words[dst]| == ENTRIES && k.pool == PoolAfter(s.frames.pool, 2)
            && Pde(k.words, dst, APIC_DIR).frame == if |s.frames.pool| == 1 then 0 else s.frames.pool[1]
  {
    var m, pool := s.frames.words, s.frames.pool;
    var dst, k := pool[0], CloneKernel(ForkStart(s).0, src, pool[0]);
    assert pool[0] in pool && (|pool| > 1 ==> pool[1] in pool);
    assert forall f :: f in k.pool ==> f in pool && f != dst;
    assert forall g :: g in m && g != 0 && g !in pool ==> g in k.words && k.words[g] == m[g];
    forall d | USER_LO <= d < USER_HI && IsPresent(Pde(k.words, src, d))
      ensures var t := Pde(k.words, src, d).frame; t in k.words && t != src && Unwritten(k, dst, t)
    {
      assert HasTable(m, src, d, Pde(m, src, d).frame);
    }
  }

  /** The directories of parent and child after a clone. */
  lemma CloneDirectories(s: Sys, src: nat)
    requires Inv(s) && src in s.spaces && s.frames.pool != []
    ensures var k, m' := CloneKernel(ForkStart(s).0, src, s.frames.pool[0]), CloneSpace(s, src).frames.words;
            && src in m' && m'[src] == s.frames.words[src]
            && Pde(m', s.frames.pool[0], APIC_DIR) == Pde(k.words, s.frames.pool[0], APIC_DIR)
            && forall d: nat :: USER_LO <= d < USER_HI ==> Pde(m', s.frames.pool[0], d) == ChildEntry(k, src, d)
  {
    var dst, k := s.frames.pool[0], CloneKernel(ForkStart(s).0, src, s.frames.pool[0]);
    KernelSafe(s, src);
    DirsGoing(k, src, dst, USER_HI);
    DirsChild(k, src, dst, USER_HI);
  }

  /** A clone with frames for its directory and the APIC table shares the kernel. */
  lemma CloneSharesKernel(s: Sys, src: nat)
    requires Inv(s) && src in s.spaces && |s.frames.pool| >= 2
    ensures var dst, m' := s.frames.pool[0], CloneSpace(s, src).frames.words;
            && KernelEntries(ForkStart(s).0, m', src, dst) && src in m' && m'[src] == s.frames.words[src]
            && forall q: nat :: DirOf(q) == 0 || 768 <= DirOf(q) < 992 ==> Lookup(m', dst, q) == Lookup(m', src, q)
    ensures var apic, m' := Pde(s.frames.words, src, 1019).frame, CloneSpace(s, src).frames.words;
            apic in s.frames.words && apic != s.frames.pool[0] ==>
              s.frames.pool[1] in m' && m'[s.frames.pool[1]] == s.frames.words[apic]
  {
    var m, pool := s.frames.words, s.frames.pool;
    var dst, start := pool[0], ForkStart(s).0;
    var k, m' := CloneKernel(start, src, dst), CloneSpace(s, src).frames.words;
    assert dst in pool && pool[1] in pool && forall f :: f in start.pool ==> f in pool;
    KernelSafe(s, src);
    forall d | USER_LO <= d < USER_HI && IsPresent(Pde(k.words, src, d)) ensures Pde(k.words, src, d).frame != pool[1] {
      assert HasTable(m, src, d, Pde(m, src, d).frame);
    }
    KernelCloned(start, k, m', src, dst);
    forall q: nat | DirOf(q) == 0 || 768 <= DirOf(q) < 992 ensures Lookup(m', dst, q) == Lookup(m', src, q) {
      KernelPagesShared(start, m', src, dst, q);
    }
  }

  lemma {:induction false} FirstShort(m: Memory, src: nat, n: nat, d: nat) returns (e: nat)
    requires CopyCount(m, src, d) > n && d <= USER_HI
    ensures USER_LO <= e < USER_HI && Copied(Pde(m, src, e)) && CopyCount(m, src, e) >= n
    decreases d
  {
    if CopyCount(m, src, d - 1) > n { e := FirstShort(m, src, n, d - 1); } else { e := d - 1; }
  }

  /** Without frames enough, a directory or a table of the child is frame 0. */
  lemma ShortCloneBreaks(s: Sys, src: nat)
    requires Inv(s) && src in s.spaces && !EnoughToClone(s, src)
    ensures !TablesApart(CloneSpace(s, src).frames.words, CloneSpace(s, src).spaces)
  {
    var pool, s' := s.frames.pool, CloneSpace(s, src);
    assert NextFrame(pool) in s'.spaces;
    if pool != [] {
      var k := CloneKernel(ForkStart(s).0, src, pool[0]);
      KernelSafe(s, src);
      CloneDirectories(s, src);
      if |pool| > 1 {
        CopyCountSame(s.frames.words, k.words, src, USER_HI);
        var d := FirstShort(k.words, src, |k.pool|, USER_HI);
        assert HasTable(s'.frames.words, pool[0], d, 0);
      }
    }
  }

  /** A far table ends up in both directories. */
  lemma FarCloneBreaks(s: Sys, src: nat)
    requires Inv(s) && src in s.spaces && !NoFarTable(s.frames.words, src)
    ensures !TablesApart(CloneSpace(s, src).frames.words, CloneSpace(s, src).spaces)
  {
    var pool, s' := s.frames.pool, CloneSpace(s, src);
    assert NextFrame(pool) in s'.spaces;
    if pool != [] {
      KernelSafe(s, src);
      CloneDirectories(s, src);
      var d: nat :| USER_LO <= d < USER_HI && IsPresent(Pde(s.frames.words, src, d))
          && Pde(s.frames.words, src, d).frame > MAX_TABLE;
      var t := Pde(s.frames.words, src, d).frame;
      assert HasTable(s'.frames.words, src, d, t) && HasTable(s'.frames.words, pool[0], d, t);
    }
  }

  // The clone with frames enough.

  /** s' is the frames after a clone of src, and k those after its kernel part. */
  ghost predicate IsClone(s: Sys, k: Frames, s': Frames, src: nat) {
    && Inv(s) && src in s.spaces && KernelDone(s, k, src) && ClonedTo(k, s', src, s.frames.pool[0], USER_HI)
    && Pde(s'.words, s.frames.pool[0], APIC_DIR).frame == s.frames.pool[1]
  }

  lemma CloneSpaceIs(s: Sys, src: nat)
    requires Inv(s) && src in s.spaces && EnoughToClone(s, src)
    ensures IsClone(s, CloneKernel(ForkStart(s).0, src, s.frames.pool[0]), CloneSpace(s, src).frames, src)
    ensures CloneSpace(s, src).spaces == s.spaces + {s.frames.pool[0]}
  {
    var k := CloneKernel(ForkStart(s).0, src, s.frames.pool[0]);
    KernelIsDone(s, src);
    KernelSafe(s, src);
    CloneDirectories(s, src);
    ClonedStart(k, src, s.frames.pool[0]);
    DirsAreCloned(k, k, src, s.frames.pool[0], USER_LO);
  }

  lemma CloneTablesFromPool(s: Sys, k: Frames, s': Frames, src: nat)
    requires IsClone(s, k, s', src) && NoFarTable(s.frames.words, src)
    ensures CloneTables(s, s')
  {
    var m, pool := s.frames.words, s.frames.pool;
    var dst := pool[0];
    var n := CopyCount(k.words, src, USER_HI);
    assert s'.pool == k.pool[n..] && k.pool == pool[2..] && pool[1] in pool;
    forall d: nat, t: nat | HasTable(s'.words, dst, d, t)
      ensures Copied(Pde(k.words, src, d)) && CopyCount(k.words, src, d) < n
          && t == pool[2 + CopyCount(k.words, src, d)]
    {
      assert Pde(k.words, src, d) == Pde(m, src, d);
      CopyCountGrows(k.words, src, d, USER_HI);
    }
    forall d: nat, d': nat, t: nat | HasTable(s'.words, dst, d, t) && HasTable(s'.words, dst, d', t)
      ensures d == d'
    {
      if d < d' { CopyCountGrows(k.words, src, d, d'); }
      if d' < d { CopyCountGrows(k.words, src, d', d); }
    }
  }

  lemma CloneViews(s: Sys, k: Frames, s': Frames, src: nat)
    requires Inv(s) && src in s.spaces && KernelDone(s, k, src) && ClonedTo(k, s', src, s.frames.pool[0], USER_HI)
    ensures CloneView(s, s', src)
  {
    var m, pool := s.frames.words, s.frames.pool;
    var dst := pool[0];
    SpaceKept(m, k.words, src);
    forall q: nat | UserPage(q)
      ensures Lookup(s'.words, src, q) == ClonedEntry(m, src, q) == Lookup(s'.words, dst, q)
    {
      CloneFlat(k, s', src, dst, q);
      assert Pde(k.words, src, DirOf(q)) == Pde(m, src, DirOf(q));
    }
  }

  /** What one clone step means for the frames after it. */
  ghost predicate CloneDone(s: Sys, s': Frames, src: nat) {
    && Inv(s) && src in s.spaces && |s.frames.pool| >= 2
    && CloneSpares(s, s', src) && CloneView(s, s', src)
  }

  lemma CloneIsDone(s: Sys, src: nat)
    requires Inv(s) && src in s.spaces && EnoughToClone(s, src)
    ensures CloneDone(s, CloneSpace(s, src).frames, src)
    ensures NoFarTable(s.frames.words, src) ==> CloneTables(s, CloneSpace(s, src).frames)
  {
    var k, s' := CloneKernel(ForkStart(s).0, src, s.frames.pool[0]), CloneSpace(s, src).frames;
    CloneSpaceIs(s, src);
    CloneSparesRest(s, k, s', src);
    CloneViews(s, k, s', src);
    if NoFarTable(s.frames.words, src) { CloneTablesFromPool(s, k, s', src); }
  }

  lemma CloneOther(s: Sys, s': Frames, src: nat, p: nat)
    requires CloneDone(s, s', src) && p in s.spaces && p != src
    ensures SpaceOk(s'.words, p, USER_LO, USER_HI) && s'.words[p] == s.frames.words[p]
    ensures forall d: nat, t: nat :: HasTable(s'.words, p, d, t) <==> HasTable(s.frames.words, p, d, t)
    ensures forall q: nat :: UserPage(q) ==> Lookup(s'.words, p, q) == Lookup(s.frames.words, p, q)
  {
    var m := s.frames.words;
    assert forall d: nat :: !HasTable(m, src, d, p);
    forall d: nat, t: nat | HasTable(m, p, d, t) ensures t in s'.words && s'.words[t] == m[t] {
      assert IsPresent(m[p][d]);
      assert forall e: nat :: !HasTable(m, src, e, t);
    }
    SpaceKept(m, s'.words, p);
  }

  lemma CloneSource(s: Sys, s': Frames, src: nat)
    requires CloneDone(s, s', src)
    ensures SpaceOk(s'.words, src, USER_LO, USER_HI)
    ensures forall d: nat, t: nat :: HasTable(s'.words, src, d, t) <==> HasTable(s.frames.words, src, d, t)
  {
    var m := s.frames.words;
    assert s.frames.pool[1] in s.frames.pool;
    forall d: nat | USER_LO <= d < USER_HI && IsPresent(s'.words[src][d])
      ensures var t := s'.words[src][d].frame; t in s'.words && |s'.words[t]| == ENTRIES && t != src
    {
      assert HasTable(m, src, d, Pde(m, src, d).frame);
    }
  }

  lemma CloneChild(s: Sys, s': Frames, src: nat)
    requires CloneDone(s, s', src) && CloneTables(s, s')
    ensures SpaceOk(s'.words, s.frames.pool[0], USER_LO, USER_HI) && s.frames.pool[0] !in s.spaces
  {
    var dst := s.frames.pool[0];
    assert dst in s.frames.pool && s.frames.pool[1] in s.frames.pool;
    forall d | USER_LO <= d < USER_HI && IsPresent(s'.words[dst][d])
      ensures var t := s'.words[dst][d].frame; t in s'.words && |s'.words[t]| == ENTRIES && t != dst
    {
      assert HasTable(s'.words, dst, d, s'.words[dst][d].frame);
    }
    forall d: nat, d': nat | USER_LO <= d < d' < USER_HI && IsPresent(s'.words[dst][d]) && IsPresent(s'.words[dst][d'])
      ensures s'.words[dst][d].frame != s'.words[dst][d'].frame
    {
      assert HasTable(s'.words, dst, d, s'.words[dst][d].frame);
      assert !HasTable(s'.words, dst, d', s'.words[dst][d].frame);
    }
  }

  /** Every table after a clone was a table before, of the same space, or was free. */
  lemma CloneTableOrigin(s: Sys, s': Frames, src: nat, p: nat, d: nat, t: nat)
    requires CloneDone(s, s', src) && CloneTables(s, s')
    requires (p in s.spaces || p == s.frames.pool[0]) && HasTable(s'.words, p, d, t)
    ensures if p == s.frames.pool[0] then t in s.frames.pool && t != p else HasTable(s.frames.words, p, d, t)
    ensures t !in s'.pool && 0 < t && t !in s.spaces && t != s.frames.pool[0]
  {
    assert s.frames.pool[0] in s.frames.pool;
    assert forall f :: f in s'.pool ==> f in s.frames.pool;
    if p == src { CloneSource(s, s', src); } else if p in s.spaces { CloneOther(s, s', src, p); }
  }

  lemma CloneTablesApart(s: Sys, s': Frames, src: nat)
    requires CloneDone(s, s', src) && CloneTables(s, s')
    ensures TablesApart(s'.words, s.spaces + {s.frames.pool[0]})
  {
    var dst := s.frames.pool[0];
    var spaces := s.spaces + {dst};
    CloneSource(s, s', src);
    CloneChild(s, s', src);
    assert dst in s.frames.pool;
    forall p | p in spaces ensures SpaceOk(s'.words, p, USER_LO, USER_HI) && Pde(s'.words, p, APIC_DIR).frame != 0 {
      if p != src && p != dst { CloneOther(s, s', src, p); }
    }
    forall p: nat, d: nat, t: nat | p in spaces && HasTable(s'.words, p, d, t)
      ensures t !in spaces && 0 < t
      ensures if p == dst then t in s.frames.pool && t != p else HasTable(s.frames.words, p, d, t)
    {
      CloneTableOrigin(s, s', src, p, d, t);
    }
  }

  /** Every user page after a clone maps the frame it mapped before; of parent and child
      only what far tables map is still writable. */
  lemma ClonePageOrigin(s: Sys, s': Frames, src: nat, p: nat, q: nat, f: nat)
    requires CloneDone(s, s', src) && (p in s.spaces || p == s.frames.pool[0]) && MapsTo(s'.words, p, q, f)
    ensures MapsTo(s.frames.words, if p == s.frames.pool[0] then src else p, q, f)
    ensures p == s.frames.pool[0] || p == src ==>
      (IsWritable(Lookup(s'.words, p, q)) ==>
         IsWritable(Lookup(s.frames.words, src, q)) && !Copied(Pde(s.frames.words, src, DirOf(q))))
    ensures p != s.frames.pool[0] && p != src ==> Lookup(s'.words, p, q) == Lookup(s.frames.words, p, q)
  {
    assert s.frames.pool[0] in s.frames.pool;
    if p == src || p == s.frames.pool[0] {
      CowKeepsPresent(Lookup(s.frames.words, src, q));
    } else {
      CloneOther(s, s', src, p);
    }
  }

  lemma CowKeepsPresent(e: Word)
    ensures IsPresent(CowWord(e)) <==> IsPresent(e)
    ensures CowWord(e).frame == e.frame && !IsWritable(CowWord(e))
  {
  }

  /** What is left of the pool. */
  lemma ClonePool(s: Sys, s': Sys, src: nat)
    requires CloneDone(s, s'.frames, src)
    ensures forall f :: f in s'.frames.pool ==> f in s.frames.pool && f != s.frames.pool[0] && f != s.frames.pool[1]
  {
    var pool := s.frames.pool;
    assert pool[1] in pool;
    assert forall i :: 0 <= i < |s'.frames.pool| ==> s'.frames.pool[i] == pool[|pool| - |s'.frames.pool| + i];
  }

  lemma CloneIsolates(s: Sys, s': Frames, src: nat)
    requires CloneDone(s, s', src) && NoFarWritable(s.frames.words, src)
    ensures Isolated(s'.words, s.spaces + {s.frames.pool[0]})
  {
    var dst := s.frames.pool[0];
    assert dst in s.frames.pool;
    forall p: nat, q: nat, f: nat | (p in s.spaces || p == dst) && MapsTo(s'.words, p, q, f)
      ensures MapsTo(s.frames.words, if p == dst then src else p, q, f)
      ensures p == dst || p == src ==> !IsWritable(Lookup(s'.words, p, q))
      ensures p != dst && p != src ==> Lookup(s'.words, p, q) == Lookup(s.frames.words, p, q)
    {
      ClonePageOrigin(s, s', src, p, q, f);
    }
  }

  lemma CloneKeeps(s: Sys, s': Sys, src: nat)
    requires CloneDone(s, s'.frames, src) && CloneTables(s, s'.frames) && NoFarTable(s.frames.words, src)
    requires s'.spaces == s.spaces + {s.frames.pool[0]}
    ensures Inv(s')
  {
    var pool, dst := s.frames.pool, s.frames.pool[0];
    CloneTablesApart(s, s'.frames, src);
    assert pool[1] in pool;
    ClonePool(s, s', src);
    forall p: nat, d: nat, t: nat | p in s'.spaces && HasTable(s'.frames.words, p, d, t) ensures t !in s'.frames.pool {
      CloneTableOrigin(s, s'.frames, src, p, d, t);
    }
    forall p: nat, q: nat, f: nat | p in s'.spaces && MapsTo(s'.frames.words, p, q, f) ensures f !in s'.frames.pool {
      ClonePageOrigin(s, s'.frames, src, p, q, f);
    }
    CloneIsolates(s, s'.frames, src);
  }

  /** A clone keeps the invariant exactly when there is a frame for the directory, for
      the APIC table and for every user table to copy, and no user table of the parent
      lies where the copy is skipped. */
  lemma CloneKeepsIff(s: Sys, src: nat)
    requires Inv(s) && src in s.spaces
    ensures var s' := CloneSpace(s, src);
            var ok := EnoughToClone(s, src) && NoFarTable(s.frames.words, src);
            (Inv(s') <==> ok) && (TablesApart(s'.frames.words, s'.spaces) <==> ok)
  {
    if !EnoughToClone(s, src) {
      ShortCloneBreaks(s, src);
    } else if !NoFarTable(s.frames.words, src) {
      FarCloneBreaks(s, src);
    } else {
      CloneSpaceIs(s, src);
      CloneIsDone(s, src);
      CloneKeeps(s, CloneSpace(s, src), src);
    }
  }

  /** With frames enough, isolation itself survives the clone exactly when the parent has
      no writable page under a far table. */
  lemma CloneIsolatedIff(s: Sys, src: nat)
    requires Inv(s) && src in s.spaces && EnoughToClone(s, src)
    ensures var s' := CloneSpace(s, src);
            Isolated(s'.frames.words, s'.spaces) <==> NoFarWritable(s.frames.words, src)
  {
    var m, dst, s' := s.frames.words, s.frames.pool[0], CloneSpace(s, src);
    CloneSpaceIs(s, src);
    CloneIsDone(s, src);
    if NoFarWritable(m, src) {
      CloneIsolates(s, s'.frames, src);
    } else {
      var q: nat :| UserPage(q) && IsPresent(Lookup(m, src, q)) && IsWritable(Lookup(m, src, q))
          && !Copied(Pde(m, src, DirOf(q)));
      assert dst in s.frames.pool && ClonedEntry(m, src, q) == Lookup(m, src, q);
      assert MapsTo(s'.frames.words, src, q, Lookup(m, src, q).frame)
          && MapsTo(s'.frames.words, dst, q, Lookup(m, src, q).frame);
    }
  }

  // ------------------------------------------------------------------------------ runs

  /** A clone of a space, a fault at an absent page, and a write fault at a present
      one, whose flags may have been read from any directory. */
  datatype Op =
    | Clone(src: nat)
    | DemandFault(space: nat, page: nat, isWrite: bool)
    | WriteFault(space: nat, page: nat, flags: bv12)

  function DemandFlags(isWrite: bool): bv12 {
    if isWrite then USER | WRITE | PRESENT else USER | PRESENT
  }

  /** The flags of a private copy. */
  function CopyFlags(flags: bv12): bv12 {
    (flags & 0xDFF) | WRITE
  }

  predicate IsCowFault(flags: bv12) {
    flags & COW != 0 && flags & PRESENT != 0
  }

  // -------------------------------------------------------------- what a fault leaves behind

  /** The entry of a page after a handled fault. A page that was absent is writable exactly for
      a write and has no other flag; one that was copy-on-write is writable, no longer
      copy-on-write, and keeps its other flags. */
  predicate FaultEntry(e: Word, frame: nat, absent: bool, isWrite: bool, flags: bv12) {
    && e.frame == frame && IsPresent(e) && e.bits & USER != 0
    && if absent then (IsWritable(e) <==> isWrite) && e.bits & 0xFF8 == 0
       else IsWritable(e) && !IsCow(e) && e.bits & 0xDF8 == flags & 0xDF8
  }

  lemma FaultBits(frame: nat, isWrite: bool, flags: bv12)
    ensures FaultEntry(Word(frame, DemandFlags(isWrite) | USER | PRESENT), frame, true, isWrite, flags)
    ensures FaultEntry(Word(frame, CopyFlags(flags) | USER | PRESENT), frame, false, isWrite, flags)
  {
  }

  /** A space in order, with a frame for the page and one for its table if that is missing. */
  ghost predicate CanMapPage(s: Frames, p: nat, lo: nat, hi: nat, page: nat) {
    && SpaceAndPool(s, p, lo, hi) && page < PAGES && InRegion(page, lo, hi)
    && EnoughToMap(Sys(s, {}), p, page) && s.pool[0] < PAGES
  }

  /** The fault is handled: the page gets its entry, and no other page changes. */
  ghost predicate FaultMapped(s: Frames, m': Memory, p: nat, lo: nat, hi: nat, page: nat, absent: bool, isWrite: bool,
      flags: bv12)
    requires s.pool != []
  {
    && FaultEntry(Lookup(m', p, page), s.pool[0], absent, isWrite, flags)
    && forall q: nat :: q < PAGES && InRegion(q, lo, hi) && q != page ==> Lookup(m', p, q) == Lookup(s.words, p, q)
  }

  lemma MapFreshEntry(s: Sys, p: nat, lo: nat, hi: nat, page: nat, flags: bv12)
    requires CanMapPage(s.frames, p, lo, hi, page)
    ensures var m' := MapFresh(s, p, page, flags).frames.words;
            && Lookup(m', p, page) == Word(s.frames.pool[0], flags | USER | PRESENT)
            && forall q: nat :: q < PAGES && InRegion(q, lo, hi) && q != page ==>
                 Lookup(m', p, q) == Lookup(s.frames.words, p, q)
  {
    var f, rest := s.frames.pool[0], Frames(s.frames.words, s.frames.pool[1..]);
    assert forall g :: g in rest.pool ==> g in s.frames.pool;
    assert MapMany(rest, p, page, 0, Word(f, 0), flags) == rest && PageAt(page, 0) == page;
    assert MapWord(Word(f, 0), 0, flags) == Word(f, flags | USER | PRESENT);
    MapOneFlat(rest, p, lo, hi, page, Word(f, flags | USER | PRESENT));
  }

  lemma DemandMaps(s: Frames, m': Memory, p: nat, lo: nat, hi: nat, page: nat, isWrite: bool, flags: bv12)
    requires CanMapPage(s, p, lo, hi, page) && m' == MapFresh(Sys(s, {}), p, page, DemandFlags(isWrite)).frames.words
    ensures FaultMapped(s, m', p, lo, hi, page, true, isWrite, flags)
  {
    MapFreshEntry(Sys(s, {}), p, lo, hi, page, DemandFlags(isWrite));
    FaultBits(s.pool[0], isWrite, flags);
  }

  lemma CopyMaps(s: Frames, m': Memory, p: nat, lo: nat, hi: nat, page: nat, isWrite: bool, flags: bv12)
    requires CanMapPage(s, p, lo, hi, page) && m' == MapFresh(Sys(s, {}), p, page, CopyFlags(flags)).frames.words
    ensures FaultMapped(s, m', p, lo, hi, page, false, isWrite, flags)
  {
    MapFreshEntry(Sys(s, {}), p, lo, hi, page, CopyFlags(flags));
    FaultBits(s.pool[0], isWrite, flags);
  }

  /** Some space may take the step. */
  ghost predicate Enabled(s: Sys, op: Op) {
    match op
    case Clone(src) => src in s.spaces
    case DemandFault(p, page, _) => p in s.spaces && UserPage(page)
    case WriteFault(p, page, _) => p in s.spaces && UserPage(page)
  }

  /** One step. A fault whose own frame cannot be allocated changes nothing. */
  function Step(s: Sys, op: Op): Sys {
    match op
    case Clone(src) => CloneSpace(s, src)
    case DemandFault(p, page, isWrite) => Map(s, p, page, DemandFlags(isWrite))
    case WriteFault(p, page, flags) => if IsCowFault(flags) then Map(s, p, page, CopyFlags(flags)) else s
  }

  function Map(s: Sys, p: nat, page: nat, flags: bv12): Sys {
    if s.frames.pool == [] then s else MapFresh(s, p, page, flags)
  }

  /** Frames enough for every allocation of the step; a fault whose first allocation fails
      changes nothing. */
  predicate EnoughFrames(s: Sys, op: Op) {
    match op
    case Clone(src) => EnoughToClone(s, src)
    case DemandFault(p, page, _) => s.frames.pool == [] || EnoughToMap(s, p, page)
    case WriteFault(p, page, flags) => !IsCowFault(flags) || s.frames.pool == [] || EnoughToMap(s, p, page)
  }

  /** What a caller can check before the step: frames enough for it, and no far table of a
      space to be cloned. */
  ghost predicate Covered(s: Sys, op: Op) {
    EnoughFrames(s, op) && (op.Clone? ==> NoFarTable(s.frames.words, op.src))
  }

  ghost predicate IsRun(states: seq<Sys>, ops: seq<Op>) {
    |states| == |ops| + 1 &&
    forall i :: 0 <= i < |ops| ==> Enabled(states[i], ops[i]) && states[i + 1] == Step(states[i], ops[i])
  }

  /** Each step keeps the invariant exactly when it is covered. */
  lemma StepKeepsIff(s: Sys, op: Op)
    requires Inv(s) && Enabled(s, op)
    ensures Inv(Step(s, op)) <==> Covered(s, op)
  {
    match op
    case Clone(src) => CloneKeepsIff(s, src);
    case DemandFault(p, page, isWrite) =>
      if s.frames.pool != [] { MapFreshKeepsIff(s, p, page, DemandFlags(isWrite)); }
    case WriteFault(p, page, flags) =>
      if IsCowFault(flags) && s.frames.pool != [] { MapFreshKeepsIff(s, p, page, CopyFlags(flags)); }
  }

  lemma {:induction false} RunIsolated(states: seq<Sys>, ops: seq<Op>, n: nat)
    requires IsRun(states, ops) && Inv(states[0]) && n <= |ops|
    requires forall i :: 0 <= i < n ==> Covered(states[i], ops[i])
    ensures forall i :: 0 <= i <= n ==> Inv(states[i])
  {
    if n > 0 {
      RunIsolated(states, ops, n - 1);
      StepKeepsIff(states[n - 1], ops[n - 1]);
    }
  }

  /** The invariant, of which isolation is a part, holds in every state of a run exactly when
      every step of it is covered. */
  lemma RunIsolatedIff(states: seq<Sys>, ops: seq<Op>)
    requires IsRun(states, ops) && Inv(states[0])
    ensures (forall i :: 0 <= i < |states| ==> Inv(states[i])) <==>
        (forall i :: 0 <= i < |ops| ==> Covered(states[i], ops[i]))
  {
    if forall i :: 0 <= i < |ops| ==> Covered(states[i], ops[i]) {
      RunIsolated(states, ops, |ops|);
    } else {
      var i :| 0 <= i < |ops| && !Covered(states[i], ops[i]);
      if Inv(states[i]) {
        StepKeepsIff(states[i], ops[i]);
        assert !Inv(states[i + 1]);
      }
    }
  }

  /** One address space with no user table yet, and free frames elsewhere. */
  ghost predicate FirstSpace(s: Sys, p: nat) {
    var m, pool := s.frames.words, s.frames.pool;
    && s.spaces == {p} && 0 < p && p in m && |m[p]| == ENTRIES && m[p][APIC_DIR].frame != 0
    && (forall d :: USER_LO <= d < USER_HI ==> !IsPresent(m[p][d]))
    && NoRepeats(pool)
    && (forall f :: f in pool ==> f in m && |m[f]| == ENTRIES && f != p && 0 < f < PAGES)
  }

  lemma FirstSpaceInv(s: Sys, p: nat)
    requires FirstSpace(s, p)
    ensures Inv(s)
  {
    var m := s.frames.words;
    forall q: nat | UserPage(q) ensures !IsPresent(Lookup(m, p, q)) {
      assert !IsPresent(Pde(m, p, DirOf(q)));
    }
  }

  /** From one fresh address space on, no run of covered steps ever lets a writable frame be
      seen at a second user page. */
  lemma FromFirstSpace(states: seq<Sys>, ops: seq<Op>, p: nat, n: nat)
    requires IsRun(states, ops) && FirstSpace(states[0], p) && n <= |ops|
    requires forall i :: 0 <= i < n ==> Covered(states[i], ops[i])
    ensures Isolated(states[n].frames.words, states[n].spaces)
  {
    FirstSpaceInv(states[0], p);
    RunIsolated(states, ops, n);
  }

  // ----------------------------------------------------------- where the condition bites

  /** The mapping step when the table is missing: its frame is the second free one. */
  lemma MapFreshTable(s: Sys, p: nat, page: nat, flags: bv12)
    requires Inv(s) && p in s.spaces && UserPage(page) && |s.frames.pool| >= 2
    requires !IsPresent(Pde(s.frames.words, p, DirOf(page)))
    ensures var s', t := MapFresh(s, p, page, flags).frames, Word(s.frames.pool[1], PRESENT | WRITE | USER);
            p in s'.words && s'.words[p] == s.frames.words[p][DirOf(page) := t] && s'.pool == s.frames.pool[2..]
  {
    MapFreshIs(s, p, page, flags);
    var m, pool, d := s.frames.words, s.frames.pool, DirOf(page);
    assert pool[1] in pool && pool[1..][1..] == pool[2..];
    var m1 := AddTable(m, p, d, pool[1]);
    assert m1[p] == m[p][d := Word(pool[1], PRESENT | WRITE | USER)];
    assert EnsureTable(Frames(m, pool[1..]), p, d) == Frames(m1, pool[2..]);
    assert IsPresent(Word(pool[1], PRESENT | WRITE | USER));
  }

  lemma {:induction false} CopyCountLike(m: Memory, m': Memory, src: nat, d: nat)
    requires forall e: nat :: USER_LO <= e < d ==> (Copied(Pde(m', src, e)) <==> Copied(Pde(m, src, e)))
    ensures CopyCount(m', src, d) == CopyCount(m, src, d)
    decreases d
  {
    if d > USER_LO { CopyCountLike(m, m', src, d - 1); }
  }

  /** A write fault on a fresh page whose new table lands beyond 896 MB, then a clone: two
      spaces can write the same frame. */
  lemma FarTableLeaks(s: Sys, p: nat, page: nat)
    requires Inv(s) && p in s.spaces && UserPage(page) && !IsPresent(Pde(s.frames.words, p, DirOf(page)))
    requires |s.frames.pool| >= 4 + CopyCount(s.frames.words, p, USER_HI) && s.frames.pool[1] > MAX_TABLE
    ensures var s1 := Step(s, DemandFault(p, page, true));
            var s2 := Step(s1, Clone(p));
            Inv(s1) && p in s1.spaces && !Isolated(s2.frames.words, s2.spaces)
  {
    var m, flags := s.frames.words, DemandFlags(true);
    var s1 := MapFresh(s, p, page, flags);
    MapFreshKeeps(s, p, page, flags);
    MapFreshHere(s, p, page, flags);
    MapFreshTable(s, p, page, flags);
    assert !Copied(Pde(s1.frames.words, p, DirOf(page)));
    CopyCountLike(m, s1.frames.words, p, USER_HI);
    var e := Lookup(s1.frames.words, p, page);
    assert IsPresent(e) && IsWritable(e);
    CloneIsolatedIff(s1, p);
  }

  lemma {:induction false} NothingToCopy(m: Memory, p: nat, d: nat)
    requires forall e: nat :: USER_LO <= e < d ==> !IsPresent(Pde(m, p, e))
    ensures CopyCount(m, p, d) == 0
    decreases d
  {
    if d > USER_LO { NothingToCopy(m, p, d - 1); }
  }

  /** One fresh space, with the frame just above 896 MB second in the pool. */
  lemma FarStart() returns (s: Sys)
    ensures FirstSpace(s, 1) && |s.frames.pool| == 4 && s.frames.pool[1] == MAX_TABLE + 1
    ensures CopyCount(s.frames.words, 1, USER_HI) == 0
  {
    var far, z := MAX_TABLE + 1, Zeros();
    var dir := z[APIC_DIR := Word(5, PRESENT | WRITE)];
    s := Sys(Frames(map[1 := dir, 2 := z, 3 := z, 4 := z, 5 := z, far := z], [2, far, 3, 4]), {1});
    NothingToCopy(s.frames.words, 1, USER_HI);
  }

  lemma TwoSteps(s: Sys, a: Op, b: Op)
    requires Enabled(s, a) && Enabled(Step(s, a), b)
    ensures IsRun([s, Step(s, a), Step(Step(s, a), b)], [a, b])
  {
  }

  /** Such a run from one fresh space. */
  lemma FarTableRun() returns (states: seq<Sys>, ops: seq<Op>)
    ensures IsRun(states, ops) && |ops| == 2 && FirstSpace(states[0], 1)
    ensures !Isolated(states[2].frames.words, states[2].spaces)
  {
    var s := FarStart();
    var page := USER_LO * ENTRIES;
    FirstSpaceInv(s, 1);
    FarTableLeaks(s, 1, page);
    TwoSteps(s, DemandFault(1, page, true), Clone(1));
    ops := [DemandFault(1, page, true), Clone(1)];
    states := [s, Step(s, ops[0]), Step(Step(s, ops[0]), ops[1])];
  }

  /** Free frames and user tables lie within the directly mapped memory. */
  ghost predicate LowFrames(s: Sys) {
    && (forall f :: f in s.frames.pool ==> f <= MAX_TABLE)
    && forall p: nat, d: nat, t: nat :: p in s.spaces && HasTable(s.frames.words, p, d, t) ==> t <= MAX_TABLE
  }

  lemma LowIsNear(s: Sys, src: nat)
    requires LowFrames(s) && src in s.spaces
    ensures NoFarTable(s.frames.words, src)
  {
    forall d: nat | USER_LO <= d < USER_HI && IsPresent(Pde(s.frames.words, src, d))
      ensures Pde(s.frames.words, src, d).frame <= MAX_TABLE
    {
      assert HasTable(s.frames.words, src, d, Pde(s.frames.words, src, d).frame);
    }
  }

  lemma LowMap(s: Sys, p: nat, page: nat, flags: bv12)
    requires Inv(s) && LowFrames(s) && p in s.spaces && UserPage(page) && EnoughToMap(s, p, page)
    ensures LowFrames(MapFresh(s, p, page, flags))
  {
    var s', e := MapFresh(s, p, page, flags).frames, Word(s.frames.pool[0], flags | USER | PRESENT);
    MapFreshHere(s, p, page, flags);
    MappedTables(s, s', p, page, e);
    PoolParts(s, s');
  }

  lemma LowClone(s: Sys, src: nat)
    requires Inv(s) && LowFrames(s) && src in s.spaces && EnoughToClone(s, src)
    ensures LowFrames(CloneSpace(s, src))
  {
    var s' := CloneSpace(s, src);
    LowIsNear(s, src);
    CloneSpaceIs(s, src);
    CloneIsDone(s, src);
    ClonePool(s, s', src);
    forall p: nat, d: nat, t: nat | p in s'.spaces && HasTable(s'.frames.words, p, d, t) ensures t <= MAX_TABLE {
      CloneTableOrigin(s, s'.frames, src, p, d, t);
    }
  }

  lemma LowStep(s: Sys, op: Op)
    requires Inv(s) && LowFrames(s) && Enabled(s, op) && EnoughFrames(s, op)
    ensures Inv(Step(s, op)) && LowFrames(Step(s, op))
  {
    StepKeepsIff(s, op);
    match op
    case Clone(src) =>
      LowIsNear(s, src);
      LowClone(s, src);
    case DemandFault(p, page, isWrite) =>
      if s.frames.pool != [] { LowMap(s, p, page, DemandFlags(isWrite)); }
    case WriteFault(p, page, flags) =>
      if IsCowFault(flags) && s.frames.pool != [] { LowMap(s, p, page, CopyFlags(flags)); }
  }

  /** On a machine whose free frames all lie below 896 MB nothing but running out of frames
      in the middle of a step can end isolation. */
  lemma {:induction false} FromLowFrames(states: seq<Sys>, ops: seq<Op>, p: nat, n: nat)
    requires IsRun(states, ops) && FirstSpace(states[0], p) && n <= |ops|
    requires forall f :: f in states[0].frames.pool ==> f <= MAX_TABLE
    requires forall i :: 0 <= i < n ==> EnoughFrames(states[i], ops[i])
    ensures Inv(states[n]) && LowFrames(states[n])
  {
    if n == 0 {
      FirstSpaceInv(states[0], p);
    } else {
      FromLowFrames(states, ops, p, n - 1);
      LowStep(states[n - 1], ops[n - 1]);
    }
  }

  // -------------------------------------------------------- faults under a shared table

  /** The table of directory entry d serves both spaces. */
  ghost predicate SharedTable(m: Memory, p: nat, p': nat, d: nat) {
    && IsPresent(Pde(m, p, d)) && Pde(m, p', d).frame == Pde(m, p, d).frame && IsPresent(Pde(m, p', d))
    && var t := Pde(m, p, d).frame; t in m && |m[t]| == ENTRIES && t != p && t != p'
  }

  /** A clone shares a far table. */
  lemma FarTableShared(s: Sys, src: nat, d: nat)
    requires Inv(s) && src in s.spaces && EnoughToClone(s, src) && USER_LO <= d < USER_HI
    requires IsPresent(Pde(s.frames.words, src, d)) && Pde(s.frames.words, src, d).frame > MAX_TABLE
    ensures SharedTable(CloneSpace(s, src).frames.words, src, s.frames.pool[0], d)
  {
    var m, dst, t := s.frames.words, s.frames.pool[0], Pde(s.frames.words, src, d).frame;
    var k := CloneKernel(ForkStart(s).0, src, dst);
    assert HasTable(m, src, d, t) && dst in s.frames.pool;
    CloneDirectories(s, src);
    CloneSpaceIs(s, src);
    assert Pde(k.words, src, d) == Pde(m, src, d);
    FarTableKept(k, CloneSpace(s, src).frames, src, dst, d);
  }

  /** A fresh page under a shared table is mapped in both spaces. */
  lemma MapUnderShared(s: Sys, p: nat, p': nat, page: nat, flags: bv12)
    requires s.frames.pool != [] && UserPage(page) && SharedTable(s.frames.words, p, p', DirOf(page))
    ensures var m := MapFresh(s, p, page, flags).frames.words;
            Lookup(m, p, page) == Lookup(m, p', page) && Lookup(m, p, page).bits == flags | USER | PRESENT
  {
    var m, t := s.frames.words, Pde(s.frames.words, p, DirOf(page)).frame;
    var rest := Frames(m, RestOf(s.frames.pool));
    var e := MapWord(Word(NextFrame(s.frames.pool), 0), 0, flags);
    assert MapMany(rest, p, page, 0, Word(NextFrame(s.frames.pool), 0), flags) == rest && PageAt(page, 0) == page;
    var m' := SetEntry(m, t, page % ENTRIES, e);
    assert MapFresh(s, p, page, flags).frames.words == m';
    assert Pde(m', p, DirOf(page)) == Pde(m, p, DirOf(page)) && Pde(m', p', DirOf(page)) == Pde(m, p', DirOf(page));
  }

  /** Once a clone shares a far table, one copy-on-write fault at a page under it, with a free
      frame left, lets both spaces write one frame. */
  lemma FarTableFault(s: Sys, src: nat, page: nat, flags: bv12)
    requires Inv(s) && src in s.spaces && UserPage(page) && IsCowFault(flags)
    requires |s.frames.pool| > 2 + CopyCount(s.frames.words, src, USER_HI)
    requires IsPresent(Pde(s.frames.words, src, DirOf(page))) && Pde(s.frames.words, src, DirOf(page)).frame > MAX_TABLE
    ensures var s1 := Step(s, Clone(src));
            var s2 := Step(s1, WriteFault(src, page, flags));
            Enabled(s1, WriteFault(src, page, flags)) && !Isolated(s2.frames.words, s2.spaces)
  {
    var dst, s1 := s.frames.pool[0], CloneSpace(s, src);
    FarTableShared(s, src, DirOf(page));
    CloneSpaceIs(s, src);
    CloneLeaves(s, src);
    assert dst in s.frames.pool;
    MapUnderShared(s1, src, dst, page, CopyFlags(flags));
    var m := MapFresh(s1, src, page, CopyFlags(flags)).frames.words;
    var e := Lookup(m, src, page);
    CopyBits(flags);
    assert MapsTo(m, src, page, e.frame) && MapsTo(m, dst, page, e.frame);
  }

  lemma CopyBits(flags: bv12)
    ensures (CopyFlags(flags) | USER | PRESENT) & PRESENT != 0 && (CopyFlags(flags) | USER | PRESENT) & WRITE != 0
  {
  }

  /** What a clone leaves of the pool. */
  lemma CloneLeaves(s: Sys, src: nat)
    requires Inv(s) && src in s.spaces && EnoughToClone(s, src)
    ensures |CloneSpace(s, src).frames.pool| == |s.frames.pool| - 2 - CopyCount(s.frames.words, src, USER_HI)
  {
    var k := CloneKernel(ForkStart(s).0, src, s.frames.pool[0]);
    CloneSpaceIs(s, src);
    CopyCountSame(s.frames.words, k.words, src, USER_HI);
  }
}
