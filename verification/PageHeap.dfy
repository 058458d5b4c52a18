/** kmalloc and kfree over the page allocator they take their pages from. */
module PageHeap {
  import opened Bits
  import opened Sequences
  import opened Buddy
  import opened BuddyTiling
  import opened BuddyRuns
  import opened LeakyBuddy
  import S = Slab
  import K = Kmalloc

  /** What create_slab takes for its page when the page allocator has none: the mapping of
      physical address 0. */
  const LOW: nat := 0xC000_0000

  datatype System = System(h: K.Heap, pages: Pages)

  /** Each slab page and each large block is a live block of the page allocator, save a slab
      at LOW. */
  ghost predicate Backed(h: K.Heap, live: seq<Block>) {
    && (forall p :: p in h.owner && p != LOW ==> Block(p, 0) in live)
    && (forall a :: a in h.live && h.live[a].kind.Large? ==> Block(a, h.live[a].kind.order) in live)
  }

  /** A region on pages that starts above physical page 0 and ends below 4 GB. */
  predicate RegionOk(cfg: Config) {
    && cfg.Valid() && 0 < cfg.memoryStart && cfg.memoryStart % PAGE_SIZE == 0
    && cfg.memoryStart + Size(cfg.order) <= WORD
  }

  ghost predicate Inv(cfg: Config, sys: System) {
    RegionOk(cfg) && K.HeapOk(sys.h) && PagesInv(cfg, sys.pages) && Backed(sys.h, sys.pages.s.live)
  }

  // --------------------------------------------------------------------- fresh blocks

  lemma OutsideLow(cfg: Config, x: int)
    requires RegionOk(cfg) && Covers(cfg.Base(), cfg.order, x)
    ensures !Covers(LOW, 0, x)
  {
    var d := (x - cfg.Base()) % WORD;
    assert (x - LOW) % WORD == (cfg.memoryStart + d) % WORD;
  }

  lemma LiveOffLow(cfg: Config, p: Pages, i: nat, x: int)
    requires RegionOk(cfg) && PagesInv(cfg, p) && i < |p.s.live|
    requires Covers(p.s.live[i].addr, p.s.live[i].order, x)
    ensures !Covers(LOW, 0, x)
  {
    LiveWithin(cfg, p, i, x);
    OutsideLow(cfg, x);
  }

  lemma LowRange(cfg: Config, p: Pages, i: nat)
    requires RegionOk(cfg) && PagesInv(cfg, p) && i < |p.s.live|
    ensures BlocksApart(p.s.live[i], Block(LOW, 0)) && BlocksApart(Block(LOW, 0), p.s.live[i])
  {
    var b := p.s.live[i];
    forall x: nat ensures !(Covers(b.addr, b.order, x) && Covers(LOW, 0, x)) {
      if Covers(b.addr, b.order, x) { LiveOffLow(cfg, p, i, x); }
    }
    RangesApart(b, Block(LOW, 0));
  }

  /** Where a block is apart from the whole heap. */
  ghost predicate ApartFrom(h: K.Heap, b: Block) {
    && (forall p :: p in h.owner ==> BlocksApart(b, Block(p, 0)))
    && (forall a :: a in h.live && h.live[a].kind.Large? ==> BlocksApart(b, Block(a, h.live[a].kind.order)))
  }

  lemma FreshIffNotNull(h: K.Heap, b: Block)
    requires b.addr % PAGE_SIZE == 0 && ApartFrom(h, b)
    ensures K.FreshBlock(h, b.addr, Pow2(b.order) * S.PAGE_SIZE) <==> b.addr != 0
  {
    forall p | p in h.owner ensures K.Apart(b.addr, Pow2(b.order) * S.PAGE_SIZE, p, S.PAGE_SIZE) {
      assert BlocksApart(b, Block(p, 0)) && Size(0) == S.PAGE_SIZE;
    }
    forall a | a in h.live && h.live[a].kind.Large?
      ensures K.Apart(b.addr, Pow2(b.order) * S.PAGE_SIZE, a, Pow2(h.live[a].kind.order) * S.PAGE_SIZE)
    {
      assert BlocksApart(b, Block(a, h.live[a].kind.order));
    }
  }

  /** A live block that is none of the heap's is apart from all of them. */
  lemma NewIsApart(cfg: Config, p: Pages, h: K.Heap, live: seq<Block>, b: Block)
    requires RegionOk(cfg) && PagesInv(cfg, p) && Backed(h, live) && p.s.live == live + [b]
    ensures ApartFrom(h, b)
  {
    var last := |live|;
    forall c | c in live ensures BlocksApart(b, c) {
      var i :| 0 <= i < |live| && live[i] == c;
      LiveRanges(cfg, p, last, i);
    }
    LowRange(cfg, p, last);
  }

  lemma LowIsApart(cfg: Config, p: Pages, h: K.Heap)
    requires RegionOk(cfg) && PagesInv(cfg, p) && Backed(h, p.s.live) && LOW !in h.owner
    ensures ApartFrom(h, Block(LOW, 0))
  {
    forall c | c in p.s.live ensures BlocksApart(Block(LOW, 0), c) {
      var i :| 0 <= i < |p.s.live| && p.s.live[i] == c;
      LowRange(cfg, p, i);
    }
  }

  // ----------------------------------------------------------------------- operations

  /** The requests of users of the heap, and what others do with pages. `refused` stands for
      a refusal of the zone. */
  datatype Op =
    | MallocSmall(size: nat, refused: bool)
    | MallocLarge(size: nat, order: nat, refused: bool)
    | Kfree(a: nat)
    | Others(op: PageOp)

  predicate Refused(pages: Pages, order: nat, refused: bool) {
    refused || Allocate(pages.s.lists, order).None?
  }

  /** The block of the next allocation. */
  function NextBlock(pages: Pages, order: nat): Block
    requires Allocate(pages.s.lists, order).Some?
  {
    Block(Allocate(pages.s.lists, order).value.1, order)
  }

  /** An aligned block handed out by the allocator, seen from the heap. */
  lemma TakeIsFresh(cfg: Config, sys: System, order: nat)
    requires Inv(cfg, sys) && Allocate(sys.pages.s.lists, order).Some?
    ensures var b, p := NextBlock(sys.pages, order), PageStep(cfg, sys.pages, Take(order));
            && PagesInv(cfg, p) && p.s.live == sys.pages.s.live + [b]
            && (K.FreshBlock(sys.h, b.addr, Pow2(order) * S.PAGE_SIZE) <==> b.addr != 0)
  {
    var b, p := NextBlock(sys.pages, order), PageStep(cfg, sys.pages, Take(order));
    PageStepKeeps(cfg, sys.pages, Take(order));
    assert p.s.live == sys.pages.s.live + [b];
    assert p.s.live[|sys.pages.s.live|] == b;
    NewIsApart(cfg, p, sys.h, sys.pages.s.live, b);
    FreshIffNotNull(sys.h, b);
  }

  // --------------------------------------------------------------------------- kmalloc

  lemma CanTakeNew(c: S.Cache, page: nat)
    requires 0 < c.size && S.Capacity(c.size) > 0 && S.NeedsPage(c)
    ensures S.CanTake(S.Supplied(c, page))
  {
  }

  lemma SmallDefined(h: K.Heap, size: nat, page: nat)
    requires K.HeapOk(h) && 0 < size <= K.LARGEST
    ensures var c := h.caches[K.ClassOf(size)]; 0 < c.size && S.CanTake(S.Supplied(c, page))
  {
    var c := h.caches[K.ClassOf(size)];
    assert S.Sound(c, K.LiveIn(h.live, K.ClassOf(size)));
    if S.NeedsPage(c) { CanTakeNew(c, page); } else { K.SmallReady(h, size, page); }
  }

  /** kmalloc of a small size. create_slab tests the mapped address of its page, so a page
      that was refused passes for one at LOW, and one mapped to 0 is given up. */
  ghost function SmallStep(cfg: Config, sys: System, size: nat, refused: bool): System
    requires Inv(cfg, sys) && 0 < size <= K.LARGEST
  {
    var h, pages := sys.h, sys.pages;
    if !S.NeedsPage(h.caches[K.ClassOf(size)]) then SmallDefined(h, size, 0); sys.(h := K.MallocSmall(h, size, 0))
    else if Refused(pages, 0, refused) then SmallDefined(h, size, LOW); sys.(h := K.MallocSmall(h, size, LOW))
    else
      var page, p := NextBlock(pages, 0).addr, PageStep(cfg, pages, Take(0));
      SmallDefined(h, size, page);
      if page == 0 then sys.(pages := p) else System(K.MallocSmall(h, size, page), p)
  }

  /** kmalloc of whole pages. */
  function LargeStep(cfg: Config, sys: System, size: nat, order: nat, refused: bool): System
    requires StateOk(sys.pages.s)
  {
    if Refused(sys.pages, order, refused) then sys
    else
      var block, p := NextBlock(sys.pages, order).addr, PageStep(cfg, sys.pages, Take(order));
      if block == 0 then sys.(pages := p) else System(K.MallocLarge(sys.h, size, order, block), p)
  }

  lemma MoreBacked(h: K.Heap, h': K.Heap, live: seq<Block>, live': seq<Block>)
    requires Backed(h, live) && forall b :: b in live ==> b in live'
    requires forall p :: p in h'.owner && p != LOW ==> p in h.owner || Block(p, 0) in live'
    requires forall a :: a in h'.live && h'.live[a].kind.Large? ==>
               (a in h.live && h'.live[a] == h.live[a]) || Block(a, h'.live[a].kind.order) in live'
    ensures Backed(h', live')
  {
  }

  /** A page that is free for the heap, whether or not it belongs to the page allocator. */
  lemma SmallKeeps(cfg: Config, sys: System, size: nat, page: nat, p: Pages)
    requires Inv(cfg, sys) && K.CanMallocSmall(sys.h, size, page) && PagesInv(cfg, p)
    requires forall b :: b in sys.pages.s.live ==> b in p.s.live
    requires S.NeedsPage(sys.h.caches[K.ClassOf(size)]) ==> page == LOW || Block(page, 0) in p.s.live
    ensures S.CanTake(S.Supplied(sys.h.caches[K.ClassOf(size)], page))
    ensures Inv(cfg, System(K.MallocSmall(sys.h, size, page), p))
  {
    var h := sys.h;
    K.MallocSmallKeeps(h, size, page);
    K.SmallReady(h, size, page);
    MoreBacked(h, K.MallocSmall(h, size, page), sys.pages.s.live, p.s.live);
  }

  /** With a page from the page allocator for a new slab. */
  lemma PageStepSmall(cfg: Config, sys: System, size: nat, refused: bool)
    requires Inv(cfg, sys) && 0 < size <= K.LARGEST
    requires S.NeedsPage(sys.h.caches[K.ClassOf(size)]) && !Refused(sys.pages, 0, refused)
    ensures Inv(cfg, SmallStep(cfg, sys, size, refused))
  {
    var h, pages := sys.h, sys.pages;
    var b, p := NextBlock(pages, 0), PageStep(cfg, pages, Take(0));
    TakeIsFresh(cfg, sys, 0);
    if b.addr == 0 {
      MoreBacked(h, h, pages.s.live, p.s.live);
    } else {
      SmallKeeps(cfg, sys, size, b.addr, p);
    }
  }

  lemma SmallStepKeeps(cfg: Config, sys: System, size: nat, refused: bool)
    requires Inv(cfg, sys) && 0 < size <= K.LARGEST
    requires S.NeedsPage(sys.h.caches[K.ClassOf(size)]) && Refused(sys.pages, 0, refused) ==> LOW !in sys.h.owner
    ensures Inv(cfg, SmallStep(cfg, sys, size, refused))
  {
    var h, pages := sys.h, sys.pages;
    if !S.NeedsPage(h.caches[K.ClassOf(size)]) {
      SmallKeeps(cfg, sys, size, 0, pages);
    } else if Refused(pages, 0, refused) {
      LowIsApart(cfg, pages, h);
      FreshIffNotNull(h, Block(LOW, 0));
      SmallKeeps(cfg, sys, size, LOW, pages);
    } else {
      PageStepSmall(cfg, sys, size, refused);
    }
  }

  lemma LargeStepKeeps(cfg: Config, sys: System, size: nat, order: nat, refused: bool)
    requires Inv(cfg, sys) && K.LARGEST < size < WORD && K.IsOrder(size, order)
    ensures Inv(cfg, LargeStep(cfg, sys, size, order, refused))
  {
    if !Refused(sys.pages, order, refused) {
      var b, p := NextBlock(sys.pages, order), PageStep(cfg, sys.pages, Take(order));
      TakeIsFresh(cfg, sys, order);
      if b.addr == 0 {
        MoreBacked(sys.h, sys.h, sys.pages.s.live, p.s.live);
      } else {
        K.MallocLargeKeeps(sys.h, size, order, b.addr);
        MoreBacked(sys.h, K.MallocLarge(sys.h, size, order, b.addr), sys.pages.s.live, p.s.live);
      }
    }
  }

  lemma SingleFree(c: S.Cache, page: nat, live: set<nat>)
    requires S.Sound(c, live) && S.Capacity(c.size) == 1 && page in c.slabs
    ensures 0 <= c.slabs[page].free <= 1
  {
    var list, slots := c.slabs[page].list, S.Slots(page, c.size);
    assert S.SlabOk(page, c.size, c.slabs[page], live);
    S.ElementCount(list);
    S.ElementCount(slots);
    SubsetSize(S.Elements(list), S.Elements(slots));
  }

  /** A second slab in a page of the same cache that already is one hands out an object
      that is live. */
  lemma SlabTwice(c: S.Cache, page: nat, live: set<nat>)
    requires S.Sound(c, live) && S.NeedsPage(c) && page in c.slabs
    ensures S.CanTake(S.Supplied(c, page)) && S.Handed(S.Supplied(c, page)) in live
  {
    CanTakeNew(c, page);
    assert S.SlabOk(page, c.size, c.slabs[page], live);
    assert c.slabs[page].free == 0 by {
      if S.Capacity(c.size) >= 2 { assert S.Linked(c, page) == 1; } else { SingleFree(c, page, live); }
    }
    assert S.Supplied(c, page).slabs[page] == S.NewSlab(page, c.size) && S.Chosen(S.Supplied(c, page)) == page;
    assert S.Slots(page, c.size)[0] in S.Slots(page, c.size);
  }

  /** A second slab in a page that already is one: an object that is live is handed out
      again, or the page is in two caches. */
  lemma SecondSlabBreaks(h: K.Heap, size: nat, page: nat)
    requires K.HeapOk(h) && 0 < size <= K.LARGEST && S.NeedsPage(h.caches[K.ClassOf(size)]) && page in h.owner
    ensures var c := h.caches[K.ClassOf(size)];
            && 0 < c.size && S.CanTake(S.Supplied(c, page))
            && if h.owner[page] == K.ClassOf(size) then S.Handed(S.Supplied(c, page)) in h.live
               else !K.HeapOk(K.MallocSmall(h, size, page))
  {
    var k := K.ClassOf(size);
    SmallDefined(h, size, page);
    if h.owner[page] == k {
      SlabTwice(h.caches[k], page, K.LiveIn(h.live, k));
    } else {
      var h' := K.MallocSmall(h, size, page);
      assert page in h'.caches[h.owner[page]].slabs && h'.owner[page] == k;
    }
  }

  // ----------------------------------------------------------------------------- kfree

  lemma InRemoveAt(live: seq<Block>, i: nat, b: Block)
    requires i < |live| && b in live && b != live[i]
    ensures b in RemoveAt(live, i)
  {
    var j :| 0 <= j < |live| && live[j] == b;
    assert RemoveAt(live, i)[if j < i then j else j - 1] == b;
  }

  lemma FreeDefined(h: K.Heap, a: nat)
    requires K.HeapOk(h) && a in h.live
    ensures a % PAGE_SIZE != 0 ==>
      && S.PageOf(a) in h.owner && h.owner[S.PageOf(a)] < |h.caches|
      && S.PageOf(a) in h.caches[h.owner[S.PageOf(a)]].slabs
    ensures a % PAGE_SIZE == 0 <==> h.live[a].kind.Large?
    ensures K.HeapOk(K.Kfree(h, a))
  {
    K.Dispatch(h, a);
    match h.live[a].kind
    case Small(k) => K.KfreeSmallKeeps(h, a, k);
    case Large(_) => K.KfreeLargeKeeps(h, a);
  }

  /** kfree: a large block goes back to the page allocator as one page. */
  ghost function FreeStep(cfg: Config, sys: System, a: nat): System
    requires Inv(cfg, sys) && a in sys.h.live
  {
    FreeDefined(sys.h, a);
    var h := K.Kfree(sys.h, a);
    if a % PAGE_SIZE != 0 then sys.(h := h)
    else
      var i := IndexOf(sys.pages.s.live, Block(a, sys.h.live[a].kind.order));
      System(h, PageStep(cfg, sys.pages, GiveFirst(i)))
  }

  /** What kfree of a large result does to the pages: one comes free and the others of the
      block are lost; a block beyond the region's end is not taken back at all. */
  lemma KfreeLosesPages(cfg: Config, sys: System, a: nat)
    requires Inv(cfg, sys) && a in sys.h.live && a % PAGE_SIZE == 0
    ensures sys.h.live[a].kind.Large?
    ensures var p, p', n := sys.pages, FreeStep(cfg, sys, a).pages, Pow2(sys.h.live[a].kind.order);
            if cfg.Accepts(VirtToPhys(a)) then
              && SumFree(p'.s.lists, PageCount()) == SumFree(p.s.lists, PageCount()) + 1
              && Sum(p'.leaked, PageCount()) == Sum(p.leaked, PageCount()) + n - 1
              && Sum(p'.s.live, PageCount()) + n == Sum(p.s.live, PageCount())
            else p' == p
  {
    FreeDefined(sys.h, a);
    K.Dispatch(sys.h, a);
    var p, order := sys.pages, sys.h.live[a].kind.order;
    var i := IndexOf(p.s.live, Block(a, order));
    if cfg.Accepts(VirtToPhys(a)) {
      PageCountAdditive();
      assert p.s.live[i] == Block(a, order);
      ReleaseConserves(p.s.lists, a, 0, PageCount());
      SumRemoveAt(p.s.live, i, PageCount());
      RestSum(a, order, PageCount());
      SumConcat(p.leaked, Rest(a, order), PageCount());
    }
  }

  /** Block b is none of the heap's. */
  ghost predicate NotOurs(h: K.Heap, b: Block) {
    && (forall p :: p in h.owner ==> b != Block(p, 0))
    && (forall a :: a in h.live && h.live[a].kind.Large? ==> b != Block(a, h.live[a].kind.order))
  }

  lemma LessBacked(h: K.Heap, live: seq<Block>, i: nat)
    requires i < |live| && Backed(h, live) && NotOurs(h, live[i])
    ensures Backed(h, RemoveAt(live, i))
  {
    forall b | b in live && b != live[i] ensures b in RemoveAt(live, i) {
      InRemoveAt(live, i, b);
    }
  }

  /** What is freed is no longer the heap's. */
  lemma FreedIsNotOurs(h: K.Heap, a: nat, order: nat)
    requires K.HeapOk(h) && a in h.live && h.live[a].kind == K.Large(order)
    ensures a % S.PAGE_SIZE == 0 && NotOurs(K.Kfree(h, a), Block(a, order))
  {
    K.Dispatch(h, a);
    forall p | p in h.owner ensures p != a {
      assert K.Apart(a, K.Extent(h.live[a]), p, S.PAGE_SIZE);
    }
  }

  lemma FreeBacked(h: K.Heap, live: seq<Block>, a: nat, order: nat, i: nat)
    requires K.HeapOk(h) && a in h.live && h.live[a].kind == K.Large(order) && Backed(h, live)
    requires i < |live| && live[i] == Block(a, order)
    ensures a % S.PAGE_SIZE == 0 && Backed(K.Kfree(h, a), live) && Backed(K.Kfree(h, a), RemoveAt(live, i))
  {
    FreedIsNotOurs(h, a, order);
    MoreBacked(h, K.Kfree(h, a), live, live);
    LessBacked(K.Kfree(h, a), live, i);
  }

  lemma FreeStepBacked(cfg: Config, sys: System, a: nat, h: K.Heap, p: Pages)
    requires Inv(cfg, sys) && a in sys.h.live && FreeStep(cfg, sys, a) == System(h, p)
    ensures Backed(h, p.s.live)
  {
    var live := sys.pages.s.live;
    FreeDefined(sys.h, a);
    if a % PAGE_SIZE == 0 {
      var order := sys.h.live[a].kind.order;
      var i := IndexOf(live, Block(a, order));
      FreeBacked(sys.h, live, a, order, i);
      GivenLive(cfg, sys.pages, i, p);
    } else {
      MoreBacked(sys.h, h, live, live);
    }
  }

  lemma GivenLive(cfg: Config, pages: Pages, i: nat, p: Pages)
    requires StateOk(pages.s) && i < |pages.s.live| && p == PageStep(cfg, pages, GiveFirst(i))
    ensures p.s.live == pages.s.live || p.s.live == RemoveAt(pages.s.live, i)
  {
  }

  lemma FreeStepKeeps(cfg: Config, sys: System, a: nat)
    requires Inv(cfg, sys) && a in sys.h.live
    ensures Inv(cfg, FreeStep(cfg, sys, a))
  {
    var next := FreeStep(cfg, sys, a);
    FreeDefined(sys.h, a);
    FreeStepBacked(cfg, sys, a, next.h, next.pages);
    if a % PAGE_SIZE == 0 {
      PageStepKeeps(cfg, sys.pages, GiveFirst(IndexOf(sys.pages.s.live, Block(a, sys.h.live[a].kind.order))));
    }
  }

  // ------------------------------------------------------------------------------ runs

  /** What callers must see to: sizes in range, frees of live results, any of them, and no
      giving back of blocks that belong to the heap. */
  ghost predicate Enabled(sys: System, op: Op)
    requires K.HeapOk(sys.h)
  {
    match op
    case MallocSmall(size, _) => 0 < size <= K.LARGEST
    case MallocLarge(size, order, _) => K.LARGEST < size < WORD && K.IsOrder(size, order)
    case Kfree(a) => a in sys.h.live
    case Others(Take(_)) => true
    case Others(Give(i)) => i < |sys.pages.s.live| ==> NotOurs(sys.h, sys.pages.s.live[i])
    case Others(GiveFirst(i)) => i < |sys.pages.s.live| ==> NotOurs(sys.h, sys.pages.s.live[i])
  }

  /** No slab page is refused while a slab lies at LOW already. */
  predicate Covered(sys: System, op: Op)
    requires |sys.h.caches| == |K.SIZES|
  {
    match op
    case MallocSmall(size, refused) =>
      size <= K.LARGEST && S.NeedsPage(sys.h.caches[K.ClassOf(size)]) && Refused(sys.pages, 0, refused) ==>
        LOW !in sys.h.owner
    case _ => true
  }

  lemma OthersKeeps(cfg: Config, sys: System, op: PageOp)
    requires Inv(cfg, sys) && Enabled(sys, Others(op))
    ensures Inv(cfg, sys.(pages := PageStep(cfg, sys.pages, op)))
  {
    var live, p := sys.pages.s.live, PageStep(cfg, sys.pages, op);
    PageStepKeeps(cfg, sys.pages, op);
    if op.Take? || p.s.live == live {
      MoreBacked(sys.h, sys.h, live, p.s.live);
    } else {
      LessBacked(sys.h, live, op.i);
    }
  }

  ghost function Step(cfg: Config, sys: System, op: Op): System
    requires Inv(cfg, sys) && Enabled(sys, op)
  {
    match op
    case MallocSmall(size, refused) => SmallStep(cfg, sys, size, refused)
    case MallocLarge(size, order, refused) => LargeStep(cfg, sys, size, order, refused)
    case Kfree(a) => FreeStep(cfg, sys, a)
    case Others(op) => sys.(pages := PageStep(cfg, sys.pages, op))
  }

  /** What kmalloc returns: 0, or where the object or block is. */
  ghost function Result(sys: System, op: Op): nat
    requires K.HeapOk(sys.h) && Enabled(sys, op)
  {
    match op
    case MallocSmall(size, refused) =>
      var c := sys.h.caches[K.ClassOf(size)];
      var page := if !S.NeedsPage(c) then 1 else if Refused(sys.pages, 0, refused) then LOW
                  else NextBlock(sys.pages, 0).addr;
      SmallDefined(sys.h, size, page);
      if page == 0 then 0 else S.Handed(S.Supplied(c, page))
    case MallocLarge(size, order, refused) =>
      if Refused(sys.pages, order, refused) then 0 else NextBlock(sys.pages, order).addr
    case _ => 0
  }

  /** The step keeps heap and page allocator in order and returns nothing that was live. */
  ghost predicate GoodStep(cfg: Config, sys: System, op: Op)
    requires Inv(cfg, sys) && Enabled(sys, op)
  {
    Inv(cfg, Step(cfg, sys, op)) && (Result(sys, op) != 0 ==> Result(sys, op) !in sys.h.live)
  }

  lemma SmallResult(cfg: Config, sys: System, size: nat, refused: bool)
    requires Inv(cfg, sys) && 0 < size <= K.LARGEST && Covered(sys, MallocSmall(size, refused))
    ensures var r := Result(sys, MallocSmall(size, refused)); r != 0 ==> r !in sys.h.live
  {
    var h, pages := sys.h, sys.pages;
    if !S.NeedsPage(h.caches[K.ClassOf(size)]) {
      K.SmallReady(h, size, 1);
    } else if Refused(pages, 0, refused) {
      LowIsApart(cfg, pages, h);
      FreshIffNotNull(h, Block(LOW, 0));
      K.SmallReady(h, size, LOW);
    } else if NextBlock(pages, 0).addr != 0 {
      TakeIsFresh(cfg, sys, 0);
      K.SmallReady(h, size, NextBlock(pages, 0).addr);
    }
  }

  lemma LargeResult(cfg: Config, sys: System, size: nat, order: nat, refused: bool)
    requires Inv(cfg, sys) && K.LARGEST < size < WORD && K.IsOrder(size, order)
    ensures var r := Result(sys, MallocLarge(size, order, refused)); r != 0 ==> r !in sys.h.live
  {
    if !Refused(sys.pages, order, refused) && NextBlock(sys.pages, order).addr != 0 {
      TakeIsFresh(cfg, sys, order);
      K.MallocLargeKeeps(sys.h, size, order, NextBlock(sys.pages, order).addr);
    }
  }

  lemma UncoveredBreaks(cfg: Config, sys: System, size: nat, refused: bool)
    requires Inv(cfg, sys) && 0 < size <= K.LARGEST && !Covered(sys, MallocSmall(size, refused))
    ensures !GoodStep(cfg, sys, MallocSmall(size, refused))
  {
    SecondSlabBreaks(sys.h, size, LOW);
    var c := sys.h.caches[K.ClassOf(size)];
    assert sys.h.owner[LOW] == K.ClassOf(size) ==> S.Handed(S.Supplied(c, LOW)) != 0 by {
      if sys.h.owner[LOW] == K.ClassOf(size) { K.Dispatch(sys.h, S.Handed(S.Supplied(c, LOW))); }
    }
  }

  /** Each step, kfree of any live result among them, is good exactly when no slab page is
      refused while a slab lies at LOW already. */
  lemma StepKeepsIff(cfg: Config, sys: System, op: Op)
    requires Inv(cfg, sys) && Enabled(sys, op)
    ensures GoodStep(cfg, sys, op) <==> Covered(sys, op)
  {
    match op
    case MallocSmall(size, refused) =>
      if Covered(sys, op) {
        SmallStepKeeps(cfg, sys, size, refused);
        SmallResult(cfg, sys, size, refused);
      } else {
        UncoveredBreaks(cfg, sys, size, refused);
      }
    case MallocLarge(size, order, refused) =>
      LargeStepKeeps(cfg, sys, size, order, refused);
      LargeResult(cfg, sys, size, order, refused);
    case Kfree(a) => FreeStepKeeps(cfg, sys, a);
    case Others(o) => OthersKeeps(cfg, sys, o);
  }

  ghost predicate IsRun(cfg: Config, sys: System, ops: seq<Op>)
    requires Inv(cfg, sys)
    decreases |ops|
  {
    ops == [] ||
    (Enabled(sys, ops[0]) && Covered(sys, ops[0]) &&
     (StepKeepsIff(cfg, sys, ops[0]); IsRun(cfg, Step(cfg, sys, ops[0]), ops[1..])))
  }

  ghost function Run(cfg: Config, sys: System, ops: seq<Op>): (sys': System)
    requires Inv(cfg, sys) && IsRun(cfg, sys, ops)
    ensures Inv(cfg, sys')
    decreases |ops|
  {
    if ops == [] then sys else StepKeepsIff(cfg, sys, ops[0]); Run(cfg, Step(cfg, sys, ops[0]), ops[1..])
  }

  function Begin(cfg: Config): System
    requires cfg.Valid()
  {
    System(K.Empty(), Pages(Start(cfg), []))
  }

  lemma BeginInv(cfg: Config)
    requires RegionOk(cfg)
    ensures Inv(cfg, Begin(cfg))
  {
    K.EmptyOk();
    StartInv(cfg);
  }

  // ------------------------------------------------------------------------ no overlap

  /** Byte x is one of the len bytes from a on, wrapping at 2^32. */
  predicate HasByte(a: nat, len: nat, x: int) {
    (x - a) % WORD < len
  }

  /** The page or block that a live result is in. */
  function Home(h: K.Heap, a: nat): Block
    requires a in h.live
  {
    match h.live[a].kind
    case Small(_) => Block(S.PageOf(a), 0)
    case Large(order) => Block(a, order)
  }

  lemma WithinPage(p: nat, a: nat, len: nat, x: int)
    requires p <= a && a + len <= p + PAGE_SIZE && HasByte(a, len, x)
    ensures (x - p) % WORD == (x - a) % WORD + (a - p) < PAGE_SIZE
  {
  }

  lemma CoveredByPage(p: nat, a: nat, len: nat, x: int)
    requires p <= a && a + len <= p + PAGE_SIZE && HasByte(a, len, x)
    ensures Covers(p, 0, x)
  {
    WithinPage(p, a, len, x);
  }

  lemma CoveredByBlock(a: nat, order: nat, x: int)
    requires HasByte(a, Pow2(order) * PAGE_SIZE, x)
    ensures Covers(a, order, x)
  {
  }

  lemma SmallInPage(h: K.Heap, a: nat)
    requires K.HeapOk(h) && a in h.live && h.live[a].kind.Small?
    ensures S.PageOf(a) <= a && a + K.Extent(h.live[a]) <= S.PageOf(a) + PAGE_SIZE
  {
    K.Dispatch(h, a);
  }

  lemma AtHome(h: K.Heap, a: nat, x: int)
    requires K.HeapOk(h) && a in h.live && HasByte(a, K.Extent(h.live[a]), x)
    ensures Covers(Home(h, a).addr, Home(h, a).order, x)
  {
    match h.live[a].kind
    case Small(_) =>
      SmallInPage(h, a);
      CoveredByPage(S.PageOf(a), a, K.Extent(h.live[a]), x);
    case Large(order) =>
      CoveredByBlock(a, order, x);
  }

  /** Every home is a live block of the page allocator, or the page at LOW. */
  lemma HomeBacked(h: K.Heap, live: seq<Block>, a: nat)
    requires K.HeapOk(h) && Backed(h, live) && a in h.live
    ensures Home(h, a) in live || Home(h, a) == Block(LOW, 0)
  {
    K.Dispatch(h, a);
  }

  lemma BlocksDisjoint(cfg: Config, p: Pages, b: Block, c: Block, x: int)
    requires RegionOk(cfg) && PagesInv(cfg, p) && b != c
    requires b in p.s.live && (c in p.s.live || c == Block(LOW, 0))
    ensures !(Covers(b.addr, b.order, x) && Covers(c.addr, c.order, x))
  {
    var i := IndexOf(p.s.live, b);
    if Covers(b.addr, b.order, x) {
      if c in p.s.live { LiveApart(cfg, p, i, IndexOf(p.s.live, c), x); } else { LiveOffLow(cfg, p, i, x); }
    }
  }

  lemma HomesDiffer(h: K.Heap, a: nat, b: nat)
    requires K.HeapOk(h) && a in h.live && b in h.live && h.live[a].kind.Small? && h.live[b].kind.Large?
    ensures S.PageOf(a) != b
  {
    K.Dispatch(h, a);
    assert K.Apart(b, K.Extent(h.live[b]), S.PageOf(a), S.PAGE_SIZE);
  }

  lemma PartsOfPage(p: nat, a: nat, la: nat, b: nat, lb: nat, x: int)
    requires p <= a && a + la <= p + PAGE_SIZE && p <= b && b + lb <= p + PAGE_SIZE && K.Apart(a, la, b, lb)
    ensures !(HasByte(a, la, x) && HasByte(b, lb, x))
  {
    if HasByte(a, la, x) && HasByte(b, lb, x) {
      WithinPage(p, a, la, x);
      WithinPage(p, b, lb, x);
    }
  }

  /** Two results with the same home are small objects of one slab. */
  lemma SameHome(h: K.Heap, a: nat, b: nat, x: int)
    requires K.HeapOk(h) && a in h.live && b in h.live && a != b && Home(h, a) == Home(h, b)
    ensures !(HasByte(a, K.Extent(h.live[a]), x) && HasByte(b, K.Extent(h.live[b]), x))
  {
    if h.live[a].kind.Small? && h.live[b].kind.Large? { HomesDiffer(h, a, b); }
    if h.live[a].kind.Large? && h.live[b].kind.Small? { HomesDiffer(h, b, a); }
    if h.live[a].kind.Small? && h.live[b].kind.Small? {
      SmallInPage(h, a);
      SmallInPage(h, b);
      K.SmallApart(h, a, b);
      PartsOfPage(S.PageOf(a), a, K.Extent(h.live[a]), b, K.Extent(h.live[b]), x);
    }
  }

  /** No byte of the 32-bit address space belongs to two live results. */
  lemma NoSharedByte(cfg: Config, sys: System, a: nat, b: nat, x: int)
    requires Inv(cfg, sys) && a in sys.h.live && b in sys.h.live && a != b
    ensures !(HasByte(a, K.Extent(sys.h.live[a]), x) && HasByte(b, K.Extent(sys.h.live[b]), x))
  {
    var h, live := sys.h, sys.pages.s.live;
    if Home(h, a) == Home(h, b) {
      SameHome(h, a, b, x);
    } else if HasByte(a, K.Extent(h.live[a]), x) && HasByte(b, K.Extent(h.live[b]), x) {
      AtHome(h, a, x);
      AtHome(h, b, x);
      HomeBacked(h, live, a);
      HomeBacked(h, live, b);
      if Home(h, a) in live {
        BlocksDisjoint(cfg, sys.pages, Home(h, a), Home(h, b), x);
      } else {
        BlocksDisjoint(cfg, sys.pages, Home(h, b), Home(h, a), x);
      }
    }
  }

  /** In every state of every run of the heap over its page allocator, whatever is freed and
      whatever others do with their own pages, live results share no byte. */
  lemma RunsNeverOverlap(cfg: Config, ops: seq<Op>, a: nat, b: nat, x: int)
    requires RegionOk(cfg)
    ensures Inv(cfg, Begin(cfg))
    ensures IsRun(cfg, Begin(cfg), ops) ==>
      var live := Run(cfg, Begin(cfg), ops).h.live;
      a in live && b in live && a != b ==> !(HasByte(a, K.Extent(live[a]), x) && HasByte(b, K.Extent(live[b]), x))
  {
    BeginInv(cfg);
    if IsRun(cfg, Begin(cfg), ops) {
      var sys := Run(cfg, Begin(cfg), ops);
      if a in sys.h.live && b in sys.h.live && a != b { NoSharedByte(cfg, sys, a, b, x); }
    }
  }
}
