/** kmalloc and kfree over the nine general caches and whole pages. */
module Kmalloc {
  import opened Bits
  import opened Slab

  const SIZES: seq<nat> := [8, 16, 32, 64, 128, 256, 512, 1024, 2048]
  const LARGEST: nat := 2048

  datatype Kind = Small(k: nat) | Large(order: nat)

  /** A result not yet freed: the size asked for and where it came from. */
  datatype Live = Live(size: nat, kind: Kind)

  /** `owner` is the cache recorded in the header of each slab page. */
  datatype Heap = Heap(caches: seq<Cache>, owner: map<nat, nat>, live: map<nat, Live>)

  // -------------------------------------------------------------------- size classes

  function ClassOf(size: nat): (k: nat)
    requires size <= LARGEST
    ensures k < |SIZES| && size <= SIZES[k] && forall j :: 0 <= j < k ==> SIZES[j] < size
  {
    if size <= 8 then 0 else if size <= 16 then 1 else if size <= 32 then 2
    else if size <= 64 then 3 else if size <= 128 then 4 else if size <= 256 then 5
    else if size <= 512 then 6 else if size <= 1024 then 7 else 8
  }

  /** get_general_cache: the first class that is large enough, if any. */
  method GetGeneralCache(size: nat) returns (k: int)
    ensures k == if size <= LARGEST then ClassOf(size) else -1
  {
    k := 0;
    while k < |SIZES|
      invariant 0 <= k <= |SIZES| && forall j :: 0 <= j < k ==> SIZES[j] < size
    {
      if size <= SIZES[k] { return; }
      k := k + 1;
    }
    return -1;
  }

  /** The page count of a large request, in 32-bit arithmetic. */
  function LargePages(size: nat): nat {
    (size + PAGE_SIZE - 1) % WORD / PAGE_SIZE
  }

  predicate IsOrder(size: nat, order: nat) {
    LargePages(size) <= Pow2(order) && forall j: nat :: j < order ==> Pow2(j) < LargePages(size)
  }

  method LargeOrder(size: nat) returns (order: nat)
    requires size < WORD
    ensures IsOrder(size, order) && order <= 20
  {
    order := 0;
    Pow2Values();
    while Pow2(order) < LargePages(size)
      invariant order <= 20 && forall j: nat :: j < order ==> Pow2(j) < LargePages(size)
      decreases 20 - order
    {
      order := order + 1;
    }
  }

  /** A large block covers the request unless the rounding wrapped around. */
  lemma LargeCovers(size: nat, order: nat)
    requires LARGEST < size < WORD && IsOrder(size, order)
    ensures size <= Pow2(order) * PAGE_SIZE <==> size <= WORD - PAGE_SIZE
  {
    if size <= WORD - PAGE_SIZE {
      assert size <= LargePages(size) * PAGE_SIZE;
    } else {
      assert LargePages(size) == 0;
    }
  }

  /** And it is no larger than that needs: half of it would not do. */
  lemma LargeTight(size: nat, order: nat)
    requires LARGEST < size <= WORD - PAGE_SIZE && IsOrder(size, order)
    ensures order > 0 ==> Pow2(order - 1) * PAGE_SIZE < size
  {
    if order > 0 {
      var half := Pow2(order - 1);
      assert half < LargePages(size) && (LargePages(size) - 1) * PAGE_SIZE < size;
    }
  }

  // ---------------------------------------------------------------------- operations

  function LiveIn(live: map<nat, Live>, k: nat): set<nat> {
    set a | a in live && live[a].kind == Small(k)
  }

  predicate Apart(a: nat, la: nat, b: nat, lb: nat) {
    a + la <= b || b + lb <= a
  }

  /** A block of the page allocator: page aligned, not at address 0, and away from
      every page and block in use. */
  predicate FreshBlock(h: Heap, a: nat, len: nat) {
    && a % PAGE_SIZE == 0 && 0 < a
    && (forall p :: p in h.owner ==> Apart(a, len, p, PAGE_SIZE))
    && (forall b :: b in h.live && h.live[b].kind.Large? ==> Apart(a, len, b, Pow2(h.live[b].kind.order) * PAGE_SIZE))
  }

  /** kmalloc of 1 to 2048 bytes; `page` is what the page allocator would give. */
  function MallocSmall(h: Heap, size: nat, page: nat): Heap
    requires size <= LARGEST && |h.caches| == |SIZES|
    requires var c := h.caches[ClassOf(size)]; 0 < c.size && CanTake(Supplied(c, page))
  {
    var k := ClassOf(size);
    var c := Supplied(h.caches[k], page);
    Heap(
      h.caches[k := Take(c)],
      if NeedsPage(h.caches[k]) then h.owner[page := k] else h.owner,
      h.live[Handed(c) := Live(size, Small(k))])
  }

  function MallocLarge(h: Heap, size: nat, order: nat, block: nat): Heap {
    h.(live := h.live[block := Live(size, Large(order))])
  }

  /** kfree: an address inside a page belongs to the cache of its slab, an aligned one
      to the page allocator. */
  function Kfree(h: Heap, a: nat): Heap
    requires a % PAGE_SIZE != 0 ==>
      PageOf(a) in h.owner && h.owner[PageOf(a)] < |h.caches| && PageOf(a) in h.caches[h.owner[PageOf(a)]].slabs
  {
    var live := h.live - {a};
    if a % PAGE_SIZE != 0 then
      var k := h.owner[PageOf(a)];
      h.(caches := h.caches[k := Free(h.caches[k], a)], live := live)
    else h.(live := live)
  }

  // ----------------------------------------------------------------------- invariant

  ghost predicate CachesOk(caches: seq<Cache>, live: map<nat, Live>) {
    && |caches| == |SIZES|
    && forall k :: 0 <= k < |SIZES| ==> caches[k].size == SIZES[k] && Sound(caches[k], LiveIn(live, k))
  }

  /** The header of a slab page names the one cache that has it. */
  ghost predicate OwnersOk(caches: seq<Cache>, owner: map<nat, nat>) {
    && (forall p :: p in owner ==> owner[p] < |caches| && p in caches[owner[p]].slabs)
    && (forall p, k :: 0 <= k < |caches| && p in caches[k].slabs ==> p in owner && owner[p] == k)
  }

  predicate LiveOk(h: Heap) {
    forall a :: a in h.live ==>
      match h.live[a].kind
      case Small(k) => k < |SIZES| && h.live[a].size <= SIZES[k]
      case Large(order) => LARGEST < h.live[a].size < WORD && IsOrder(h.live[a].size, order)
  }

  predicate BlocksApart(h: Heap) {
    && (forall a :: a in h.live && h.live[a].kind.Large? ==>
          a % PAGE_SIZE == 0 && forall p :: p in h.owner ==> Apart(a, Extent(h.live[a]), p, PAGE_SIZE))
    && (forall a, b :: a in h.live && b in h.live && a != b && h.live[a].kind.Large? && h.live[b].kind.Large? ==>
          Apart(a, Extent(h.live[a]), b, Extent(h.live[b])))
  }

  ghost predicate HeapOk(h: Heap) {
    CachesOk(h.caches, h.live) && OwnersOk(h.caches, h.owner) && LiveOk(h) && BlocksApart(h)
  }

  /** The bytes that a live result has. */
  function Extent(l: Live): nat {
    match l.kind
    case Small(k) => if k < |SIZES| then SIZES[k] else 0
    case Large(order) => Pow2(order) * PAGE_SIZE
  }

  // ------------------------------------------------------------------------ dispatch

  /** A small result is a slot of a slab page whose header names its cache. */
  predicate IsSlotOf(h: Heap, a: nat, k: nat) {
    && k < |SIZES| == |h.caches| && a % PAGE_SIZE != 0
    && PageOf(a) in h.owner && h.owner[PageOf(a)] == k
    && PageOf(a) in h.caches[k].slabs && a in Slots(PageOf(a), SIZES[k])
    && PageOf(a) + SLAB_HEADER <= a && a + SIZES[k] <= PageOf(a) + PAGE_SIZE
  }

  lemma OwnerOf(caches: seq<Cache>, owner: map<nat, nat>, p: nat, k: nat)
    requires OwnersOk(caches, owner) && k < |caches| && p in caches[k].slabs
    ensures p in owner && owner[p] == k
  {
  }

  lemma SmallDispatch(h: Heap, a: nat, k: nat)
    requires CachesOk(h.caches, h.live) && OwnersOk(h.caches, h.owner) && k < |SIZES| && a in LiveIn(h.live, k)
    ensures IsSlotOf(h, a, k)
  {
    var c, live := h.caches[k], LiveIn(h.live, k);
    assert SlabsOk(c, live) && c.size == SIZES[k];
    LiveSlot(c, live, a);
    OwnerOf(h.caches, h.owner, PageOf(a), k);
  }

  /** kfree looks at the alignment of a pointer; that always leads back to the
      allocator it came from, and masking a small one gives the slab it is a slot of. */
  lemma Dispatch(h: Heap, a: nat)
    requires HeapOk(h) && a in h.live
    ensures h.live[a].kind.Large? <==> a % PAGE_SIZE == 0
    ensures h.live[a].kind.Small? ==> IsSlotOf(h, a, h.live[a].kind.k)
  {
    if h.live[a].kind.Small? {
      SmallDispatch(h, a, h.live[a].kind.k);
    }
  }

  /** Two slots that are not the same do not overlap. */
  lemma SlotsDisjoint(p: nat, size: nat, a: nat, b: nat)
    requires 0 < size && a in Slots(p, size) && b in Slots(p, size) && a != b
    ensures Apart(a, size, b, size)
  {
    var i :| 0 <= i < Capacity(size) && Slots(p, size)[i] == a;
    var j :| 0 <= j < Capacity(size) && Slots(p, size)[j] == b;
    if i < j { SlotsApart(p, size, i, j); } else { SlotsApart(p, size, j, i); }
  }

  lemma PagesApart(p: nat, q: nat)
    requires p % PAGE_SIZE == 0 && q % PAGE_SIZE == 0 && p != q
    ensures Apart(p, PAGE_SIZE, q, PAGE_SIZE)
  {
  }

  lemma SlotsOfApart(h: Heap, a: nat, j: nat, b: nat, k: nat)
    requires IsSlotOf(h, a, j) && IsSlotOf(h, b, k) && a != b
    ensures Apart(a, SIZES[j], b, SIZES[k])
  {
    if PageOf(a) == PageOf(b) {
      SlotsDisjoint(PageOf(a), SIZES[j], a, b);
    } else {
      PagesApart(PageOf(a), PageOf(b));
    }
  }

  lemma SmallApart(h: Heap, a: nat, b: nat)
    requires HeapOk(h) && a in h.live && b in h.live && a != b
    requires h.live[a].kind.Small? && h.live[b].kind.Small?
    ensures Apart(a, Extent(h.live[a]), b, Extent(h.live[b]))
  {
    Dispatch(h, a);
    Dispatch(h, b);
    SlotsOfApart(h, a, h.live[a].kind.k, b, h.live[b].kind.k);
  }

  lemma SmallLargeApart(h: Heap, a: nat, b: nat)
    requires HeapOk(h) && a in h.live && b in h.live
    requires h.live[a].kind.Small? && h.live[b].kind.Large?
    ensures Apart(a, Extent(h.live[a]), b, Extent(h.live[b]))
  {
    Dispatch(h, a);
    assert Apart(b, Extent(h.live[b]), PageOf(a), PAGE_SIZE);
  }

  /** Live results never overlap, and each is as long as was asked for, save large
      requests within a page of 2^32. */
  lemma NoOverlap(h: Heap)
    requires HeapOk(h)
    ensures forall a, b | a in h.live && b in h.live && a != b :: Apart(a, Extent(h.live[a]), b, Extent(h.live[b]))
    ensures forall a | a in h.live :: h.live[a].size <= Extent(h.live[a]) <==> h.live[a].size <= WORD - PAGE_SIZE
  {
    forall a, b | a in h.live && b in h.live && a != b
      ensures Apart(a, Extent(h.live[a]), b, Extent(h.live[b]))
    {
      if h.live[a].kind.Small? && h.live[b].kind.Small? {
        SmallApart(h, a, b);
      } else if h.live[a].kind.Small? {
        SmallLargeApart(h, a, b);
      } else if h.live[b].kind.Small? {
        SmallLargeApart(h, b, a);
      }
    }
    forall a | a in h.live ensures h.live[a].size <= Extent(h.live[a]) <==> h.live[a].size <= WORD - PAGE_SIZE {
      if h.live[a].kind.Large? {
        LargeCovers(h.live[a].size, h.live[a].kind.order);
      }
    }
  }

  // -------------------------------------------------------------------- preservation

  lemma FreshPage(h: Heap, page: nat)
    requires HeapOk(h) && FreshBlock(h, page, PAGE_SIZE)
    ensures page !in h.owner && forall k :: 0 <= k < |SIZES| ==> page !in h.caches[k].slabs
  {
    assert !Apart(page, PAGE_SIZE, page, PAGE_SIZE);
  }

  /** What kmalloc of a small size needs: a fresh page if no slab has room. */
  predicate CanMallocSmall(h: Heap, size: nat, page: nat)
    requires |h.caches| == |SIZES|
  {
    0 < size <= LARGEST && (NeedsPage(h.caches[ClassOf(size)]) ==> FreshBlock(h, page, PAGE_SIZE))
  }

  lemma SmallReady(h: Heap, size: nat, page: nat)
    requires HeapOk(h) && CanMallocSmall(h, size, page)
    ensures
      var k := ClassOf(size);
      var c := Supplied(h.caches[k], page);
      && CanTake(c) && c.size == SIZES[k] && Sound(c, LiveIn(h.live, k))
      && Handed(c) !in h.live && Handed(c) % PAGE_SIZE != 0
      && Sound(Take(c), LiveIn(h.live, k) + {Handed(c)})
  {
    var k := ClassOf(size);
    if NeedsPage(h.caches[k]) { FreshPage(h, page); }
    SuppliedSound(h.caches[k], page, LiveIn(h.live, k));
    var c := Supplied(h.caches[k], page);
    TakeSound(c, LiveIn(h.live, k));
    SlotUnaligned(Chosen(c), c.size, Handed(c));
    if Handed(c) in h.live {
      Dispatch(h, Handed(c));
      assert false;
    }
  }

  lemma LiveInAfter(live: map<nat, Live>, a: nat, l: Live)
    requires a !in live
    ensures forall j: nat ::
      LiveIn(live[a := l], j) == if l.kind == Small(j) then LiveIn(live, j) + {a} else LiveIn(live, j)
  {
  }

  lemma LiveInWithout(live: map<nat, Live>, a: nat)
    requires a in live
    ensures forall j: nat ::
      LiveIn(live - {a}, j) == if live[a].kind == Small(j) then LiveIn(live, j) - {a} else LiveIn(live, j)
  {
  }

  /** The pages of a cache after kmalloc took a page for it, or not. */
  predicate Grown(h: Heap, k: nat, c': Cache, owner': map<nat, nat>, page: nat)
    requires k < |h.caches|
  {
    || (c'.slabs.Keys == h.caches[k].slabs.Keys && owner' == h.owner)
    || (c'.slabs.Keys == h.caches[k].slabs.Keys + {page} && owner' == h.owner[page := k] && page !in h.owner)
  }

  /** Replacing cache k by one that is in order for the new live set. */
  lemma ReplaceCache(caches: seq<Cache>, live: map<nat, Live>, k: nat, c': Cache, live': map<nat, Live>)
    requires CachesOk(caches, live) && k < |SIZES| && c'.size == SIZES[k] && Sound(c', LiveIn(live', k))
    requires forall j: nat :: j != k ==> LiveIn(live', j) == LiveIn(live, j)
    ensures CachesOk(caches[k := c'], live')
  {
  }

  lemma ReplaceOwner(h: Heap, k: nat, c': Cache, owner': map<nat, nat>, page: nat)
    requires k < |h.caches| && OwnersOk(h.caches, h.owner) && Grown(h, k, c', owner', page)
    ensures OwnersOk(h.caches[k := c'], owner')
  {
    assert forall p :: p in c'.slabs <==> p in c'.slabs.Keys;
    assert forall p :: p in h.caches[k].slabs <==> p in h.caches[k].slabs.Keys;
  }

  lemma MallocSmallCaches(h: Heap, size: nat, page: nat)
    requires HeapOk(h) && CanMallocSmall(h, size, page)
    requires CanTake(Supplied(h.caches[ClassOf(size)], page))
    ensures CachesOk(MallocSmall(h, size, page).caches, MallocSmall(h, size, page).live)
  {
    var k, c := ClassOf(size), Supplied(h.caches[ClassOf(size)], page);
    SmallReady(h, size, page);
    WithOneMore(h, Handed(c), Live(size, Small(k)), k, Take(c));
  }

  lemma MallocSmallOwners(h: Heap, size: nat, page: nat)
    requires HeapOk(h) && CanMallocSmall(h, size, page)
    requires CanTake(Supplied(h.caches[ClassOf(size)], page))
    ensures OwnersOk(MallocSmall(h, size, page).caches, MallocSmall(h, size, page).owner)
  {
    var k, h' := ClassOf(size), MallocSmall(h, size, page);
    if NeedsPage(h.caches[k]) { FreshPage(h, page); }
    ReplaceOwner(h, k, Take(Supplied(h.caches[k], page)), h'.owner, page);
  }

  lemma MallocSmallKeeps(h: Heap, size: nat, page: nat)
    requires HeapOk(h) && CanMallocSmall(h, size, page)
    ensures CanTake(Supplied(h.caches[ClassOf(size)], page)) && HeapOk(MallocSmall(h, size, page))
  {
    SmallReady(h, size, page);
    MallocSmallCaches(h, size, page);
    MallocSmallOwners(h, size, page);
    MallocSmallRest(h, size, page);
  }

  lemma MallocSmallRest(h: Heap, size: nat, page: nat)
    requires LiveOk(h) && BlocksApart(h) && |h.caches| == |SIZES| && CanMallocSmall(h, size, page)
    requires var c := h.caches[ClassOf(size)]; 0 < c.size && CanTake(Supplied(c, page))
    ensures LiveOk(MallocSmall(h, size, page)) && BlocksApart(MallocSmall(h, size, page))
  {
    SmallBlocks(h, MallocSmall(h, size, page), page);
  }

  /** Small results do not touch what is said of large blocks. */
  lemma SmallBlocks(h: Heap, h': Heap, page: nat)
    requires BlocksApart(h) && forall p :: p in h'.owner ==>
        p in h.owner || (p == page && FreshBlock(h, page, PAGE_SIZE))
    requires forall a :: a in h'.live && h'.live[a].kind.Large? ==> a in h.live && h'.live[a] == h.live[a]
    ensures BlocksApart(h')
  {
  }

  predicate CanMallocLarge(h: Heap, size: nat, order: nat, block: nat) {
    LARGEST < size < WORD && IsOrder(size, order) && FreshBlock(h, block, Pow2(order) * PAGE_SIZE)
  }

  /** Only the sets of small live results matter to the caches. */
  lemma SameCaches(caches: seq<Cache>, live: map<nat, Live>, live': map<nat, Live>)
    requires CachesOk(caches, live) && forall j: nat :: LiveIn(live', j) == LiveIn(live, j)
    ensures CachesOk(caches, live')
  {
  }

  lemma LargeBlocks(h: Heap, size: nat, order: nat, block: nat)
    requires BlocksApart(h) && block !in h.live && FreshBlock(h, block, Pow2(order) * PAGE_SIZE)
    ensures BlocksApart(MallocLarge(h, size, order, block))
  {
  }

  lemma MallocLargeKeeps(h: Heap, size: nat, order: nat, block: nat)
    requires HeapOk(h) && CanMallocLarge(h, size, order, block)
    ensures block !in h.live && HeapOk(MallocLarge(h, size, order, block))
  {
    if block in h.live {
      Dispatch(h, block);
      assert false;
    }
    LiveInAfter(h.live, block, Live(size, Large(order)));
    SameCaches(h.caches, h.live, h.live[block := Live(size, Large(order))]);
    LargeBlocks(h, size, order, block);
  }

  lemma KfreeReady(h: Heap, a: nat, k: nat)
    requires HeapOk(h) && a in h.live && h.live[a].kind == Small(k)
    ensures a % PAGE_SIZE != 0 && PageOf(a) in h.owner && h.owner[PageOf(a)] == k < |h.caches|
    ensures PageOf(a) in h.caches[k].slabs && Sound(Free(h.caches[k], a), LiveIn(h.live, k) - {a})
  {
    Dispatch(h, a);
    assert a in LiveIn(h.live, k);
    FreeSound(h.caches[k], LiveIn(h.live, k), a);
  }

  /** A cache in order for one live object less. */
  lemma WithoutOne(h: Heap, a: nat, k: nat, c': Cache)
    requires CachesOk(h.caches, h.live) && k < |SIZES| && a in h.live && h.live[a].kind == Small(k)
    requires c'.size == SIZES[k] && Sound(c', LiveIn(h.live, k) - {a})
    ensures CachesOk(h.caches[k := c'], h.live - {a})
  {
    LiveInWithout(h.live, a);
    ReplaceCache(h.caches, h.live, k, c', h.live - {a});
  }

  /** And for one more. */
  lemma WithOneMore(h: Heap, a: nat, l: Live, k: nat, c': Cache)
    requires CachesOk(h.caches, h.live) && k < |SIZES| && a !in h.live && l.kind == Small(k)
    requires c'.size == SIZES[k] && Sound(c', LiveIn(h.live, k) + {a})
    ensures CachesOk(h.caches[k := c'], h.live[a := l])
  {
    LiveInAfter(h.live, a, l);
    ReplaceCache(h.caches, h.live, k, c', h.live[a := l]);
  }

  lemma KfreeCaches(h: Heap, a: nat, k: nat)
    requires HeapOk(h) && a in h.live && h.live[a].kind == Small(k) && k < |h.caches|
    requires PageOf(a) in h.caches[k].slabs
    ensures CachesOk(h.caches[k := Free(h.caches[k], a)], h.live - {a})
  {
    KfreeReady(h, a, k);
    WithoutOne(h, a, k, Free(h.caches[k], a));
  }

  lemma KfreeOwners(h: Heap, a: nat, k: nat)
    requires OwnersOk(h.caches, h.owner) && k < |h.caches|
    requires PageOf(a) in h.caches[k].slabs
    ensures OwnersOk(h.caches[k := Free(h.caches[k], a)], h.owner)
  {
    ReplaceOwner(h, k, Free(h.caches[k], a), h.owner, 0);
  }

  lemma FewerLive(h: Heap, h': Heap, a: nat)
    requires LiveOk(h) && BlocksApart(h) && h'.owner == h.owner && h'.live == h.live - {a}
    ensures LiveOk(h') && BlocksApart(h')
  {
  }

  lemma KfreeSmallKeeps(h: Heap, a: nat, k: nat)
    requires HeapOk(h) && a in h.live && h.live[a].kind == Small(k)
    ensures a % PAGE_SIZE != 0 && PageOf(a) in h.owner && h.owner[PageOf(a)] == k < |h.caches|
    ensures PageOf(a) in h.caches[k].slabs && HeapOk(Kfree(h, a))
  {
    KfreeReady(h, a, k);
    KfreeCaches(h, a, k);
    KfreeOwners(h, a, k);
    FewerLive(h, Kfree(h, a), a);
  }

  lemma KfreeLargeKeeps(h: Heap, a: nat)
    requires HeapOk(h) && a in h.live && h.live[a].kind.Large?
    ensures a % PAGE_SIZE == 0 && HeapOk(Kfree(h, a))
  {
    Dispatch(h, a);
    LiveInWithout(h.live, a);
    SameCaches(h.caches, h.live, h.live - {a});
    FewerLive(h, Kfree(h, a), a);
  }

  // ----------------------------------------------------------------------------- runs

  datatype Op = AllocSmall(size: nat, page: nat) | AllocLarge(size: nat, order: nat, block: nat) | Release(a: nat)

  ghost predicate Enabled(h: Heap, op: Op)
    requires HeapOk(h)
  {
    match op
    case AllocSmall(size, page) => CanMallocSmall(h, size, page)
    case AllocLarge(size, order, block) => CanMallocLarge(h, size, order, block)
    case Release(a) => a in h.live
  }

  /** Every operation is defined on a heap in order, and leaves it in order. */
  lemma Defined(h: Heap, op: Op)
    requires HeapOk(h) && Enabled(h, op)
    ensures op.AllocSmall? ==>
      && CanTake(Supplied(h.caches[ClassOf(op.size)], op.page))
      && HeapOk(MallocSmall(h, op.size, op.page))
    ensures op.AllocLarge? ==> HeapOk(MallocLarge(h, op.size, op.order, op.block))
    ensures op.Release? ==>
      && (op.a % PAGE_SIZE != 0 ==>
            && PageOf(op.a) in h.owner && h.owner[PageOf(op.a)] < |h.caches|
            && PageOf(op.a) in h.caches[h.owner[PageOf(op.a)]].slabs)
      && HeapOk(Kfree(h, op.a))
  {
    match op
    case AllocSmall(size, page) => MallocSmallKeeps(h, size, page);
    case AllocLarge(size, order, block) => MallocLargeKeeps(h, size, order, block);
    case Release(a) =>
      match h.live[a].kind
      case Small(k) => KfreeSmallKeeps(h, a, k);
      case Large(_) => KfreeLargeKeeps(h, a);
  }

  ghost function Next(h: Heap, op: Op): (h': Heap)
    requires HeapOk(h) && Enabled(h, op)
    ensures HeapOk(h')
  {
    Defined(h, op);
    match op
    case AllocSmall(size, page) => MallocSmall(h, size, page)
    case AllocLarge(size, order, block) => MallocLarge(h, size, order, block)
    case Release(a) => Kfree(h, a)
  }

  /** The pointer that kmalloc returns. */
  ghost function Result(h: Heap, op: Op): nat
    requires HeapOk(h) && Enabled(h, op) && !op.Release?
  {
    Defined(h, op);
    if op.AllocSmall? then Handed(Supplied(h.caches[ClassOf(op.size)], op.page)) else op.block
  }

  /** kmalloc returns what was not live before and is live, with the size asked for, after;
      all other live results stay. */
  lemma ResultFresh(h: Heap, op: Op)
    requires HeapOk(h) && Enabled(h, op) && !op.Release?
    ensures Result(h, op) != 0 && Result(h, op) !in h.live
    ensures exists l: Live :: l.size == op.size && Next(h, op).live == h.live[Result(h, op) := l]
  {
    match op
    case AllocSmall(size, page) => SmallFresh(h, size, page);
    case AllocLarge(size, order, block) =>
      MallocLargeKeeps(h, size, order, block);
      assert Next(h, op).live == h.live[block := Live(size, Large(order))];
  }

  lemma SmallFresh(h: Heap, size: nat, page: nat)
    requires HeapOk(h) && CanMallocSmall(h, size, page)
    ensures var c := Supplied(h.caches[ClassOf(size)], page);
            && CanTake(c) && Handed(c) != 0 && Handed(c) !in h.live
            && MallocSmall(h, size, page).live == h.live[Handed(c) := Live(size, Small(ClassOf(size)))]
  {
    SmallReady(h, size, page);
  }

  ghost predicate IsRun(h: Heap, ops: seq<Op>)
    requires HeapOk(h)
    decreases |ops|
  {
    ops == [] || (Enabled(h, ops[0]) && IsRun(Next(h, ops[0]), ops[1..]))
  }

  ghost function Run(h: Heap, ops: seq<Op>): (h': Heap)
    requires HeapOk(h) && IsRun(h, ops)
    ensures HeapOk(h')
    decreases |ops|
  {
    if ops == [] then h else Run(Next(h, ops[0]), ops[1..])
  }

  function Empty(): Heap {
    Heap(seq(|SIZES|, (k: nat) requires k < |SIZES| => Cache(SIZES[k], [], [], [], map[])), map[], map[])
  }

  lemma EmptyCacheSound(size: nat)
    requires 0 < size && Capacity(size) > 0
    ensures Sound(Cache(size, [], [], [], map[]), {})
  {
  }

  lemma EmptyOk()
    ensures HeapOk(Empty())
  {
    forall k: nat | k < |SIZES| ensures Sound(Empty().caches[k], LiveIn(map[], k)) {
      assert LiveIn(map[], k) == {};
      EmptyCacheSound(SIZES[k]);
    }
  }

  /** In every state of every run live results lie apart and are as long as asked. */
  lemma RunsNeverOverlap(ops: seq<Op>)
    ensures HeapOk(Empty())
    ensures IsRun(Empty(), ops) ==>
      var h := Run(Empty(), ops);
      && (forall a, b | a in h.live && b in h.live && a != b :: Apart(a, Extent(h.live[a]), b, Extent(h.live[b])))
      && (forall a | a in h.live :: h.live[a].size <= Extent(h.live[a]) <==> h.live[a].size <= WORD - PAGE_SIZE)
  {
    EmptyOk();
    if IsRun(Empty(), ops) {
      NoOverlap(Run(Empty(), ops));
    }
  }

  // ------------------------------------------------------------------ lists in order

  /** In every cache each slab is on the list that its counters call for. */
  ghost predicate ListsInOrder(h: Heap) {
    |h.caches| == |SIZES| && forall k :: 0 <= k < |SIZES| ==> h.caches[k].size == SIZES[k] && ListsOk(h.caches[k])
  }

  /** The one free that puts lists out of order: of a one-object slab that does not head the
      full list. */
  predicate FreesInOrder(h: Heap, a: nat)
    requires |h.caches| == |SIZES|
  {
    a in h.live && h.live[a].kind.Small? && h.live[a].kind.k < |SIZES| ==>
      var k := h.live[a].kind.k;
      Capacity(SIZES[k]) >= 2 || (h.caches[k].full != [] && h.caches[k].full[0] == PageOf(a))
  }

  lemma MallocSmallLists(h: Heap, size: nat, page: nat)
    requires HeapOk(h) && ListsInOrder(h) && CanMallocSmall(h, size, page)
    ensures CanTake(Supplied(h.caches[ClassOf(size)], page)) && ListsInOrder(MallocSmall(h, size, page))
  {
    var k := ClassOf(size);
    if NeedsPage(h.caches[k]) { FreshPage(h, page); }
    AllocLists(h.caches[k], page, LiveIn(h.live, k));
    OneCacheLists(h, k, Take(Supplied(h.caches[k], page)));
  }

  lemma AllocLists(c: Cache, page: nat, live: set<nat>)
    requires Sound(c, live) && ListsOk(c) && (NeedsPage(c) ==> page % PAGE_SIZE == 0 && page !in c.slabs)
    ensures CanTake(Supplied(c, page)) && ListsOk(Take(Supplied(c, page)))
  {
    SuppliedOk(c, page, live);
    TakeOk(Supplied(c, page), live);
  }

  lemma KfreeListsIff(h: Heap, a: nat, k: nat)
    requires HeapOk(h) && ListsInOrder(h) && a in h.live && h.live[a].kind == Small(k)
    ensures a % PAGE_SIZE != 0 && PageOf(a) in h.owner && h.owner[PageOf(a)] == k < |h.caches|
    ensures PageOf(a) in h.caches[k].slabs
    ensures ListsInOrder(Kfree(h, a)) <==> FreesInOrder(h, a)
  {
    var c, live := h.caches[k], LiveIn(h.live, k);
    KfreeReady(h, a, k);
    assert a in live;
    FreeOkIff(c, live, a);
    OneCacheLists(h, k, Free(c, a));
  }

  lemma OneCacheLists(h: Heap, k: nat, c': Cache)
    requires ListsInOrder(h) && k < |SIZES| && c'.size == SIZES[k]
    ensures ListsInOrder(h.(caches := h.caches[k := c'])) <==> ListsOk(c')
  {
    var caches := h.caches[k := c'];
    if ListsOk(c') {
      forall j | 0 <= j < |SIZES| ensures caches[j].size == SIZES[j] && ListsOk(caches[j]) {
        if j != k { assert caches[j] == h.caches[j]; }
      }
    } else {
      assert caches[k] == c';
    }
  }

  /** Over every run, an operation keeps the lists of all caches in order if and only if it
      is not such a free. */
  lemma ListsKeptIff(h: Heap, op: Op)
    requires HeapOk(h) && ListsInOrder(h) && Enabled(h, op)
    ensures ListsInOrder(Next(h, op)) <==> (op.Release? ==> FreesInOrder(h, op.a))
  {
    match op
    case AllocSmall(size, page) => MallocSmallLists(h, size, page);
    case AllocLarge(size, order, block) =>
    case Release(a) =>
      match h.live[a].kind
      case Small(k) => KfreeListsIff(h, a, k);
      case Large(_) => KfreeLargeKeeps(h, a);
  }

  /** With no slab to take from, a one-object cache hands out the object of the new slab and
      lists the slab in front of the full ones. */
  lemma SingleTaken(c: Cache, page: nat)
    requires c.size == 2048 && NeedsPage(c) && page % PAGE_SIZE == 0
    ensures var s := Supplied(c, page);
            && CanTake(s) && Handed(s) == page + SLAB_HEADER && PageOf(page + SLAB_HEADER) == page
            && Take(s).full == [page] + c.full && NeedsPage(Take(s))
  {
    var s := Supplied(c, page);
    assert Capacity(2048) == 1 && s.slabs[page] == NewSlab(page, 2048);
    assert Slots(page, 2048)[0] == SlotAddress(page, 2048, 0) == page + SLAB_HEADER;
    SlotUnaligned(page, 2048, page + SLAB_HEADER);
  }

  /** So does kmalloc of 2048 bytes. */
  lemma SingleAllocated(h: Heap, page: nat)
    requires HeapOk(h) && NeedsPage(h.caches[8]) && FreshBlock(h, page, PAGE_SIZE)
    ensures ClassOf(2048) == 8 && CanTake(Supplied(h.caches[8], page))
    ensures var h', a := MallocSmall(h, 2048, page), page + SLAB_HEADER;
            && h'.caches[8].full == [page] + h.caches[8].full && NeedsPage(h'.caches[8])
            && h'.owner == h.owner[page := 8] && h'.live == h.live[a := Live(2048, Small(8))] && PageOf(a) == page
  {
    assert h.caches[8].size == SIZES[8] == 2048;
    SingleTaken(h.caches[8], page);
  }

  /** The same as a step, from a heap with its lists in order. */
  lemma SingleStep(h: Heap, page: nat) returns (h': Heap)
    requires HeapOk(h) && ListsInOrder(h) && NeedsPage(h.caches[8]) && FreshBlock(h, page, PAGE_SIZE)
    ensures HeapOk(h') && ListsInOrder(h') && NeedsPage(h'.caches[8]) && h'.caches[8].full == [page] + h.caches[8].full
    ensures Enabled(h, AllocSmall(2048, page)) && h' == Next(h, AllocSmall(2048, page))
    ensures h'.owner == h.owner[page := 8] && PageOf(page + SLAB_HEADER) == page
    ensures h'.live == h.live[page + SLAB_HEADER := Live(2048, Small(8))]
  {
    SingleAllocated(h, page);
    ListsKeptIff(h, AllocSmall(2048, page));
    h' := Next(h, AllocSmall(2048, page));
  }

  lemma RunCons(h: Heap, op: Op, h': Heap, ops: seq<Op>)
    requires HeapOk(h) && Enabled(h, op) && h' == Next(h, op) && IsRun(h', ops)
    ensures IsRun(h, [op] + ops) && Run(h, [op] + ops) == Run(h', ops)
  {
    assert ([op] + ops)[1..] == ops;
  }

  lemma FreeBehindHead(h: Heap, a: nat) returns (h': Heap)
    requires HeapOk(h) && ListsInOrder(h) && a in h.live && h.live[a].kind == Small(8)
    requires h.caches[8].full != [] && h.caches[8].full[0] != PageOf(a)
    ensures h' == Next(h, Release(a)) && HeapOk(h') && !ListsInOrder(h')
  {
    assert Capacity(SIZES[8]) == 1;
    ListsKeptIff(h, Release(a));
    h' := Next(h, Release(a));
  }

  lemma EmptyLists()
    ensures ListsInOrder(Empty()) && NeedsPage(Empty().caches[8])
  {
    forall k: nat | k < |SIZES| ensures ListsOk(Empty().caches[k]) {
      assert Empty().caches[k] == Cache(SIZES[k], [], [], [], map[]);
    }
  }

  /** Two results of 2048 bytes. */
  lemma TwoSingles(h0: Heap) returns (h1: Heap, h2: Heap)
    requires HeapOk(h0) && ListsInOrder(h0) && NeedsPage(h0.caches[8]) && h0.owner == map[] && h0.live == map[]
    ensures Enabled(h0, AllocSmall(2048, 0x1000)) && h1 == Next(h0, AllocSmall(2048, 0x1000))
    ensures Enabled(h1, AllocSmall(2048, 0x2000)) && h2 == Next(h1, AllocSmall(2048, 0x2000))
    ensures ListsInOrder(h2) && h2.caches[8].full != [] && h2.caches[8].full[0] == 0x2000
    ensures 0x1018 in h2.live && h2.live[0x1018].kind == Small(8) && PageOf(0x1018) == 0x1000
  {
    h1 := SingleStep(h0, 0x1000);
    SecondPage(h0, h1);
    h2 := SingleStep(h1, 0x2000);
  }

  lemma SecondPage(h0: Heap, h1: Heap)
    requires h0.owner == map[] && h1.owner == h0.owner[0x1000 := 8]
    requires h0.live == map[] && h1.live == h0.live[0x1018 := Live(2048, Small(8))]
    ensures FreshBlock(h1, 0x2000, PAGE_SIZE)
  {
  }

  /** Two results of 2048 bytes and the free of the first: the heap stays in order as far as
      callers can tell, and the full list of its cache does not. */
  lemma SinglesOutOfOrder() returns (h: Heap, ops: seq<Op>)
    ensures HeapOk(Empty()) && IsRun(Empty(), ops) && h == Run(Empty(), ops) && !ListsInOrder(h)
  {
    EmptyOk();
    EmptyLists();
    var h1, h2 := TwoSingles(Empty());
    h := FreeBehindHead(h2, 0x1018);
    ops := [Release(0x1018)] + [];
    RunCons(h2, Release(0x1018), h, []);
    RunCons(h1, AllocSmall(2048, 0x2000), h2, ops);
    ops := [AllocSmall(2048, 0x2000)] + ops;
    RunCons(Empty(), AllocSmall(2048, 0x1000), h1, ops);
    ops := [AllocSmall(2048, 0x1000)] + ops;
  }
}
