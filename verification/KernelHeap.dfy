/** SlabAllocator: kmalloc and kfree on the nine caches in memory. */
module KernelHeap {
  import opened Bits
  import opened Slab
  import opened K = Kmalloc
  import opened SlabAllocator

  lemma SizeFits(k: nat)
    requires k < |SIZES|
    ensures 8 <= SIZES[k] <= 2048 && Capacity(SIZES[k]) > 0
  {
  }

  /** SlabAllocator::init: one empty cache for each size. */
  method NewCaches() returns (all: seq<SlabCache>)
    ensures |all| == |SIZES| && fresh(all)
    ensures forall j, k :: 0 <= j < k < |all| ==> all[j] != all[k]
    ensures forall k :: 0 <= k < |all| ==>
      all[k].Valid() && all[k].size == SIZES[k] && all[k].now == Cache(SIZES[k], [], [], [], map[])
  {
    all := [];
    var i := 0;
    while i < |SIZES|
      invariant 0 <= i <= |SIZES| && |all| == i && fresh(all)
      invariant forall j, k :: 0 <= j < k < i ==> all[j] != all[k]
      invariant forall k :: 0 <= k < i ==>
        all[k].Valid() && all[k].size == SIZES[k] && all[k].now == Cache(SIZES[k], [], [], [], map[])
    {
      SizeFits(i);
      var c := new SlabCache(SIZES[i]);
      all := all + [c];
      i := i + 1;
    }
  }

  class KernelHeap {
    const caches: seq<SlabCache>
    /** The `cache` field in the header of each slab page. */
    var owner: map<nat, nat>
    ghost var heap: Heap

    ghost predicate CacheAt(k: nat)
      requires k < |caches| == |heap.caches| == |SIZES|
      reads this, caches
    {
      caches[k].Valid() && caches[k].now == heap.caches[k] && caches[k].size == SIZES[k]
    }

    /** The caches in memory are those of the heap. */
    ghost predicate Concrete()
      reads this, caches
    {
      && |caches| == |heap.caches| == |SIZES|
      && (forall j, k :: 0 <= j < k < |caches| ==> caches[j] != caches[k])
      && (forall k: nat :: k < |caches| ==> CacheAt(k))
      && owner == heap.owner
    }

    ghost predicate Valid()
      reads this, caches
    {
      Concrete() && HeapOk(heap)
    }

    constructor ()
      ensures Valid() && heap == Empty() && fresh(caches)
    {
      var all := NewCaches();
      caches := all;
      owner := map[];
      heap := Empty();
      new;
      EmptyOk();
    }

    /** alloc will take a page for a new slab. */
    method NoRoom(k: nat) returns (needs: bool)
      requires Concrete() && k < |caches|
      ensures needs <==> NeedsPage(heap.caches[k])
    {
      var c := caches[k];
      assert CacheAt(k);
      ChainHead(c.slabsPartial, c.now.partial, c.next);
      ChainHead(c.slabsFree, c.now.unused, c.next);
      needs := c.slabsPartial == 0 && c.slabsFree == 0;
    }

    /** Only cache k has changed. */
    twostate lemma OneChanged(k: nat)
      requires old(Concrete()) && k < |caches| && unchanged(set j: nat | j < |caches| && j != k :: caches[j])
      requires caches[k].Valid() && |heap.caches| == |SIZES| && heap.caches == old(heap).caches[k := caches[k].now]
      requires owner == heap.owner
      ensures Concrete()
    {
      forall j: nat | j < |caches| ensures CacheAt(j) {
        assert old(CacheAt(j));
      }
    }

    /** alloc on cache k. */
    method AllocFrom(k: nat, page: nat, ghost live: set<nat>) returns (ptr: nat)
      requires Concrete() && k < |caches| && Sound(heap.caches[k], live)
      requires NeedsPage(heap.caches[k]) ==> 0 < page && page % PAGE_SIZE == 0 && page !in heap.caches[k].slabs
      modifies caches[k]
      ensures caches[k].Valid() && ptr != 0
      ensures
        var c := Supplied(heap.caches[k], page);
        CanTake(c) && ptr == Handed(c) && caches[k].now == Take(c)
    {
      assert CacheAt(k);
      ptr := caches[k].Alloc(page, live);
    }

    /** alloc on cache k, and the owner of a page it took. */
    method AllocRecorded(k: nat, size: nat, page: nat, needs: bool, ghost live: set<nat>) returns (ptr: nat)
      requires Concrete() && size <= LARGEST && k == ClassOf(size) && Sound(heap.caches[k], live)
      requires needs <==> NeedsPage(heap.caches[k])
      requires needs ==> 0 < page && page % PAGE_SIZE == 0 && page !in heap.caches[k].slabs
      modifies this, caches
      ensures Concrete() && ptr != 0
      ensures
        var c := Supplied(old(heap).caches[k], page);
        CanTake(c) && ptr == Handed(c) && heap == MallocSmall(old(heap), size, page)
    {
      ptr := AllocFrom(k, page, live);
      if needs { owner := owner[page := k]; }
      ghost var next := MallocSmall(heap, size, page);
      assert next.owner == owner && next.caches == heap.caches[k := caches[k].now];
      heap := next;
      OneChanged(k);
    }

    method TakeFromCache(size: nat, page: nat, ghost live: set<nat>) returns (ptr: nat)
      requires Concrete() && size <= LARGEST && Sound(heap.caches[ClassOf(size)], live)
      requires
        NeedsPage(heap.caches[ClassOf(size)]) ==>
          0 < page && page % PAGE_SIZE == 0 && page !in heap.caches[ClassOf(size)].slabs
      modifies this, caches
      ensures Concrete() && ptr != 0
      ensures
        var c := Supplied(old(heap).caches[ClassOf(size)], page);
        CanTake(c) && ptr == Handed(c) && heap == MallocSmall(old(heap), size, page)
    {
      var k := GetGeneralCache(size);
      var needs := NoRoom(k);
      ptr := AllocRecorded(k, size, page, needs, live);
    }

    /** kmalloc: 0 for size 0 or when the page allocator gives no block; otherwise an object
        of the general cache for the size, or whole pages above 2048 bytes. `given` is what
        the page allocator would return. */
    method Kmalloc(size: nat, given: nat) returns (ptr: nat)
      requires Valid() && size < WORD && (0 < size <= LARGEST ==> CanMallocSmall(heap, size, given))
      requires forall order: nat :: LARGEST < size && given != 0 && IsOrder(size, order) ==>
                                      FreshBlock(heap, given, Pow2(order) * PAGE_SIZE)
      modifies this, caches
      ensures Valid() && (ptr == 0 <==> size == 0 || (size > LARGEST && given == 0))
      ensures ptr == 0 ==> heap == old(heap)
      ensures 0 < size <= LARGEST ==>
        var c := Supplied(old(heap).caches[ClassOf(size)], given);
        CanTake(c) && ptr == Handed(c) && heap == MallocSmall(old(heap), size, given)
      ensures size > LARGEST && given != 0 ==>
        ptr == given && exists order: nat :: IsOrder(size, order) && heap == MallocLarge(old(heap), size, order, given)
      ensures ptr != 0 ==> ptr !in old(heap).live && ptr in heap.live && heap.live[ptr].size == size
    {
      if size == 0 { return 0; }
      if size > LARGEST {
        var order := LargeOrder(size);
        if given == 0 { return 0; }
        ptr := MallocPages(size, order, given);
      } else {
        MallocSmallKeeps(heap, size, given);
        SmallReady(heap, size, given);
        if NeedsPage(heap.caches[ClassOf(size)]) { FreshPage(heap, given); }
        ptr := TakeFromCache(size, given, LiveIn(heap.live, ClassOf(size)));
      }
    }

    method MallocPages(size: nat, order: nat, block: nat) returns (ptr: nat)
      requires Valid() && CanMallocLarge(heap, size, order, block)
      modifies this
      ensures Valid() && ptr == block && block !in old(heap).live && heap == MallocLarge(old(heap), size, order, block)
    {
      MallocLargeKeeps(heap, size, order, block);
      assert CacheAt(0);
      heap := MallocLarge(heap, size, order, block);
      OneChanged(0);
      return block;
    }

    method FreeFrom(k: nat, ptr: nat, ghost live: set<nat>)
      requires Concrete() && k < |caches| && Sound(heap.caches[k], live) && ptr in live
      modifies caches[k]
      ensures caches[k].Valid()
      ensures PageOf(ptr) in heap.caches[k].slabs && caches[k].now == Slab.Free(heap.caches[k], ptr)
    {
      assert CacheAt(k);
      caches[k].Free(ptr, live);
    }

    /** free on the cache that owns the page. */
    method FreeInCache(ptr: nat, k: nat, ghost live: set<nat>)
      requires Concrete() && k < |caches| && Sound(heap.caches[k], live) && ptr in live
      requires ptr % PAGE_SIZE != 0 && PageOf(ptr) in owner && owner[PageOf(ptr)] == k
      modifies this, caches
      ensures Concrete()
      ensures PageOf(ptr) in old(heap).caches[k].slabs && heap == K.Kfree(old(heap), ptr)
    {
      FreeFrom(k, ptr, live);
      heap := K.Kfree(heap, ptr);
      OneChanged(k);
    }

    /** kfree of any live result. An unaligned pointer goes to the cache that the header of
        its page names, an aligned one to the page allocator: `given` is the page that it is
        handed, if any. */
    method Kfree(ptr: nat) returns (given: nat)
      requires Valid() && (ptr != 0 ==> ptr in heap.live)
      modifies this, caches
      ensures Valid() && (ptr == 0 ==> heap == old(heap))
      ensures ptr != 0 ==> heap.live == old(heap).live - {ptr} && heap.owner == old(heap).owner
      ensures given == if ptr != 0 && old(heap).live[ptr].kind.Large? then ptr else 0
    {
      given := 0;
      if ptr == 0 { return; }
      Dispatch(heap, ptr);
      if ptr % PAGE_SIZE != 0 {
        var k := owner[PageOf(ptr)];
        KfreeSmallKeeps(heap, ptr, k);
        assert ptr in LiveIn(heap.live, k);
        FreeInCache(ptr, k, LiveIn(heap.live, k));
      } else {
        KfreeLargeKeeps(heap, ptr);
        assert CacheAt(0);
        heap := K.Kfree(heap, ptr);
        OneChanged(0);
        given := ptr;
      }
    }
  }
}
