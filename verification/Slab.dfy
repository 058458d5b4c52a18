/** One slab cache: three lists of slabs and a free list of objects in each slab. */
module Slab {
  import opened Sequences

  const PAGE_SIZE: nat := 4096
  /** sizeof(Slab): six 32-bit words at the start of the page. */
  const SLAB_HEADER: nat := 24

  /** A slab page: its two counters and the addresses on its free list, first first. */
  datatype SlabPage = SlabPage(inuse: int, free: int, list: seq<nat>)

  /** A cache of objects of one size; slabs are named by the address of their page. */
  datatype Cache = Cache(size: nat, full: seq<nat>, partial: seq<nat>, unused: seq<nat>, slabs: map<nat, SlabPage>)

  function Capacity(size: nat): (n: nat)
    requires 0 < size
  {
    (PAGE_SIZE - SLAB_HEADER) / size
  }

  /** As many objects as fit behind the header, and not one more. */
  lemma CapacityMost(size: nat)
    requires 0 < size
    ensures SLAB_HEADER + Capacity(size) * size <= PAGE_SIZE < SLAB_HEADER + (Capacity(size) + 1) * size
  {
  }

  function SlotAddress(p: nat, size: nat, i: nat): nat {
    p + SLAB_HEADER + i * size
  }

  function Slots(p: nat, size: nat): (s: seq<nat>)
    requires 0 < size
    ensures |s| == Capacity(size) && forall i :: 0 <= i < |s| ==> s[i] == SlotAddress(p, size, i)
  {
    seq(Capacity(size), (i: nat) => SlotAddress(p, size, i))
  }

  /** Masking an address down to its page. */
  function PageOf(a: nat): (p: nat)
    ensures p % PAGE_SIZE == 0 && p <= a < p + PAGE_SIZE
  {
    a - a % PAGE_SIZE
  }

  lemma PageUnique(p: nat, a: nat)
    requires p % PAGE_SIZE == 0 && p <= a < p + PAGE_SIZE
    ensures PageOf(a) == p
  {
  }

  lemma Product(i: nat, n: nat, size: nat)
    requires i < n
    ensures i * size + size <= n * size
  {
    assert (i + 1) * size <= n * size;
  }

  /** A slot lies inside its page, past the header, so masking gives back the slab. */
  lemma SlotInside(p: nat, size: nat, i: nat)
    requires 0 < size && p % PAGE_SIZE == 0 && i < Capacity(size)
    ensures var a := SlotAddress(p, size, i); PageOf(a) == p && p + SLAB_HEADER <= a && a + size <= p + PAGE_SIZE
    ensures SlotAddress(p, size, i) % PAGE_SIZE != 0
  {
    Product(i, Capacity(size), size);
    PageUnique(p, SlotAddress(p, size, i));
  }

  /** Two slots of a slab do not overlap. */
  lemma SlotsApart(p: nat, size: nat, i: nat, j: nat)
    requires i < j
    ensures SlotAddress(p, size, i) + size <= SlotAddress(p, size, j)
  {
    Product(i, j, size);
  }

  // --------------------------------------------------------------------- operations

  /** create_slab: every slot is on the free list, in address order. */
  function NewSlab(p: nat, size: nat): SlabPage
    requires 0 < size
  {
    SlabPage(0, Capacity(size), Slots(p, size))
  }

  predicate NeedsPage(c: Cache) {
    c.partial == [] && c.unused == []
  }

  /** With no slab to allocate from, the new page becomes the one unused slab. */
  function Supplied(c: Cache, page: nat): Cache
    requires 0 < c.size
  {
    if NeedsPage(c) then
      c.(unused := [page], slabs := c.slabs[page := NewSlab(page, c.size)])
    else c
  }

  /** The slab that alloc takes from. */
  function Chosen(c: Cache): nat
    requires c.partial != [] || c.unused != []
  {
    if c.partial != [] then c.partial[0] else c.unused[0]
  }

  predicate CanTake(c: Cache) {
    && (c.partial != [] || c.unused != [])
    && Chosen(c) in c.slabs
    && c.slabs[Chosen(c)].list != []
  }

  function Taken(st: SlabPage): SlabPage
    requires st.list != []
  {
    SlabPage(st.inuse + 1, st.free - 1, st.list[1..])
  }

  /** alloc's relinking of the slab it took from, the head of its list, now with n free
      objects. */
  function Relink(c: Cache, n: int): (r: Cache)
    requires c.partial != [] || c.unused != []
    ensures r.size == c.size && r.slabs == c.slabs
  {
    var p := Chosen(c);
    if n == 0 then
      if c.partial != [] then c.(partial := c.partial[1..], full := [p] + c.full)
      else c.(unused := c.unused[1..], full := [p] + c.full)
    else if c.unused != [] && p == c.unused[0] then
      c.(unused := c.unused[1..], partial := [p] + c.partial)
    else c
  }

  /** alloc, given a slab with a free object. */
  function Take(c: Cache): (r: Cache)
    requires CanTake(c)
    ensures r.size == c.size && r.slabs.Keys == c.slabs.Keys
  {
    var p := Chosen(c);
    Relink(c.(slabs := c.slabs[p := Taken(c.slabs[p])]), c.slabs[p].free - 1)
  }

  function Returned(st: SlabPage, a: nat): SlabPage {
    SlabPage(st.inuse - 1, st.free + 1, [a] + st.list)
  }

  /** free's relinking of slab p, now with these counters. The third case is a slab that
      is neither the head of the full list nor on the partial one: it is not unlinked
      from the full list, so relinking it in front of the unused list makes the full
      list run on into that one, and from then on what is called the full list here says
      nothing about the one in memory. */
  function Refile(c: Cache, p: nat, inuse: int, free: int): (r: Cache)
    ensures r.size == c.size && r.slabs == c.slabs
  {
    if inuse == 0 then
      if c.full != [] && c.full[0] == p then c.(full := c.full[1..], unused := [p] + c.unused)
      else if p in c.partial then c.(partial := Unlinked(c.partial, p), unused := [p] + c.unused)
      else if p in c.full then c.(full := c.full[..IndexOf(c.full, p) + 1] + c.unused, unused := [p] + c.unused)
      else c.(unused := [p] + c.unused)
    else if free == 1 && p in c.full then
      c.(full := Unlinked(c.full, p), partial := [p] + c.partial)
    else c
  }

  function Free(c: Cache, a: nat): (r: Cache)
    requires PageOf(a) in c.slabs
    ensures r.size == c.size && r.slabs.Keys == c.slabs.Keys
  {
    var p := PageOf(a);
    var st := Returned(c.slabs[p], a);
    Refile(c.(slabs := c.slabs[p := st]), p, st.inuse, st.free)
  }

  // ---------------------------------------------------------------------- invariant

  /** Free list and live objects partition the slots, and the counters count them. */
  ghost predicate SlabOk(p: nat, size: nat, st: SlabPage, live: set<nat>)
    requires 0 < size
  {
    && st.inuse + st.free == Capacity(size)
    && |st.list| == st.free
    && NoRepeats(st.list)
    && (forall a :: a in st.list ==> a !in live)
    && (forall a :: a in Slots(p, size) <==> a in st.list || (a in live && PageOf(a) == p))
  }

  function Count(s: seq<nat>, p: nat): (n: nat)
    ensures n > 0 <==> p in s
  {
    if s == [] then 0 else (if s[0] == p then 1 else 0) + Count(s[1..], p)
  }

  /** How often a slab is linked, in the three lists together. */
  function Linked(c: Cache, p: nat): nat {
    Count(c.full, p) + Count(c.partial, p) + Count(c.unused, p)
  }

  /** Each slab is on exactly one list, the one its counters call for. */
  ghost predicate ListsOk(c: Cache)
    requires 0 < c.size
  {
    && (forall p :: Linked(c, p) == if p in c.slabs then 1 else 0)
    && (forall p :: p in c.full ==> p in c.slabs && c.slabs[p].free == 0)
    && (forall p :: p in c.partial ==> p in c.slabs && 0 < c.slabs[p].free < Capacity(c.size))
    && (forall p :: p in c.unused ==> p in c.slabs && c.slabs[p].free == Capacity(c.size))
  }

  /** Each slab is in order, and every live object is in one. */
  ghost predicate SlabsOk(c: Cache, live: set<nat>) {
    && 0 < c.size && Capacity(c.size) > 0
    && (forall p :: p in c.slabs ==> p % PAGE_SIZE == 0 && SlabOk(p, c.size, c.slabs[p], live))
    && (forall a :: a in live ==> PageOf(a) in c.slabs)
  }

  ghost predicate CacheOk(c: Cache, live: set<nat>) {
    SlabsOk(c, live) && ListsOk(c)
  }

  /** The lists of a cache of one-object slabs, as far as alloc and free look at them: there
      are no partial slabs, and the unused ones are listed once each. */
  ghost predicate SingleOk(c: Cache) {
    && c.partial == [] && NoRepeats(c.unused)
    && forall p :: p in c.unused <==> p in c.slabs && c.slabs[p].free == 1
  }

  /** In order as far as callers can tell: where slabs hold one object, nothing is said of
      the full list. */
  ghost predicate Sound(c: Cache, live: set<nat>) {
    SlabsOk(c, live) && if Capacity(c.size) >= 2 then ListsOk(c) else SingleOk(c)
  }

  // ------------------------------------------------------------------- preservation

  lemma SlotsInPage(p: nat, size: nat)
    requires 0 < size && p % PAGE_SIZE == 0
    ensures forall a :: a in Slots(p, size) ==> PageOf(a) == p
    ensures NoRepeats(Slots(p, size))
  {
    forall i | 0 <= i < Capacity(size) ensures PageOf(Slots(p, size)[i]) == p {
      SlotInside(p, size, i);
    }
    forall i, j | 0 <= i < j < Capacity(size) ensures Slots(p, size)[i] != Slots(p, size)[j] {
      SlotsApart(p, size, i, j);
    }
  }

  lemma CountFront(p: nat, s: seq<nat>, q: nat)
    ensures Count([p] + s, q) == Count(s, q) + if p == q then 1 else 0
  {
    assert ([p] + s)[1..] == s;
  }

  lemma {:induction false} CountUnlinked(s: seq<nat>, p: nat, q: nat)
    requires p in s
    ensures Count(s, q) == Count(Unlinked(s, p), q) + if p == q then 1 else 0
  {
    var rest := s[1..];
    if s[0] == p {
      assert Unlinked(s, p) == rest;
    } else {
      var shorter := Unlinked(rest, p);
      UnlinkedLater(s, p);
      CountUnlinked(rest, p, q);
      CountFront(s[0], shorter, q);
    }
  }

  lemma NewSlabOk(p: nat, size: nat, live: set<nat>)
    requires 0 < size && p % PAGE_SIZE == 0 && forall a :: a in live ==> PageOf(a) != p
    ensures SlabOk(p, size, NewSlab(p, size), live)
  {
    SlotsInPage(p, size);
  }

  lemma SuppliedOk(c: Cache, page: nat, live: set<nat>)
    requires CacheOk(c, live)
    requires NeedsPage(c) ==> page % PAGE_SIZE == 0 && page !in c.slabs
    ensures CacheOk(Supplied(c, page), live) && CanTake(Supplied(c, page))
  {
    if NeedsPage(c) { NewSlabOk(page, c.size, live); }
    var c' := Supplied(c, page);
    forall p ensures Linked(c', p) == if p in c'.slabs then 1 else 0 {
      CountFront(page, [], p);
    }
  }

  lemma TakenOk(p: nat, size: nat, st: SlabPage, live: set<nat>)
    requires 0 < size && p % PAGE_SIZE == 0 && SlabOk(p, size, st, live) && st.list != []
    ensures PageOf(st.list[0]) == p && st.list[0] !in live
    ensures SlabOk(p, size, Taken(st), live + {st.list[0]})
  {
    SlotsInPage(p, size);
    assert st.list == [st.list[0]] + st.list[1..];
  }

  lemma ReturnedOk(p: nat, size: nat, st: SlabPage, a: nat, live: set<nat>)
    requires 0 < size && p % PAGE_SIZE == 0 && SlabOk(p, size, st, live) && a in live && PageOf(a) == p
    ensures SlabOk(p, size, Returned(st, a), live - {a}) && st.free < Capacity(size)
  {
    assert a in Slots(p, size);
    Fewer(st.list, Slots(p, size), a);
  }

  function Elements(s: seq<nat>): set<nat> {
    set b | b in s
  }

  lemma {:induction false} ElementCount(s: seq<nat>)
    ensures |Elements(s)| <= |s| && (NoRepeats(s) ==> |Elements(s)| == |s|)
  {
    if s != [] {
      ElementCount(s[1..]);
      assert Elements(s) == Elements(s[1..]) + {s[0]};
    }
  }

  /** Distinct elements of a sequence that miss one of it are fewer. */
  lemma Fewer(list: seq<nat>, all: seq<nat>, a: nat)
    requires NoRepeats(list) && a !in list && a in all && forall b :: b in list ==> b in all
    ensures |list| < |all|
  {
    ElementCount(list);
    ElementCount(all);
    SubsetSize(Elements(list), Elements(all) - {a});
  }

  lemma OthersOk(c: Cache, p: nat, live: set<nat>, live': set<nat>)
    requires SlabsOk(c, live)
    requires forall a :: PageOf(a) != p ==> (a in live <==> a in live')
    ensures forall q :: q in c.slabs && q != p ==> SlabOk(q, c.size, c.slabs[q], live')
  {
    forall q | q in c.slabs && q != p ensures SlabOk(q, c.size, c.slabs[q], live') {
      SlotsInPage(q, c.size);
    }
  }

  /** A slab that is linked once is on one list only. */
  lemma OneList(c: Cache, p: nat)
    requires Linked(c, p) == 1
    ensures p in c.full ==> p !in c.partial && p !in c.unused
    ensures p in c.partial ==> p !in c.full && p !in c.unused
    ensures p in c.unused ==> p !in c.full && p !in c.partial
  {
  }

  /** Only slab p changes, and it is on the list that suits it. */
  ghost predicate Moves(c: Cache, c': Cache, p: nat)
    requires 0 < c.size
  {
    && c'.size == c.size && p in c.slabs && p in c'.slabs
    && (forall q :: Linked(c', q) == Linked(c, q))
    && c'.slabs == c.slabs[p := c'.slabs[p]]
    && (forall q :: q in c'.full && q != p ==> q in c.full)
    && (forall q :: q in c'.partial && q != p ==> q in c.partial)
    && (forall q :: q in c'.unused && q != p ==> q in c.unused)
    && Suits(c', p)
  }

  /** Slab p is on the list that its counters call for. */
  predicate Suits(c: Cache, p: nat)
    requires 0 < c.size && p in c.slabs
  {
    var n := c.slabs[p].free;
    || (n == 0 && p in c.full)
    || (0 < n < Capacity(c.size) && p in c.partial)
    || (n == Capacity(c.size) && p in c.unused)
  }

  lemma MovedLists(c: Cache, c': Cache, p: nat)
    requires 0 < c.size && ListsOk(c) && Moves(c, c', p)
    ensures ListsOk(c')
  {
    OneList(c', p);
  }

  /** The cache stays in order when one slab moves and stays in order itself. */
  lemma MovedOk(c: Cache, live: set<nat>, c': Cache, live': set<nat>, p: nat)
    requires CacheOk(c, live) && Moves(c, c', p) && SlabOk(p, c.size, c'.slabs[p], live')
    requires forall a :: PageOf(a) != p ==> (a in live <==> a in live')
    ensures CacheOk(c', live')
  {
    MovedLists(c, c', p);
    OthersOk(c, p, live, live');
  }

  lemma TakeMoves(c: Cache, live: set<nat>)
    requires CacheOk(c, live) && CanTake(c)
    ensures Moves(c, Take(c), Chosen(c))
  {
    var p := Chosen(c);
    OneList(c, p);
    assert SlabOk(p, c.size, c.slabs[p], live);
    forall q ensures Linked(Take(c), q) == Linked(c, q) {
      TakeCounts(c, q);
    }
  }

  lemma TakeCounts(c: Cache, q: nat)
    requires CanTake(c)
    ensures Linked(Take(c), q) == Linked(c, q)
  {
    var p, c' := Chosen(c), Take(c);
    if c.slabs[p].free - 1 == 0 {
      CountFront(p, c.full, q);
      if c.partial != [] {
        assert c'.full == [p] + c.full && c'.partial == c.partial[1..] && c'.unused == c.unused;
      } else {
        assert c'.full == [p] + c.full && c'.partial == c.partial && c'.unused == c.unused[1..];
      }
    } else if c.unused != [] && p == c.unused[0] {
      CountFront(p, c.partial, q);
      assert c'.full == c.full && c'.partial == [p] + c.partial && c'.unused == c.unused[1..];
    } else {
      assert c'.full == c.full && c'.partial == c.partial && c'.unused == c.unused;
    }
  }

  /** The object that alloc hands out. */
  function Handed(c: Cache): nat
    requires CanTake(c)
  {
    c.slabs[Chosen(c)].list[0]
  }

  /** alloc hands out a slot that was not live and keeps the cache in order. */
  lemma TakeOk(c: Cache, live: set<nat>)
    requires CacheOk(c, live) && CanTake(c)
    ensures Handed(c) !in live && PageOf(Handed(c)) == Chosen(c) && Handed(c) in Slots(Chosen(c), c.size)
    ensures CacheOk(Take(c), live + {Handed(c)})
  {
    var p, a := Chosen(c), Handed(c);
    TakeMoves(c, live);
    TakenOk(p, c.size, c.slabs[p], live);
    MovedOk(c, live, Take(c), live + {a}, p);
  }

  /** The slab of a live object is on the full or the partial list, according to
      whether it has a free object. */
  lemma LiveSlab(c: Cache, live: set<nat>, a: nat)
    requires CacheOk(c, live) && a in live
    ensures var p := PageOf(a);
      && p in c.slabs && p !in c.unused
      && (p in c.full <==> c.slabs[p].free == 0)
      && (p in c.partial <==> c.slabs[p].free > 0)
  {
    var p := PageOf(a);
    ReturnedOk(p, c.size, c.slabs[p], a, live);
    OneList(c, p);
  }

  lemma FreeCountsUnused(c: Cache, a: nat, q: nat)
    requires Found(c, PageOf(a)) && c.slabs[PageOf(a)].inuse == 1
    ensures Linked(Free(c, a), q) == Linked(c, q)
  {
    var p, c' := PageOf(a), Free(c, a);
    CountFront(p, c.unused, q);
    if c.full != [] && c.full[0] == p {
      assert c'.full == c.full[1..] && c'.partial == c.partial && c'.unused == [p] + c.unused;
    } else {
      CountUnlinked(c.partial, p, q);
      assert c'.full == c.full && c'.partial == Unlinked(c.partial, p) && c'.unused == [p] + c.unused;
    }
  }

  lemma FreeCounts(c: Cache, a: nat, q: nat)
    requires Found(c, PageOf(a))
    ensures Linked(Free(c, a), q) == Linked(c, q)
  {
    var p, st, c' := PageOf(a), c.slabs[PageOf(a)], Free(c, a);
    if st.inuse == 1 {
      FreeCountsUnused(c, a, q);
    } else if st.free == 0 && p in c.full {
      CountFront(p, c.partial, q);
      CountUnlinked(c.full, p, q);
      assert c'.full == Unlinked(c.full, p) && c'.partial == [p] + c.partial && c'.unused == c.unused;
    } else {
      assert c'.full == c.full && c'.partial == c.partial && c'.unused == c.unused;
    }
  }

  /** The slab is unlinked where free looks for it. */
  predicate Found(c: Cache, p: nat) {
    && p in c.slabs && (p in c.full || p in c.partial)
    && (c.slabs[p].inuse == 1 ==> p in c.partial || p == c.full[0])
  }

  /** No other slab changes lists. */
  lemma FreeMembers(c: Cache, a: nat)
    requires Found(c, PageOf(a))
    ensures forall q :: q in Free(c, a).full && q != PageOf(a) ==> q in c.full
    ensures forall q :: q in Free(c, a).partial && q != PageOf(a) ==> q in c.partial
    ensures forall q :: q in Free(c, a).unused && q != PageOf(a) ==> q in c.unused
  {
    var p := PageOf(a);
    if p in c.full { UnlinkedMembers(c.full, p); }
    if p in c.partial { UnlinkedMembers(c.partial, p); }
  }

  lemma FreeSuits(c: Cache, live: set<nat>, a: nat)
    requires CacheOk(c, live) && a in live && (Capacity(c.size) >= 2 || c.full == [] || c.full[0] == PageOf(a))
    ensures Found(c, PageOf(a)) && Suits(Free(c, a), PageOf(a))
  {
    LiveSlab(c, live, a);
    assert SlabOk(PageOf(a), c.size, c.slabs[PageOf(a)], live);
  }

  /** Only the slab of the object changes lists, and it goes where its counters say. */
  lemma FreeMoves(c: Cache, a: nat)
    requires 0 < c.size && Found(c, PageOf(a)) && Suits(Free(c, a), PageOf(a))
    ensures Moves(c, Free(c, a), PageOf(a))
  {
    FreeMembers(c, a);
    forall q ensures Linked(Free(c, a), q) == Linked(c, q) {
      FreeCounts(c, a, q);
    }
  }

  /** Freeing a live object keeps the cache in order if and only if its slab has room
      for two objects or is the head of the full list. */
  lemma FreeOkIff(c: Cache, live: set<nat>, a: nat)
    requires CacheOk(c, live) && a in live
    ensures PageOf(a) in c.slabs && (PageOf(a) in c.full || PageOf(a) in c.partial)
    ensures CacheOk(Free(c, a), live - {a}) <==> Capacity(c.size) >= 2 || c.full[0] == PageOf(a)
  {
    LiveSlab(c, live, a);
    if Capacity(c.size) >= 2 || c.full[0] == PageOf(a) {
      FreeOk(c, live, a);
    } else {
      SingleStaysLinked(c, live, a);
    }
  }

  lemma FreeOk(c: Cache, live: set<nat>, a: nat)
    requires CacheOk(c, live) && a in live && PageOf(a) in c.slabs
    requires Capacity(c.size) >= 2 || (c.full != [] && c.full[0] == PageOf(a))
    ensures CacheOk(Free(c, a), live - {a})
  {
    var p := PageOf(a);
    FreeSuits(c, live, a);
    FreeMoves(c, a);
    ReturnedOk(p, c.size, c.slabs[p], a, live);
    MovedOk(c, live, Free(c, a), live - {a}, p);
  }

  /** A one-object slab that is not the head of the full list ends up on two lists. */
  lemma SingleStaysLinked(c: Cache, live: set<nat>, a: nat)
    requires CacheOk(c, live) && a in live && PageOf(a) in c.slabs
    requires Capacity(c.size) == 1 && (c.full == [] || c.full[0] != PageOf(a))
    ensures PageOf(a) in Free(c, a).full && PageOf(a) in Free(c, a).unused
    ensures Linked(Free(c, a), PageOf(a)) >= 2
  {
    var p := PageOf(a);
    LiveSlab(c, live, a);
    assert SlabOk(p, c.size, c.slabs[p], live);
    ReturnedOk(p, c.size, c.slabs[p], a, live);
    var c' := Free(c, a);
    assert c'.full[IndexOf(c.full, p)] == p && c'.unused[0] == p;
  }

  lemma Partition(all: set<nat>, some: set<nat>, rest: set<nat>)
    requires forall a :: a in all <==> a in some || a in rest
    requires forall a :: !(a in some && a in rest)
    ensures |all| == |some| + |rest|
  {
    assert all == some + rest && some !! rest;
  }

  /** inuse is the number of live objects in the slab. */
  lemma InuseCounts(c: Cache, live: set<nat>, p: nat)
    requires CacheOk(c, live) && p in c.slabs
    ensures c.slabs[p].inuse == |set a | a in live && PageOf(a) == p|
  {
    var st, mine := c.slabs[p], set a | a in live && PageOf(a) == p;
    SlotsInPage(p, c.size);
    ElementCount(Slots(p, c.size));
    ElementCount(st.list);
    Partition(Elements(Slots(p, c.size)), Elements(st.list), mine);
  }

  lemma SlotUnaligned(p: nat, size: nat, a: nat)
    requires 0 < size && p % PAGE_SIZE == 0 && a in Slots(p, size)
    ensures PageOf(a) == p && p + SLAB_HEADER <= a && a + size <= p + PAGE_SIZE && a % PAGE_SIZE != 0
  {
    var i :| 0 <= i < Capacity(size) && Slots(p, size)[i] == a;
    SlotInside(p, size, i);
  }

  /** A live object is a slot of the slab that masking its address gives. */
  lemma LiveSlot(c: Cache, live: set<nat>, a: nat)
    requires SlabsOk(c, live) && a in live
    ensures PageOf(a) in c.slabs && a in Slots(PageOf(a), c.size) && a % PAGE_SIZE != 0
    ensures PageOf(a) + SLAB_HEADER <= a && a + c.size <= PageOf(a) + PAGE_SIZE
  {
    var p := PageOf(a);
    assert SlabOk(p, c.size, c.slabs[p], live);
    SlotUnaligned(p, c.size, a);
  }

  lemma {:induction false} CountAt(s: seq<nat>, i: nat, j: nat)
    requires i < j < |s| && s[i] == s[j]
    ensures Count(s, s[i]) >= 2
  {
    if i > 0 {
      CountAt(s[1..], i - 1, j - 1);
    }
  }

  /** The three lists have no slab in common, and no slab twice. */
  lemma ListsApart(c: Cache)
    requires 0 < c.size && ListsOk(c)
    ensures NoRepeats(c.full) && NoRepeats(c.partial) && NoRepeats(c.unused)
    ensures forall p :: p in c.full ==> p !in c.partial && p !in c.unused
    ensures forall p :: p in c.partial ==> p !in c.unused
  {
    forall p | p in c.full || p in c.partial ensures p in c.full ==> p !in c.partial ensures p !in c.unused {
      assert Linked(c, p) == 1;
    }
    OnceEach(c, c.full);
    OnceEach(c, c.partial);
    OnceEach(c, c.unused);
  }

  lemma OnceEach(c: Cache, s: seq<nat>)
    requires 0 < c.size && ListsOk(c) && (s == c.full || s == c.partial || s == c.unused)
    ensures NoRepeats(s)
  {
    forall i, j | 0 <= i < j < |s| ensures s[i] != s[j] {
      assert Linked(c, s[i]) <= 1;
      if s[i] == s[j] { CountAt(s, i, j); assert false; }
    }
  }

  /** free in two parts. */
  lemma FreeInParts(c: Cache, a: nat, c1: Cache, inuse: int, free: int)
    requires PageOf(a) in c.slabs
    requires inuse == c.slabs[PageOf(a)].inuse - 1 && free == c.slabs[PageOf(a)].free + 1
    requires c1 == c.(slabs := c.slabs[PageOf(a) := Returned(c.slabs[PageOf(a)], a)])
    ensures Refile(c1, PageOf(a), inuse, free) == Free(c, a)
  {
  }

  /** alloc in two parts. */
  lemma TakeInParts(c: Cache, c1: Cache, n: int)
    requires CanTake(c) && n == c.slabs[Chosen(c)].free - 1
    requires c1 == c.(slabs := c.slabs[Chosen(c) := Taken(c.slabs[Chosen(c)])])
    ensures Relink(c1, n) == Take(c)
  {
  }

  // --------------------------------------------------------- slabs of one object each

  lemma NoneListed(s: seq<nat>)
    ensures s == [] || exists p :: p in s
  {
    if s != [] { assert s[0] in s; }
  }

  /** A cache in order is in order as far as callers can tell. */
  lemma OkIsSound(c: Cache, live: set<nat>)
    requires CacheOk(c, live)
    ensures Sound(c, live)
  {
    ListsApart(c);
    if Capacity(c.size) == 1 {
      NoneListed(c.partial);
      forall p ensures p in c.unused <==> p in c.slabs && c.slabs[p].free == 1 {
        assert Linked(c, p) == if p in c.slabs then 1 else 0;
      }
    }
  }

  lemma SoundIsOk(c: Cache, live: set<nat>)
    requires Sound(c, live) && Capacity(c.size) >= 2
    ensures CacheOk(c, live)
  {
  }

  lemma SuppliedSound(c: Cache, page: nat, live: set<nat>)
    requires Sound(c, live)
    requires NeedsPage(c) ==> page % PAGE_SIZE == 0 && page !in c.slabs
    ensures Sound(Supplied(c, page), live) && CanTake(Supplied(c, page))
  {
    if Capacity(c.size) >= 2 {
      SuppliedOk(c, page, live);
      OkIsSound(Supplied(c, page), live);
    } else if NeedsPage(c) {
      NewSlabOk(page, c.size, live);
    } else {
      assert c.unused[0] in c.unused;
    }
  }

  lemma TakeSingle(c: Cache, live: set<nat>)
    requires Sound(c, live) && Capacity(c.size) == 1 && CanTake(c)
    ensures SingleOk(Take(c))
  {
    var p, c' := Chosen(c), Take(c);
    assert p in c.unused && c.unused == [p] + c.unused[1..];
    assert c'.unused == c.unused[1..] && c'.slabs[p].free == 0;
  }

  /** A new page is asked for exactly when every slot of every slab is live. */
  lemma NeedsPageIff(c: Cache, live: set<nat>)
    requires Sound(c, live)
    ensures NeedsPage(c) <==> forall p, a :: p in c.slabs && a in Slots(p, c.size) ==> a in live
  {
    if NeedsPage(c) {
      forall p, a | p in c.slabs && a in Slots(p, c.size) ensures a in live {
        assert SlabOk(p, c.size, c.slabs[p], live);
        NoFreeSlot(c, live, p);
      }
    } else {
      var p := Chosen(c);
      assert p in c.partial || p in c.unused;
      assert SlabOk(p, c.size, c.slabs[p], live);
      assert c.slabs[p].list[0] in c.slabs[p].list && c.slabs[p].list[0] in Slots(p, c.size);
    }
  }

  /** A slab that is not in use is opened only when no slab has both live and free objects. */
  lemma TakesFromPartial(c: Cache, live: set<nat>, p: nat)
    requires Sound(c, live) && CanTake(c) && p in c.slabs && c.slabs[p].inuse > 0 && c.slabs[p].free > 0
    ensures PageOf(Handed(c)) in c.slabs && c.slabs[PageOf(Handed(c))].inuse > 0
  {
    TakeSound(c, live);
    assert SlabOk(p, c.size, c.slabs[p], live);
    assert SlabOk(Chosen(c), c.size, c.slabs[Chosen(c)], live);
    assert Linked(c, p) > 0 ==> p in c.full || p in c.partial || p in c.unused;
  }

  lemma NoFreeSlot(c: Cache, live: set<nat>, p: nat)
    requires Sound(c, live) && NeedsPage(c) && p in c.slabs
    ensures c.slabs[p].list == []
  {
    assert SlabOk(p, c.size, c.slabs[p], live);
    if Capacity(c.size) >= 2 {
      assert Linked(c, p) == 1 && p in c.full;
    } else {
      assert p !in c.unused;
      if c.slabs[p].list != [] {
        ElementCount(c.slabs[p].list);
        ElementCount(Slots(p, c.size));
        SubsetSize(Elements(c.slabs[p].list), Elements(Slots(p, c.size)));
        assert false;
      }
    }
  }

  /** alloc hands out a slot that was not live and keeps the cache sound. */
  lemma TakeSound(c: Cache, live: set<nat>)
    requires Sound(c, live) && CanTake(c)
    ensures Handed(c) !in live && PageOf(Handed(c)) == Chosen(c) && Handed(c) in Slots(Chosen(c), c.size)
    ensures Sound(Take(c), live + {Handed(c)})
  {
    if Capacity(c.size) >= 2 {
      TakeOk(c, live);
      OkIsSound(Take(c), live + {Handed(c)});
    } else {
      TakeSingle(c, live);
      TakenOk(Chosen(c), c.size, c.slabs[Chosen(c)], live);
      assert Handed(c) in c.slabs[Chosen(c)].list;
      OthersOk(c, Chosen(c), live, live + {Handed(c)});
    }
  }

  lemma FreeSingle(c: Cache, live: set<nat>, a: nat)
    requires Sound(c, live) && Capacity(c.size) == 1 && a in live
    ensures PageOf(a) in c.slabs && PageOf(a) !in c.unused && c.slabs[PageOf(a)].inuse == 1
    ensures SingleOk(Free(c, a)) && Free(c, a).unused == [PageOf(a)] + c.unused
  {
    var p := PageOf(a);
    ReturnedOk(p, c.size, c.slabs[p], a, live);
    assert c.slabs[p].free == 0;
  }

  /** free of any live object keeps the cache sound. */
  lemma FreeSound(c: Cache, live: set<nat>, a: nat)
    requires Sound(c, live) && a in live
    ensures PageOf(a) in c.slabs && Sound(Free(c, a), live - {a})
  {
    var p := PageOf(a);
    if Capacity(c.size) >= 2 {
      FreeOk(c, live, a);
      OkIsSound(Free(c, a), live - {a});
    } else {
      FreeSingle(c, live, a);
      ReturnedOk(p, c.size, c.slabs[p], a, live);
      OthersOk(c, p, live, live - {a});
    }
  }
}
