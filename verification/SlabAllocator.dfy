/** The slab cache as linked slab pages in memory, proved against the cache of values. */
module SlabAllocator {
  import opened Slab
  import opened Sequences

  // ------------------------------------------------------------------------- chains

  /** Links between addresses; 0 is the null pointer. */
  type Links = map<nat, nat>

  /** What comes after element i, the head for i == -1. */
  function Follow(list: seq<nat>, i: int): nat
    requires -1 <= i < |list|
  {
    if i + 1 < |list| then list[i + 1] else 0
  }

  /** Following the links from head visits exactly these addresses. */
  ghost predicate Chain(head: nat, list: seq<nat>, links: Links) {
    && head == Follow(list, -1)
    && forall i: nat {:trigger Follow(list, i)} :: i < |list| ==>
         list[i] != 0 && list[i] in links && links[list[i]] == Follow(list, i)
  }

  lemma ChainHead(head: nat, list: seq<nat>, links: Links)
    requires Chain(head, list, links)
    ensures head == 0 <==> list == []
  {
    var second := if list == [] then 0 else Follow(list, 0);
  }

  lemma ChainMember(head: nat, list: seq<nat>, links: Links, p: nat)
    requires Chain(head, list, links) && p in list
    ensures p != 0 && p in links
  {
    var i :| 0 <= i < |list| && list[i] == p;
    var after := Follow(list, i);
  }

  lemma ChainSame(head: nat, list: seq<nat>, links: Links, links': Links)
    requires Chain(head, list, links)
    requires forall i :: 0 <= i < |list| && list[i] in links ==> list[i] in links' && links'[list[i]] == links[list[i]]
    ensures Chain(head, list, links')
  {
    forall i: nat | i < |list| ensures list[i] != 0 && list[i] in links' && links'[list[i]] == Follow(list, i) {
      var after := Follow(list, i);
      assert list[i] in links && links[list[i]] == after;
    }
  }

  lemma ChainFrame(head: nat, list: seq<nat>, links: Links, a: nat, to: nat)
    requires Chain(head, list, links) && a !in list
    ensures Chain(head, list, links[a := to])
  {
    ChainSame(head, list, links, links[a := to]);
  }

  lemma ChainRest(list: seq<nat>, links: Links)
    requires list != [] && Chain(list[0], list, links)
    ensures list[0] != 0 && list[0] in links && Chain(links[list[0]], list[1..], links)
  {
    var second, l := Follow(list, 0), list[1..];
    forall i: nat | i < |l| ensures l[i] != 0 && l[i] in links && links[l[i]] == Follow(l, i) {
      assert Follow(list, i + 1) == Follow(l, i);
    }
  }

  lemma ChainFront(head: nat, list: seq<nat>, links: Links, a: nat)
    requires Chain(head, list, links) && a !in list && a != 0
    ensures Chain(a, [a] + list, links[a := head])
  {
    var l, w := [a] + list, links[a := head];
    forall i: nat | i < |l| ensures l[i] != 0 && l[i] in w && w[l[i]] == Follow(l, i) {
      assert i > 0 ==> Follow(list, i - 1) == Follow(l, i);
    }
  }

  /** The link that leads to element k now leads past it. */
  lemma Bypassed(list: seq<nat>, links: Links, k: nat)
    requires k < |list| && Chain(list[0], list, links) && NoRepeats(list)
    ensures list[k] in links
    ensures k == 0 ==> Chain(links[list[0]], list[1..], links)
    ensures k > 0 ==> Chain(list[0], list[..k] + list[k + 1..], links[list[k - 1] := links[list[k]]])
  {
    if k == 0 {
      ChainRest(list, links);
    } else {
      var past, l := Follow(list, k), list[..k] + list[k + 1..];
      var w := links[list[k - 1] := links[list[k]]];
      forall i: nat | i < |l| ensures l[i] != 0 && l[i] in w && w[l[i]] == Follow(l, i) {
        if i < k {
          assert Follow(list, i) == list[i + 1];
        } else {
          assert Follow(list, i + 1) == Follow(l, i);
        }
      }
    }
  }

  /** A list whose element k leads to another list runs on into it. */
  lemma RunsOn(list: seq<nat>, links: Links, k: nat, to: nat, other: seq<nat>)
    requires k < |list| && Chain(list[0], list, links) && NoRepeats(list)
    requires Chain(to, other, links) && list[k] !in other
    ensures Chain(list[0], list[..k + 1] + other, links[list[k] := to])
  {
    var l, w := list[..k + 1] + other, links[list[k] := to];
    forall i: nat | i < |l| ensures l[i] != 0 && l[i] in w && w[l[i]] == Follow(l, i) {
      if i <= k {
        assert Follow(list, i) == if i + 1 < |list| then list[i + 1] else 0;
      } else {
        assert Follow(other, i - k - 1) == Follow(l, i);
      }
    }
  }

  /** Take p out of a list by walking to the link that leads to it. */
  method Unlink(head: nat, p: nat, links: Links, ghost list: seq<nat>)
    returns (head': nat, links': Links, found: bool)
    requires Chain(head, list, links) && NoRepeats(list)
    ensures found <==> p in list
    ensures !found ==> head' == head && links' == links
    ensures found ==> Chain(head', Unlinked(list, p), links')
    ensures links'.Keys == links.Keys && forall q :: q in links && q !in list ==> links'[q] == links[q]
    ensures p in links ==> links'[p] == links[p]
  {
    var prev, cur := 0, head;
    ghost var k := 0;
    while cur != 0 && cur != p
      invariant k <= |list| && cur == Follow(list, k - 1)
      invariant prev == if k == 0 then 0 else list[k - 1]
      invariant p !in list[..k]
      decreases |list| - k
    {
      ghost var after := Follow(list, k);
      prev, cur, k := cur, links[cur], k + 1;
    }
    ghost var after := if k < |list| then Follow(list, k) else 0;
    if cur == 0 {
      assert list[..k] == list;
      return head, links, false;
    }
    Bypassed(list, links, k);
    assert IndexOf(list, p) == k && (k == 0 ==> Unlinked(list, p) == list[1..]);
    if prev == 0 {
      return links[p], links, true;
    } else {
      return head, links[prev := links[p]], true;
    }
  }

  // -------------------------------------------------------------------- a slab page

  /** The header at the start of a slab page, without its `next`, and the link that each
      free object of the page keeps in its first word. */
  datatype Header = Header(inuse: int, free: int, freelist: nat, words: Links)

  ghost predicate HeaderOk(h: Header, st: SlabPage) {
    h.inuse == st.inuse && h.free == st.free && Chain(h.freelist, st.list, h.words)
  }

  /** Slot j links to slot j + 1. */
  predicate LinkedSlot(page: nat, size: nat, words: Links, j: nat) {
    SlotAddress(page, size, j) in words && words[SlotAddress(page, size, j)] == SlotAddress(page, size, j + 1)
  }

  /** Writing the word of slot i leaves the earlier links alone; with the address one
      size on it is a link too. */
  lemma SetSlot(page: nat, size: nat, words: Links, i: nat, w: nat)
    requires 0 < size && forall j: nat :: j < i ==> LinkedSlot(page, size, words, j)
    ensures
      var words' := words[SlotAddress(page, size, i) := w];
      && (forall j: nat :: j < i ==> LinkedSlot(page, size, words', j))
      && (w == SlotAddress(page, size, i) + size ==> LinkedSlot(page, size, words', i))
    ensures SlotAddress(page, size, i + 1) == SlotAddress(page, size, i) + size
  {
    var words' := words[SlotAddress(page, size, i) := w];
    forall j: nat | j < i ensures LinkedSlot(page, size, words', j) {
      SlotsApart(page, size, j, i);
      assert LinkedSlot(page, size, words, j);
    }
  }

  lemma LinkedSlots(page: nat, size: nat, words: Links)
    requires 0 < size && Capacity(size) > 0
    requires forall j: nat :: j < Capacity(size) - 1 ==> LinkedSlot(page, size, words, j)
    requires var last := SlotAddress(page, size, Capacity(size) - 1); last in words && words[last] == 0
    ensures Chain(SlotAddress(page, size, 0), Slots(page, size), words)
  {
    var list := Slots(page, size);
    forall i: nat | i < |list| ensures list[i] != 0 && list[i] in words && words[list[i]] == Follow(list, i) {
      if i + 1 < |list| {
        assert LinkedSlot(page, size, words, i);
      }
    }
  }

  /** create_slab: every slot of the page on the free list, in order. */
  method CreateSlab(page: nat, size: nat) returns (h: Header)
    requires 0 < size && Capacity(size) > 0
    ensures HeaderOk(h, NewSlab(page, size))
  {
    var n := Capacity(size);
    var obj := page + SLAB_HEADER;
    var words: Links, i := map[], 0;
    while i < n - 1
      invariant 0 <= i <= n - 1 && obj == SlotAddress(page, size, i)
      invariant forall j: nat :: j < i ==> LinkedSlot(page, size, words, j)
    {
      SetSlot(page, size, words, i, obj + size);
      words := words[obj := obj + size];
      obj := obj + size;
      i := i + 1;
    }
    SetSlot(page, size, words, i, 0);
    words := words[obj := 0];
    LinkedSlots(page, size, words);
    h := Header(0, n, page + SLAB_HEADER, words);
  }

  // ---------------------------------------------------------------------- the cache

  class SlabCache {
    const size: nat
    var slabsFull: nat
    var slabsPartial: nat
    var slabsFree: nat
    /** The headers of the pages that the cache has taken, and their `next` fields. */
    var headers: map<nat, Header>
    var next: Links
    ghost var now: Cache
    /** The full list is still a list: no one-object slab has been freed behind its head. */
    ghost var listed: bool

    constructor (size: nat)
      requires 0 < size && Capacity(size) > 0
      ensures Valid() && listed && this.size == size && now == Cache(size, [], [], [], map[])
    {
      this.size := size;
      slabsFull, slabsPartial, slabsFree, headers, next := 0, 0, 0, map[], map[];
      now := Cache(size, [], [], [], map[]);
      listed := true;
    }

    ghost predicate FullOk()
      reads `slabsFull, `now, `next
    {
      Chain(slabsFull, now.full, next)
    }

    ghost predicate ChainsOk()
      reads `slabsPartial, `slabsFree, `now, `next
    {
      Chain(slabsPartial, now.partial, next) && Chain(slabsFree, now.unused, next)
    }

    ghost predicate HeadersOk()
      reads `headers, `now, `next
    {
      && headers.Keys == now.slabs.Keys == next.Keys && 0 !in headers
      && forall p :: p in headers ==> HeaderOk(headers[p], now.slabs[p])
    }

    /** The fields hold the cache `now`. */
    ghost predicate Shaped()
      reads this
    {
      && now.size == size && 0 < size && Capacity(size) > 0
      && (listed ==> FullOk()) && ChainsOk() && HeadersOk() && (Capacity(size) >= 2 ==> listed)
    }

    /** And its lists are in order as long as the full list is one. */
    ghost predicate Valid()
      reads this
    {
      Shaped() && (listed ==> ListsOk(now))
    }

    /** alloc, first part: a slab with a free object. */
    method Supply(page: nat) returns (slab: nat)
      requires Shaped() && (NeedsPage(now) ==> 0 < page && page !in headers && (listed ==> page !in now.full))
      modifies this`headers, this`next, this`slabsFree, this`now
      ensures Shaped() && now == Supplied(old(now), page)
      ensures !NeedsPage(now) && slab == Chosen(now)
    {
      ChainHead(slabsPartial, now.partial, next);
      ChainHead(slabsFree, now.unused, next);
      slab := if slabsPartial != 0 then slabsPartial else slabsFree;
      if slab == 0 { slab := AddSlab(page); }
    }

    /** A new slab becomes the only unused one. */
    method AddSlab(page: nat) returns (slab: nat)
      requires Shaped() && NeedsPage(now) && 0 < page && page !in headers && (listed ==> page !in now.full)
      modifies this`headers, this`next, this`slabsFree, this`now
      ensures Shaped() && now == Supplied(old(now), page) && slab == page
    {
      var h := CreateSlab(page, size);
      if listed { ChainFrame(slabsFull, now.full, next, page, 0); }
      headers, next := headers[page := h], next[page := 0];
      slab, slabsFree := page, page;
      now := Supplied(now, page);
    }

    /** alloc, second part: the first free object of the slab. */
    method TakeObject(slab: nat) returns (obj: nat)
      requires Shaped() && slab in now.slabs && now.slabs[slab].list != []
      modifies this`headers, this`now
      ensures Shaped() && now == old(now).(slabs := old(now).slabs[slab := Taken(old(now).slabs[slab])])
      ensures obj == old(now).slabs[slab].list[0] && obj != 0
    {
      var h := headers[slab];
      ChainRest(now.slabs[slab].list, h.words);
      obj := h.freelist;
      headers := headers[slab := Header(h.inuse + 1, h.free - 1, h.words[obj], h.words)];
      now := now.(slabs := now.slabs[slab := Taken(now.slabs[slab])]);
    }

    /** The last object of the slab has been taken: it goes in front of the full list. */
    method ToFull(slab: nat)
      requires Shaped() && !NeedsPage(now) && slab == Chosen(now) && slab in headers && headers[slab].free == 0
      requires ChosenOnce(now, listed)
      modifies this`slabsFull, this`slabsPartial, this`slabsFree, this`next, this`now
      ensures Shaped() && now == Relink(old(now), 0)
    {
      ChainHead(slabsPartial, now.partial, next);
      ChainHead(slabsFree, now.unused, next);
      if slab == slabsPartial {
        if listed {
          MovedFront(now.partial, now.full, slabsFull, now.unused, slabsFree, next);
        } else {
          Popped(now.partial, now.unused, slabsFree, next, slabsFull);
        }
        slabsPartial := next[slab];
      } else {
        if listed {
          MovedFront(now.unused, now.full, slabsFull, now.partial, slabsPartial, next);
        } else {
          Popped(now.unused, now.partial, slabsPartial, next, slabsFull);
        }
        slabsFree := next[slab];
      }
      next := next[slab := slabsFull];
      slabsFull := slab;
      now := Relink(now, 0);
    }

    /** alloc, third part: the slab goes to the list that its counters now call for. */
    method Settle(slab: nat)
      requires Shaped() && !NeedsPage(now) && slab == Chosen(now) && slab in headers && ChosenOnce(now, listed)
      requires headers[slab].free != 0 ==> listed
      modifies this`slabsFull, this`slabsPartial, this`slabsFree, this`next, this`now
      ensures Shaped() && now == Relink(old(now), headers[slab].free)
    {
      if headers[slab].free == 0 {
        ToFull(slab);
        return;
      }
      ChainHead(slabsPartial, now.partial, next);
      ChainHead(slabsFree, now.unused, next);
      if slab == slabsFree {
        MovedFront(now.unused, now.partial, slabsPartial, now.full, slabsFull, next);
        slabsFree := next[slab];
        next := next[slab := slabsPartial];
        slabsPartial := slab;
      }
      now := Relink(now, headers[slab].free);
    }

    /** alloc on the linked slabs. */
    method AllocLinked(page: nat) returns (obj: nat)
      requires Shaped() && (NeedsPage(now) ==> 0 < page && page !in headers && (listed ==> page !in now.full))
      requires var c := Supplied(now, page);
               CanTake(c) && ChosenOnce(c, listed) && (c.slabs[Chosen(c)].free != 1 ==> listed)
      modifies this`headers, this`next, this`slabsFull, this`slabsPartial, this`slabsFree, this`now
      ensures Shaped() && obj != 0
      ensures var c := Supplied(old(now), page); now == Take(c) && obj == Handed(c)
    {
      ghost var c := Supplied(now, page);
      var slab := Supply(page);
      obj := TakeObject(slab);
      TakeInParts(c, now, headers[slab].free);
      Settle(slab);
    }

    /** SlabCache::alloc. The page is taken only if no slab has a free object; the object
        handed out is never null and was not live. */
    method Alloc(page: nat, ghost live: set<nat>) returns (obj: nat)
      requires Valid() && Sound(now, live)
      requires NeedsPage(now) ==> 0 < page && page % PAGE_SIZE == 0 && page !in headers
      modifies this
      ensures Valid() && listed == old(listed) && obj != 0 && obj !in live
      ensures var c := Supplied(old(now), page); CanTake(c) && now == Take(c) && obj == Handed(c)
    {
      AllocReady(now, page, live, listed);
      obj := AllocLinked(page);
    }

    /** free, first part: the object goes in front of the free list of its slab. */
    method PutObject(slab: nat, obj: nat)
      requires Shaped() && slab in now.slabs && obj != 0 && obj !in now.slabs[slab].list
      modifies this`headers, this`now
      ensures Shaped() && now == old(now).(slabs := old(now).slabs[slab := Returned(old(now).slabs[slab], obj)])
    {
      var h := headers[slab];
      ChainFront(h.freelist, now.slabs[slab].list, h.words, obj);
      headers := headers[slab := Header(h.inuse - 1, h.free + 1, obj, h.words[obj := h.freelist])];
      now := now.(slabs := now.slabs[slab := Returned(now.slabs[slab], obj)]);
    }

    /** Where free of an object of the slab looks for it. */
    ghost predicate Placed(slab: nat)
      reads this
    {
      if listed then ListsDisjoint(now) && (slab in now.full || slab in now.partial)
      else now.partial == [] && slab !in now.unused
    }

    /** free, second part, for a slab with no object in use any more. */
    method ToUnused(slab: nat)
      requires Shaped() && Placed(slab) && slab in headers && headers[slab].inuse == 0
      modifies this`slabsFull, this`slabsPartial, this`slabsFree, this`next, this`now
      ensures Shaped() && now == Refile(old(now), slab, 0, headers[slab].free)
    {
      ghost var c := now;
      if slab == slabsFull {
        if listed {
          ChainHead(slabsFull, now.full, next);
          MovedFront(now.full, now.unused, slabsFree, now.partial, slabsPartial, next);
        } else {
          PushedUnused(c, slab, slabsPartial, slabsFree, next);
        }
        slabsFull := next[slab];
      } else {
        var partial', next', found := Unlink(slabsPartial, slab, next, now.partial);
        if !listed {
          PushedUnused(c, slab, slabsPartial, slabsFree, next);
        } else if found {
          MovedInner(c.partial, partial', slab, c.unused, slabsFree, c.full, slabsFull, next, next');
        } else {
          Stuck(c, slab, slabsFull, slabsPartial, slabsFree, next);
        }
        slabsPartial, next := partial', next';
      }
      next := next[slab := slabsFree];
      slabsFree := slab;
      now := Refile(now, slab, 0, headers[slab].free);
    }

    /** free, second part, for a slab that was full. */
    method ToPartial(slab: nat)
      requires Shaped() && listed && ListsDisjoint(now) && slab in headers
      requires headers[slab].inuse != 0 && headers[slab].free == 1 && (slab in now.full || slab in now.partial)
      modifies this`slabsFull, this`slabsPartial, this`next, this`now
      ensures Shaped() && now == Refile(old(now), slab, headers[slab].inuse, 1)
    {
      var full', next', found := Unlink(slabsFull, slab, next, now.full);
      if found {
        MovedInner(now.full, full', slab, now.partial, slabsPartial, now.unused, slabsFree, next, next');
        slabsFull := full';
        next := next'[slab := slabsPartial];
        slabsPartial := slab;
      }
      now := Refile(now, slab, headers[slab].inuse, 1);
    }

    /** free on the linked slabs. While the full list is one, the list in memory is the one
        that is computed, even if it runs on into the unused list. */
    method FreeLinked(ptr: nat, ghost live: set<nat>)
      requires Valid() && Sound(now, live) && ptr in live
      modifies this`headers, this`next, this`slabsFull, this`slabsPartial, this`slabsFree, this`now
      ensures Shaped() && PageOf(ptr) in old(now).slabs && now == Slab.Free(old(now), ptr)
    {
      var slab := PageOf(ptr);
      ghost var c := now;
      FreeReady(c, live, ptr, listed);
      PutObject(slab, ptr);
      FreeInParts(c, ptr, now, headers[slab].inuse, headers[slab].free);
      if headers[slab].inuse == 0 {
        ToUnused(slab);
      } else if headers[slab].free == 1 {
        ToPartial(slab);
      }
    }

    /** SlabCache::free of any live object. The lists stay in order exactly when the slab has
        room for two objects or heads the full list. */
    method Free(ptr: nat, ghost live: set<nat>)
      requires Valid() && Sound(now, live) && ptr in live
      modifies this
      ensures Valid() && PageOf(ptr) in old(now).slabs && now == Slab.Free(old(now), ptr)
      ensures listed <==> old(listed) && (Capacity(size) >= 2 || old(slabsFull) == PageOf(ptr))
      ensures old(listed) ==> (ListsOk(now) <==> listed)
    {
      ghost var inOrder := listed && (Capacity(size) >= 2 || slabsFull == PageOf(ptr));
      FreeLists(now, live, ptr, listed);
      FreeLinked(ptr, live);
      listed := inOrder;
    }
  }

  /** What alloc relies on. */
  lemma AllocReady(c: Cache, page: nat, live: set<nat>, listed: bool)
    requires Sound(c, live) && (NeedsPage(c) ==> page % PAGE_SIZE == 0 && page !in c.slabs)
    requires (listed ==> ListsOk(c)) && (Capacity(c.size) >= 2 ==> listed)
    ensures var c1 := Supplied(c, page);
      && CanTake(c1) && ChosenOnce(c1, listed) && Handed(c1) !in live && (NeedsPage(c) && listed ==> page !in c.full)
      && (listed ==> ListsOk(Take(c1))) && (c1.slabs[Chosen(c1)].free != 1 ==> listed)
  {
    var c1 := Supplied(c, page);
    SuppliedSound(c, page, live);
    TakeSound(c1, live);
    if listed {
      SuppliedOk(c, page, live);
      TakeOk(c1, live);
      ListsApart(c1);
    } else {
      assert c1.unused == [c1.unused[0]] + c1.unused[1..];
      assert c1.unused[0] in c1.unused;
    }
  }

  /** What free relies on. */
  lemma FreeReady(c: Cache, live: set<nat>, a: nat, listed: bool)
    requires Sound(c, live) && (listed ==> ListsOk(c)) && (Capacity(c.size) >= 2 ==> listed) && a in live
    ensures var p := PageOf(a);
      && p in c.slabs && a != 0 && a !in c.slabs[p].list && (c.slabs[p].inuse != 1 ==> listed)
      && if listed then ListsDisjoint(c) && (p in c.full || p in c.partial) else c.partial == [] && p !in c.unused
  {
    LiveSlot(c, live, a);
    assert SlabOk(PageOf(a), c.size, c.slabs[PageOf(a)], live);
    if listed {
      FreeOkIff(c, live, a);
      ListsApart(c);
    } else {
      FreeSingle(c, live, a);
    }
  }

  lemma FreeLists(c: Cache, live: set<nat>, a: nat, listed: bool)
    requires Sound(c, live) && (listed ==> ListsOk(c)) && a in live
    ensures PageOf(a) in c.slabs
    ensures listed ==> Capacity(c.size) >= 2 || c.full != []
    ensures listed ==> (ListsOk(Slab.Free(c, a)) <==> Capacity(c.size) >= 2 || c.full[0] == PageOf(a))
  {
    FreeSound(c, live, a);
    if listed { FreeOkIff(c, live, a); }
  }

  /** The head of a list goes somewhere else; another list is not touched. */
  lemma Popped(from: seq<nat>, other: seq<nat>, otherHead: nat, links: Links, to: nat)
    requires from != [] && Chain(from[0], from, links) && from[0] !in from[1..]
    requires Chain(otherHead, other, links) && from[0] !in other
    ensures from[0] in links && Chain(links[from[0]], from[1..], links[from[0] := to])
    ensures Chain(otherHead, other, links[from[0] := to])
  {
    ChainRest(from, links);
    ChainFrame(links[from[0]], from[1..], links, from[0], to);
    ChainFrame(otherHead, other, links, from[0], to);
  }

  /** A slab in front of the unused list. */
  lemma PushedUnused(c: Cache, p: nat, partial: nat, unused: nat, links: Links)
    requires Chain(partial, c.partial, links) && Chain(unused, c.unused, links)
    requires p != 0 && p !in c.partial && p !in c.unused
    ensures Chain(partial, c.partial, links[p := unused]) && Chain(p, [p] + c.unused, links[p := unused])
  {
    ChainFrame(partial, c.partial, links, p, unused);
    ChainFront(unused, c.unused, links, p);
  }

  lemma UnlinkedIndices(list: seq<nat>, p: nat)
    requires NoRepeats(list) && p in list
    ensures p !in Unlinked(list, p)
  {
    var k, l := IndexOf(list, p), Unlinked(list, p);
    assert forall i :: 0 <= i < |l| ==> l[i] == if i < k then list[i] else list[i + 1];
  }

  /** An inner element p of one list, unlinked, becomes the head of another. */
  lemma MovedInner(from: seq<nat>, head': nat, p: nat, to: seq<nat>, toHead: nat,
                   third: seq<nat>, thirdHead: nat, links: Links, links': Links)
    requires NoRepeats(from) && p in from && p != 0 && Chain(head', Unlinked(from, p), links')
    requires links'.Keys == links.Keys && forall q :: q in links && q !in from ==> links'[q] == links[q]
    requires Chain(toHead, to, links) && forall q :: q in to ==> q !in from
    requires Chain(thirdHead, third, links) && forall q :: q in third ==> q !in from
    ensures Chain(head', Unlinked(from, p), links'[p := toHead])
    ensures Chain(p, [p] + to, links'[p := toHead])
    ensures Chain(thirdHead, third, links'[p := toHead])
  {
    UnlinkedIndices(from, p);
    ChainFrame(head', Unlinked(from, p), links', p, toHead);
    ChainSame(toHead, to, links, links');
    ChainSame(thirdHead, third, links, links');
    ChainFront(toHead, to, links', p);
    ChainFrame(thirdHead, third, links', p, toHead);
  }

  /** A slab that free does not find where it looks is relinked where it stands. */
  lemma Stuck(c: Cache, p: nat, full: nat, partial: nat, unused: nat, links: Links)
    requires Chain(full, c.full, links) && Chain(partial, c.partial, links) && Chain(unused, c.unused, links)
    requires ListsDisjoint(c) && p in c.full && p != 0
    ensures Chain(full, c.full[..IndexOf(c.full, p) + 1] + c.unused, links[p := unused])
    ensures Chain(partial, c.partial, links[p := unused])
    ensures Chain(p, [p] + c.unused, links[p := unused])
  {
    RunsOn(c.full, links, IndexOf(c.full, p), unused, c.unused);
    ChainFrame(partial, c.partial, links, p, unused);
    ChainFront(unused, c.unused, links, p);
  }

  /** No slab is twice in the three lists. */
  predicate ListsDisjoint(c: Cache) {
    && NoRepeats(c.full) && NoRepeats(c.partial) && NoRepeats(c.unused)
    && (forall p :: p in c.full ==> p !in c.partial && p !in c.unused)
    && (forall p :: p in c.partial ==> p !in c.unused)
  }

  /** The slab that alloc takes from is linked nowhere else. */
  predicate ChosenOnce(c: Cache, listed: bool)
    requires !NeedsPage(c)
  {
    var p := Chosen(c);
    && (listed ==> p !in c.full)
    && if c.partial != [] then p !in c.partial[1..] && p !in c.unused else p !in c.unused[1..]
  }

  /** The head of one list becomes the head of another; a third is not touched. */
  lemma MovedFront(from: seq<nat>, to: seq<nat>, toHead: nat, third: seq<nat>, thirdHead: nat, links: Links)
    requires from != [] && Chain(from[0], from, links) && from[0] !in from[1..]
    requires Chain(toHead, to, links) && from[0] !in to
    requires Chain(thirdHead, third, links) && from[0] !in third
    ensures from[0] in links
    ensures Chain(links[from[0]], from[1..], links[from[0] := toHead])
    ensures Chain(from[0], [from[0]] + to, links[from[0] := toHead])
    ensures Chain(thirdHead, third, links[from[0] := toHead])
  {
    ChainRest(from, links);
    ChainFrame(links[from[0]], from[1..], links, from[0], toHead);
    ChainFront(toHead, to, links, from[0]);
    ChainFrame(thirdHead, third, links, from[0], toHead);
  }
}
