/** The allocator and its zone as they run: free lists edited in place, proved
    against the functions of Buddy and the runs of BuddyRuns. */
module BuddyAllocator {
  import opened Bits
  import opened Sequences
  import opened Buddy
  import opened BuddyTiling
  import opened BuddyRuns
  import opened BuddyCoalescing

  const PAGE_INFO_SIZE: nat := 16

  /** order is the least one whose block holds n pages. */
  predicate IsBlockOrder(n: nat, order: nat) {
    n <= Pow2(order) && (order > 0 ==> Pow2(order - 1) < n)
  }

  /** How often a number can be halved until it is 0. */
  method CountHalvings(n: nat) returns (order: nat)
    ensures IsBlockOrder(n + 1, order)
  {
    order := 0;
    var rest := n;
    while rest > 0
      invariant rest * Pow2(order) <= n < (rest + 1) * Pow2(order)
      invariant order > 0 ==> Pow2(order - 1) < n + 1
    {
      HalvingStep(rest, Pow2(order), n);
      rest := rest / 2;
      order := order + 1;
    }
  }

  /** get_block_order, with the decrement of a 32-bit 0. */
  method GetBlockOrder(numPages: nat) returns (order: nat)
    requires numPages < WORD
    ensures if numPages == 0 then order == 32 else IsBlockOrder(numPages, order)
  {
    order := CountHalvings((numPages - 1) % WORD);
    if numPages == 0 { OrderOfWord(order); }
  }

  lemma OrderOfWord(order: nat)
    requires IsBlockOrder(WORD, order)
    ensures order == 32
  {
    Pow2Values();
    if order < 32 { Pow2Monotone(order, 31); }
    if order > 32 { Pow2Monotone(32, order - 1); }
  }

  lemma HalvingStep(rest: nat, p: nat, n: nat)
    requires 0 < rest && 0 < p && rest * p <= n < (rest + 1) * p
    ensures p <= n && (rest / 2) * (2 * p) <= n < (rest / 2 + 1) * (2 * p)
  {
    var h := rest / 2;
    var r := rest % 2;
    assert rest == 2 * h + r;
    assert rest * p == h * (2 * p) + r * p;
    assert rest * p >= p;
    assert (rest + 1) * p == rest * p + p;
    assert (h + 1) * (2 * p) == h * (2 * p) + 2 * p;
    assert r * p <= p;
  }

  lemma BlockOrderAtMost(n: nat, order: nat, bound: nat)
    requires IsBlockOrder(n, order) && n <= Pow2(bound)
    ensures order <= bound
  {
    if order > bound {
      Pow2Monotone(bound, order - 1);
      assert false;
    }
  }

  /** Bytes of page descriptors at the start of a region, rounded up to pages. */
  function InfoBytes(size: nat): nat {
    (size / PAGE_SIZE * PAGE_INFO_SIZE + PAGE_SIZE - 1) / PAGE_SIZE * PAGE_SIZE
  }

  /** Whole pages, room for a descriptor of every page of the region, and less than a page
      more. */
  lemma InfoBytesMeans(size: nat)
    ensures var needed := size / PAGE_SIZE * PAGE_INFO_SIZE;
            InfoBytes(size) % PAGE_SIZE == 0 && needed <= InfoBytes(size) < needed + PAGE_SIZE
  {
  }

  class BuddyAllocator {
    const memoryStart: nat
    const memorySize: nat
    const freeLists: array<seq<nat>>
    ghost const order: nat  // of the initial block

    ghost function Configured(): Config {
      Config(memoryStart, memorySize, order)
    }

    ghost predicate Valid() {
      freeLists.Length == MAX_ORDER + 1 && Configured().Valid()
    }

    constructor (startAddr: nat, size: nat)
      requires startAddr + size < WORD && InfoBytes(size) + PAGE_SIZE <= size
      ensures Valid() && fresh(freeLists)
      ensures memoryStart == startAddr + InfoBytes(size)
      ensures memorySize == size - InfoBytes(size)
      ensures IsBlockOrder(memorySize / PAGE_SIZE, order)
      ensures freeLists[..] == Start(Configured()).lists
    {
      memoryStart := startAddr + InfoBytes(size);
      memorySize := size - InfoBytes(size);
      var lists := new seq<nat>[MAX_ORDER + 1](_ => []);
      var first := GetBlockOrder((size - InfoBytes(size)) / PAGE_SIZE);
      Pow2Values();
      BlockOrderAtMost((size - InfoBytes(size)) / PAGE_SIZE, first, MAX_ORDER);
      lists[first] := [PhysToVirt(startAddr + InfoBytes(size))];
      freeLists := lists;
      order := first;
    }

    /** The physical address of a block of 2^order pages, or 0. */
    method AllocatePages(order: nat) returns (phys: nat)
      requires Valid()
      modifies freeLists
      ensures match Allocate(old(freeLists[..]), order)
              case None => phys == 0 && freeLists[..] == old(freeLists[..])
              case Some((lists, addr)) => phys == VirtToPhys(addr) && freeLists[..] == lists
    {
      if order > MAX_ORDER { return 0; }
      var current := FindList(order);
      if current > MAX_ORDER { return 0; }
      var block := freeLists[current][0];
      freeLists[current] := freeLists[current][1..];
      assert freeLists[..] == old(freeLists[..])[current := old(freeLists[..])[current][1..]];
      SplitDown(block, current, order);
      phys := VirtToPhys(block);
    }

    /** The first list of at least the order that is not empty. */
    method FindList(order: nat) returns (current: nat)
      requires Valid() && order <= MAX_ORDER
      ensures current == FirstNonEmpty(freeLists[..], order)
    {
      current := order;
      while current <= MAX_ORDER && freeLists[current] == []
        invariant order <= current <= MAX_ORDER + 1
        invariant FirstNonEmpty(freeLists[..], order) == FirstNonEmpty(freeLists[..], current)
      {
        current := current + 1;
      }
    }

    /** Split a block down to the order; the upper halves go to the lists. */
    method SplitDown(block: nat, from: nat, order: nat)
      requires Valid() && order <= from <= MAX_ORDER
      modifies freeLists
      ensures freeLists[..] == Split(old(freeLists[..]), block, from, order)
    {
      var current := from;
      while current > order
        invariant order <= current <= from
        invariant Split(freeLists[..], block, current, order) == Split(old(freeLists[..]), block, from, order)
      {
        current := current - 1;
        var buddy := (block + Size(current)) % WORD;
        ghost var before := freeLists[..];
        freeLists[current] := [buddy] + freeLists[current];
        assert freeLists[..] == Push(before, current, buddy);
      }
    }

    /** Unlink the buddy of a block if it is free at that order. */
    method TryMergeBuddy(addr: nat, order: nat) returns (merged: bool)
      requires Valid() && order <= MAX_ORDER
      modifies freeLists
      ensures merged == (BuddyOf(addr, order) in old(freeLists[order]))
      ensures freeLists[..] ==
              if merged then old(freeLists[..])[order := Unlinked(old(freeLists[order]), BuddyOf(addr, order))]
              else old(freeLists[..])
    {
      var buddy := BuddyOf(addr, order);
      var list := freeLists[order];
      var i := 0;
      while i < |list|
        invariant 0 <= i <= |list| && buddy !in list[..i]
        invariant freeLists[..] == old(freeLists[..])
      {
        if list[i] == buddy {
          UnlinkedAt(list, i);
          freeLists[order] := list[..i] + list[i + 1..];
          return true;
        }
        i := i + 1;
      }
      merged := false;
    }

    /** Addresses outside the region are ignored. */
    method FreePages(phys: nat, order: nat)
      requires Valid() && order <= MAX_ORDER && phys < WORD
      modifies freeLists
      ensures freeLists[..] == if memoryStart <= phys < memoryStart + memorySize && phys % PAGE_SIZE == 0
                               then Release(old(freeLists[..]), PhysToVirt(phys), order)
                               else old(freeLists[..])
    {
      if phys < memoryStart || phys >= memoryStart + memorySize || phys % PAGE_SIZE != 0 {
        return;
      }
      var virt := PhysToVirt(phys);
      var current := order;
      while current < MAX_ORDER
        invariant order <= current <= MAX_ORDER
        invariant Release(freeLists[..], virt, current) ==
                  Release(old(freeLists[..]), PhysToVirt(phys), order)
      {
        var buddy := BuddyOf(virt, current);
        var merged := TryMergeBuddy(virt, current);
        if !merged { break; }
        virt := if virt < buddy then virt else buddy;
        current := current + 1;
      }
      freeLists[current] := [virt] + freeLists[current];
    }
  }

  /** The allocator can get into state s. */
  ghost predicate Reached(cfg: Config, s: State)
    requires cfg.Valid()
  {
    exists ops :: Run(cfg, ops) == s
  }

  lemma ReachedNext(cfg: Config, s: State, op: Op)
    requires cfg.Valid() && Reached(cfg, s)
    ensures StateOk(s) && Reached(cfg, Step(cfg, s, op))
  {
    var ops :| Run(cfg, ops) == s;
    RunAppend(cfg, ops, op);
  }

  /** What a zone of so many pages lets through to its allocator: no more pages than it
      counts as free, and no block back that reaches past its end. */
  predicate ZoneAllows(cfg: Config, pages: nat, s: State, op: Op) {
    match op
    case Alloc(order) => Sum(s.live, PageCount()) + Pow2(order) <= pages
    case Free(i) =>
      i < |s.live| && VirtToPhys(s.live[i].addr) + Size(s.live[i].order) <= cfg.memoryStart + cfg.memorySize
  }

  function ZoneStep(cfg: Config, pages: nat, s: State, op: Op): (s': State)
    requires StateOk(s)
    ensures StateOk(s')
  {
    StepKeepsOk(cfg, s, op);
    if ZoneAllows(cfg, pages, s, op) then Step(cfg, s, op) else s
  }

  /** The state after any requests to a zone, the refused ones among them. */
  function ZoneAfter(cfg: Config, pages: nat, requests: seq<Op>): (s: State)
    requires cfg.Valid()
    ensures StateOk(s)
  {
    if requests == [] then Start(cfg)
    else ZoneStep(cfg, pages, ZoneAfter(cfg, pages, requests[..|requests| - 1]), requests[|requests| - 1])
  }

  /** Some requests bring a zone of so many pages into state s. */
  ghost predicate ZoneReached(cfg: Config, pages: nat, s: State)
    requires cfg.Valid()
  {
    exists requests :: ZoneAfter(cfg, pages, requests) == s
  }

  lemma ZoneReachedStart(cfg: Config, pages: nat)
    requires cfg.Valid()
    ensures ZoneReached(cfg, pages, Start(cfg))
  {
    assert ZoneAfter(cfg, pages, []) == Start(cfg);
  }

  lemma ZoneReachedNext(cfg: Config, pages: nat, s: State, op: Op)
    requires cfg.Valid() && ZoneReached(cfg, pages, s)
    ensures StateOk(s) && ZoneReached(cfg, pages, ZoneStep(cfg, pages, s, op))
  {
    var requests :| ZoneAfter(cfg, pages, requests) == s;
    assert (requests + [op])[..|requests|] == requests;
    assert ZoneAfter(cfg, pages, requests + [op]) == ZoneStep(cfg, pages, s, op);
  }

  /** The requests that go through are a run of the allocator. */
  lemma {:induction false} ZoneIsRun(cfg: Config, pages: nat, requests: seq<Op>)
    requires cfg.Valid()
    ensures Reached(cfg, ZoneAfter(cfg, pages, requests))
  {
    if requests == [] {
      assert Run(cfg, []) == Start(cfg);
    } else {
      var n := |requests| - 1;
      ZoneIsRun(cfg, pages, requests[..n]);
      ReachedNext(cfg, ZoneAfter(cfg, pages, requests[..n]), requests[n]);
    }
  }

  lemma ZoneIsReached(cfg: Config, pages: nat, s: State)
    requires cfg.Valid() && ZoneReached(cfg, pages, s)
    ensures Reached(cfg, s)
  {
    var requests :| ZoneAfter(cfg, pages, requests) == s;
    ZoneIsRun(cfg, pages, requests);
  }

  lemma BlockOrderUnique(n: nat, a: nat, b: nat)
    requires IsBlockOrder(n, a) && IsBlockOrder(n, b)
    ensures a == b
  {
    BlockOrderAtMost(n, a, b);
    BlockOrderAtMost(n, b, a);
  }

  /** The region that a zone gives to its allocator. */
  function ZoneConfig(startPfn: nat, endPfn: nat, order: nat): Config
    requires startPfn <= endPfn && InfoBytes((endPfn - startPfn) * PAGE_SIZE) <= (endPfn - startPfn) * PAGE_SIZE
  {
    var size := (endPfn - startPfn) * PAGE_SIZE;
    Config(startPfn * PAGE_SIZE + InfoBytes(size), size - InfoBytes(size), order)
  }

  /** The pages of a zone hold one page beyond their page information, and the initial block
      has this order and ends below 4 GB. */
  predicate ZoneFits(startPfn: nat, endPfn: nat, order: nat) {
    && startPfn <= endPfn
    && InfoBytes((endPfn - startPfn) * PAGE_SIZE) + PAGE_SIZE <= (endPfn - startPfn) * PAGE_SIZE
    && var cfg := ZoneConfig(startPfn, endPfn, order);
       IsBlockOrder(cfg.memorySize / PAGE_SIZE, order) && cfg.memoryStart + Size(order) <= WORD
  }

  lemma ZoneRegion(startPfn: nat, endPfn: nat, order: nat)
    requires 0 < startPfn && ZoneFits(startPfn, endPfn, order)
    ensures var cfg := ZoneConfig(startPfn, endPfn, order);
            && cfg.memoryStart + cfg.memorySize == endPfn * PAGE_SIZE && startPfn * PAGE_SIZE <= cfg.memoryStart
            && 0 < cfg.memoryStart && cfg.memoryStart % PAGE_SIZE == 0
  {
  }

  /** One memory zone: the page accounting around its allocator. */
  class Zone {
    const startPfn: nat
    const endPfn: nat
    var nrFreePages: nat
    const buddy: BuddyAllocator
    ghost var live: seq<Block>   // the blocks handed out and not yet taken back

    /** Requests have led to the state of the allocator, and every page of the zone is
        counted as free or belongs to a live block. */
    ghost predicate Valid()
      reads this, buddy.freeLists
    {
      && buddy.Valid()
      && startPfn <= endPfn && endPfn * PAGE_SIZE < WORD
      && buddy.memoryStart + buddy.memorySize == endPfn * PAGE_SIZE
      && startPfn * PAGE_SIZE <= buddy.memoryStart
      && 0 < buddy.memoryStart && buddy.memoryStart % PAGE_SIZE == 0
      && buddy.memoryStart + Size(buddy.order) <= WORD
      && ZoneReached(buddy.Configured(), endPfn - startPfn, State(buddy.freeLists[..], live))
      && nrFreePages + Sum(live, PageCount()) == endPfn - startPfn
    }

    /** The rounded-up initial block must still end below 4 GB. */
    constructor (startPfn: nat, endPfn: nat, ghost order: nat)
      requires 0 < startPfn && endPfn * PAGE_SIZE < WORD && ZoneFits(startPfn, endPfn, order)
      ensures Valid() && fresh(buddy.freeLists)
      ensures this.startPfn == startPfn && this.endPfn == endPfn && live == []
      ensures nrFreePages == endPfn - startPfn
    {
      this.startPfn := startPfn;
      this.endPfn := endPfn;
      nrFreePages := endPfn - startPfn;
      ZoneRegion(startPfn, endPfn, order);
      var allocator := new BuddyAllocator(startPfn * PAGE_SIZE, (endPfn - startPfn) * PAGE_SIZE);
      BlockOrderUnique(allocator.memorySize / PAGE_SIZE, order, allocator.order);
      assert allocator.Configured() == ZoneConfig(startPfn, endPfn, order);
      ZoneReachedStart(ZoneConfig(startPfn, endPfn, order), endPfn - startPfn);
      buddy := allocator;
      live := [];
    }

    method AllocPages(order: nat) returns (pfn: nat)
      requires Valid()
      modifies this, buddy.freeLists
      ensures Valid()
      ensures pfn == 0 <==> Pow2(order) > old(nrFreePages) || order > MAX_ORDER
                            || forall k :: order <= k <= MAX_ORDER ==> old(buddy.freeLists[k]) == []
      ensures if pfn == 0 then nrFreePages == old(nrFreePages) && live == old(live)
              else nrFreePages == old(nrFreePages) - Pow2(order)
                   && live == old(live) + [Block(PhysToVirt(pfn * PAGE_SIZE), order)]
    {
      pfn := 0;
      var count := Pow2(order);
      AllocateFailsIff(buddy.freeLists[..], order);
      if count <= nrFreePages {
        ghost var result := Allocate(buddy.freeLists[..], order);
        if result.Some? {
          ZoneAllocated(buddy.Configured(), endPfn - startPfn, State(buddy.freeLists[..], live), order,
                        result.value.0, result.value.1);
        }
        var phys := buddy.AllocatePages(order);
        if phys != 0 {
          nrFreePages := nrFreePages - count;
          pfn := phys / PAGE_SIZE;
          live := live + [Block(result.value.1, order)];
        }
      }
    }

    /** Take back the live block `which`; a block that reaches past the end of the
        zone is ignored. */
    method FreePages(pfn: nat, order: nat, ghost which: nat)
      requires Valid() && order <= MAX_ORDER && pfn * PAGE_SIZE < WORD
      requires which < |live| && live[which] == Block(PhysToVirt(pfn * PAGE_SIZE), order)
      modifies this, buddy.freeLists
      ensures Valid()
      ensures if pfn + Pow2(order) > endPfn
              then nrFreePages == old(nrFreePages) && live == old(live)
              else nrFreePages == old(nrFreePages) + Pow2(order) && live == RemoveAt(old(live), which)
    {
      ZoneFreed(buddy.Configured(), endPfn - startPfn, State(buddy.freeLists[..], live), which, pfn * PAGE_SIZE);
      var count := Pow2(order);
      if pfn < startPfn || pfn + count > endPfn { return; }
      buddy.FreePages(pfn * PAGE_SIZE, order);
      nrFreePages := nrFreePages + count;
      live := RemoveAt(live, which);
    }
  }

  lemma PhysicalRange(start: nat, size: nat, addr: nat)
    requires start + size <= WORD && addr < WORD && (addr - PhysToVirt(start)) % WORD < size
    ensures start <= VirtToPhys(addr) < start + size
    ensures addr % PAGE_SIZE == 0 ==> VirtToPhys(addr) % PAGE_SIZE == 0
  {
    var d := (addr - PhysToVirt(start)) % WORD;
    assert VirtToPhys(addr) == (start + d) % WORD;
  }

  /** The bytes of a live block lie in the initial block. */
  lemma LiveInside(cfg: Config, s: State, i: nat, x: nat)
    requires cfg.Valid() && Reached(cfg, s) && i < |s.live| && Covers(s.live[i].addr, s.live[i].order, x)
    ensures Covers(cfg.Base(), cfg.order, x)
  {
    var ops :| Run(cfg, ops) == s;
    RunTiles(cfg, ops, x);
    SumRemoveAt(s.live, i, CoverCount(x));
  }

  lemma LiveOnPages(cfg: Config, s: State, i: nat)
    requires cfg.Valid() && cfg.memoryStart % PAGE_SIZE == 0 && Reached(cfg, s) && i < |s.live|
    ensures s.live[i].addr % PAGE_SIZE == 0 && s.live[i].addr < WORD
        && Covers(s.live[i].addr, s.live[i].order, s.live[i].addr)
  {
    var ops :| Run(cfg, ops) == s;
    RunOnPages(cfg, ops);
  }

  /** The physical address of a live block lies in the initial block, on a page. */
  lemma LiveAddress(cfg: Config, s: State, i: nat)
    requires cfg.Valid() && cfg.memoryStart + Size(cfg.order) <= WORD && cfg.memoryStart % PAGE_SIZE == 0
    requires Reached(cfg, s) && i < |s.live|
    ensures var phys := VirtToPhys(s.live[i].addr);
            cfg.memoryStart <= phys < cfg.memoryStart + Size(cfg.order) && phys % PAGE_SIZE == 0
  {
    LiveOnPages(cfg, s, i);
    LiveInside(cfg, s, i, s.live[i].addr);
    PhysicalRange(cfg.memoryStart, Size(cfg.order), s.live[i].addr);
  }

  lemma RunAppend(cfg: Config, ops: seq<Op>, op: Op)
    requires cfg.Valid()
    ensures Run(cfg, ops + [op]) == Step(cfg, Run(cfg, ops), op)
  {
    assert (ops + [op])[..|ops|] == ops;
  }

  lemma AllocEffect(cfg: Config, s: State, order: nat)
    requires cfg.Valid() && cfg.memoryStart + Size(cfg.order) <= WORD && cfg.memoryStart % PAGE_SIZE == 0
    requires Reached(cfg, s) && Allocate(s.lists, order).Some?
    ensures var addr := Allocate(s.lists, order).value.1;
            && cfg.memoryStart <= VirtToPhys(addr) && PhysToVirt(VirtToPhys(addr)) == addr
            && VirtToPhys(addr) % PAGE_SIZE == 0
  {
    ReachedNext(cfg, s, Alloc(order));
    var s' := Step(cfg, s, Alloc(order));
    LiveAddress(cfg, s', |s.live|);
    MappedBack(s'.live[|s.live|].addr);
  }

  lemma WholePages(phys: nat)
    requires phys % PAGE_SIZE == 0
    ensures phys / PAGE_SIZE * PAGE_SIZE == phys
  {
  }

  /** A request that goes through. */
  lemma ZoneAllocated(cfg: Config, pages: nat, s: State, order: nat, lists: Lists, addr: nat)
    requires cfg.Valid() && cfg.memoryStart + Size(cfg.order) <= WORD && cfg.memoryStart % PAGE_SIZE == 0
    requires ZoneReached(cfg, pages, s) && Allocate(s.lists, order) == Some((lists, addr))
    requires Sum(s.live, PageCount()) + Pow2(order) <= pages
    ensures cfg.memoryStart <= VirtToPhys(addr) && PhysToVirt(VirtToPhys(addr) / PAGE_SIZE * PAGE_SIZE) == addr
    ensures VirtToPhys(addr) > 0 ==> VirtToPhys(addr) / PAGE_SIZE > 0
    ensures ZoneReached(cfg, pages, State(lists, s.live + [Block(addr, order)]))
    ensures Sum(s.live + [Block(addr, order)], PageCount()) == Sum(s.live, PageCount()) + Pow2(order)
  {
    ZoneIsReached(cfg, pages, s);
    AllocEffect(cfg, s, order);
    WholePages(VirtToPhys(addr));
    SumConcat(s.live, [Block(addr, order)], PageCount());
    ZoneReachedNext(cfg, pages, s, Alloc(order));
  }

  /** A live block that goes back, or is ignored because it reaches past the end. */
  lemma ZoneFreed(cfg: Config, pages: nat, s: State, i: nat, phys: nat)
    requires cfg.Valid() && cfg.memoryStart + Size(cfg.order) <= WORD && cfg.memoryStart % PAGE_SIZE == 0
    requires ZoneReached(cfg, pages, s) && i < |s.live| && s.live[i].addr == PhysToVirt(phys) && phys < WORD
    ensures StateOk(s) && cfg.memoryStart <= phys < cfg.memoryStart + Size(cfg.order) && phys % PAGE_SIZE == 0
    ensures phys + Size(s.live[i].order) <= cfg.memoryStart + cfg.memorySize ==>
            ZoneReached(cfg, pages, State(Release(s.lists, s.live[i].addr, s.live[i].order), RemoveAt(s.live, i)))
    ensures Sum(s.live, PageCount()) == Sum(RemoveAt(s.live, i), PageCount()) + Pow2(s.live[i].order)
  {
    ZoneIsReached(cfg, pages, s);
    LiveAddress(cfg, s, i);
    MappedBack(phys);
    SumRemoveAt(s.live, i, PageCount());
    ZoneReachedNext(cfg, pages, s, Free(i));
  }

  // -------------------------------------------------- two limits of the kernel's set-up

  /** A zone of so many pages can be in state s, in which live block i contains byte x. */
  ghost predicate HandsOut(cfg: Config, pages: nat, s: State, i: nat, x: nat)
    requires cfg.Valid()
  {
    ZoneReached(cfg, pages, s) && x < WORD && i < |s.live| && Covers(s.live[i].addr, s.live[i].order, x)
  }

  /** No requests make a zone hand out a byte outside the region given to its allocator. */
  ghost predicate StaysInRegion(cfg: Config, pages: nat)
    requires cfg.Valid()
  {
    forall s, i, x :: HandsOut(cfg, pages, s, i, x) ==>
      cfg.memoryStart <= VirtToPhys(x) < cfg.memoryStart + cfg.memorySize
  }

  /** Whatever a zone hands out and takes back, the initial block comes back whole. */
  ghost predicate ZoneRestores(cfg: Config, pages: nat)
    requires cfg.Valid()
  {
    forall s :: ZoneReached(cfg, pages, s) && s.live == [] ==> s.lists == Initial(cfg.Base(), cfg.order)
  }

  /** A region as a zone sets it up: its initial block is the least that holds it, it ends
      below 4 GB, and the zone counts at least its pages. */
  ghost predicate ZoneSetup(cfg: Config, pages: nat) {
    && cfg.Valid() && cfg.memoryStart % PAGE_SIZE == 0 && cfg.memoryStart + Size(cfg.order) <= WORD
    && IsBlockOrder(cfg.memorySize / PAGE_SIZE, cfg.order) && 0 < cfg.memorySize / PAGE_SIZE <= pages
  }

  lemma HandedOutInside(cfg: Config, pages: nat, s: State, i: nat, x: nat)
    requires cfg.Valid() && cfg.memoryStart + Size(cfg.order) <= WORD && HandsOut(cfg, pages, s, i, x)
    ensures cfg.memoryStart <= VirtToPhys(x) < cfg.memoryStart + Size(cfg.order)
  {
    assert Covers(cfg.Base(), cfg.order, x) by {
      ZoneIsReached(cfg, pages, s);
      LiveInside(cfg, s, i, x);
    }
    PhysicalRange(cfg.memoryStart, Size(cfg.order), x);
  }

  /** Two requests that a new zone lets through. */
  lemma TwoRequests(cfg: Config, pages: nat, s: State, a: Op, b: Op)
    requires cfg.Valid() && s == Step(cfg, Start(cfg), a)
    requires ZoneAllows(cfg, pages, Start(cfg), a) && ZoneAllows(cfg, pages, s, b)
    ensures StateOk(s) && ZoneReached(cfg, pages, Step(cfg, s, b))
  {
    ZoneReachedStart(cfg, pages);
    ZoneReachedNext(cfg, pages, Start(cfg), a);
    ZoneReachedNext(cfg, pages, s, b);
  }

  lemma {:induction false} SplitTop(lists: Lists, addr: nat, from: nat, order: nat)
    requires order < from <= |lists| && forall k :: order <= k < from ==> lists[k] == []
    ensures Split(lists, addr, from, order)[from - 1] == [(addr + Size(from - 1)) % WORD]
  {
    var lists' := Push(lists, from - 1, (addr + Size(from - 1)) % WORD);
    SplitKeepsAbove(lists', addr, from - 1, order);
  }

  lemma {:induction false} SplitKeepsAbove(lists: Lists, addr: nat, from: nat, order: nat)
    requires order <= from <= |lists|
    ensures forall k :: from <= k < |lists| ==> Split(lists, addr, from, order)[k] == lists[k]
    decreases from
  {
    if from > order { SplitKeepsAbove(Push(lists, from - 1, (addr + Size(from - 1)) % WORD), addr, from - 1, order); }
  }

  /** One page, then half of the initial block: the half is the upper one. */
  lemma UpperHalfHandedOut(cfg: Config, s: State)
    requires cfg.Valid() && 2 <= cfg.order && s == Step(cfg, Start(cfg), Alloc(0))
    ensures StateOk(s) && s.live == [Block(cfg.Base(), 0)]
    ensures Step(cfg, s, Alloc(cfg.order - 1)).live ==
            s.live + [Block((cfg.Base() + Size(cfg.order - 1)) % WORD, cfg.order - 1)]
  {
    var init := Start(cfg).lists;
    StepKeepsOk(cfg, Start(cfg), Alloc(0));
    FirstAllocation(cfg, 0);
    assert init[cfg.order] == [cfg.Base()] && FirstNonEmpty(init, 0) == cfg.order;
    SplitTop(init[cfg.order := init[cfg.order][1..]], cfg.Base(), cfg.order, 0);
    assert s.lists[cfg.order - 1] == [(cfg.Base() + Size(cfg.order - 1)) % WORD];
    assert FirstNonEmpty(s.lists, cfg.order - 1) == cfg.order - 1;
  }

  /** A zone lets both through. */
  lemma UpperHalfAllowed(cfg: Config, pages: nat) returns (s: State)
    requires ZoneSetup(cfg, pages) && 2 <= cfg.order
    ensures ZoneReached(cfg, pages, s) && |s.live| == 2
    ensures s.live[1] == Block((cfg.Base() + Size(cfg.order - 1)) % WORD, cfg.order - 1)
  {
    var s1 := Step(cfg, Start(cfg), Alloc(0));
    UpperHalfHandedOut(cfg, s1);
    SumOfOne(Block(cfg.Base(), 0));
    TwoRequests(cfg, pages, s1, Alloc(0), Alloc(cfg.order - 1));
    s := Step(cfg, s1, Alloc(cfg.order - 1));
  }

  lemma SumOfOne(b: Block)
    ensures Sum([b], PageCount()) == Pow2(b.order)
  {
    assert [b][1..] == [];
  }

  /** The last byte of the initial block lies in its upper half. */
  lemma LastByteHandedOut(cfg: Config, pages: nat) returns (s: State)
    requires ZoneSetup(cfg, pages) && 2 <= cfg.order
    ensures HandsOut(cfg, pages, s, 1, PhysToVirt(cfg.memoryStart + Size(cfg.order) - 1))
  {
    s := UpperHalfAllowed(cfg, pages);
    LastOfUpper(cfg.memoryStart, cfg.order - 1);
  }

  lemma ModDifference(a: nat, c: nat)
    requires c < WORD
    ensures ((a + c) % WORD - a % WORD) % WORD == c
  {
  }

  lemma LastOfUpper(start: nat, order: nat)
    requires start + Size(order + 1) <= WORD
    ensures Covers((PhysToVirt(start) + Size(order)) % WORD, order, PhysToVirt(start + Size(order + 1) - 1))
  {
    SizeIsPow2(order);
    var half, a := Size(order), start + KERNEL_DIRECT_MAP_START + Size(order);
    assert (PhysToVirt(start) + half) % WORD == a % WORD;
    ModDifference(a, half - 1);
  }

  lemma RoundedUp(n: nat, order: nat, size: nat)
    requires IsBlockOrder(n, order) && n == size / PAGE_SIZE && 0 < n && size < Size(order)
    ensures 2 <= order
  {
    assert Pow2(0) == 1 && Pow2(1) == 2;
  }

  /** A zone hands out memory outside its region exactly when the rounded-up initial block
      is larger than the region. */
  lemma StaysInRegionIff(cfg: Config, pages: nat)
    requires ZoneSetup(cfg, pages)
    ensures StaysInRegion(cfg, pages) <==> Size(cfg.order) <= cfg.memorySize
  {
    if Size(cfg.order) <= cfg.memorySize {
      forall s, i, x | HandsOut(cfg, pages, s, i, x)
        ensures cfg.memoryStart <= VirtToPhys(x) < cfg.memoryStart + cfg.memorySize
      { HandedOutInside(cfg, pages, s, i, x); }
    } else {
      RoundedUp(cfg.memorySize / PAGE_SIZE, cfg.order, cfg.memorySize);
      var s := LastByteHandedOut(cfg, pages);
      MappedBack(cfg.memoryStart + Size(cfg.order) - 1);
    }
  }

  lemma SmallerFits(n: nat, order: nat, k: nat, size: nat)
    requires IsBlockOrder(n, order) && n == size / PAGE_SIZE && k < order
    ensures Pow2(k) <= n && Size(k) <= size
  {
    Pow2Monotone(k, order - 1);
  }

  lemma RoundTripReached(cfg: Config, pages: nat, s: State, k: nat)
    requires ZoneSetup(cfg, pages) && k < cfg.order && s == Step(cfg, Start(cfg), Alloc(k))
    ensures StateOk(s) && ZoneReached(cfg, pages, Step(cfg, s, Free(0)))
  {
    FirstAllocation(cfg, k);
    MappedBack(cfg.memoryStart);
    SmallerFits(cfg.memorySize / PAGE_SIZE, cfg.order, k, cfg.memorySize);
    TwoRequests(cfg, pages, s, Alloc(k), Free(0));
  }

  /** Requests that end with nothing live and the initial block not whole. */
  lemma MisalignedRequests(cfg: Config, pages: nat, k: nat, s: State) returns (s': State)
    requires ZoneSetup(cfg, pages) && k < cfg.order && Aligned(cfg.Base(), k) && !Aligned(cfg.Base(), k + 1)
    requires s == Step(cfg, Start(cfg), Alloc(k))
    ensures ZoneReached(cfg, pages, s') && s'.live == [] && s'.lists != Initial(cfg.Base(), cfg.order)
  {
    RoundTripReached(cfg, pages, s, k);
    MisalignedRoundTrip(cfg, s, k);
    s' := Step(cfg, s, Free(0));
  }

  lemma ZoneAligned(cfg: Config, pages: nat, s: State)
    requires ZoneSetup(cfg, pages) && Aligned(cfg.Base(), cfg.order) && ZoneReached(cfg, pages, s) && s.live == []
    ensures s.lists == Initial(cfg.Base(), cfg.order)
  {
    ZoneIsReached(cfg, pages, s);
    var ops :| Run(cfg, ops) == s;
    RunRestores(cfg, ops);
  }

  /** A zone always gets its initial block back exactly when the mapped base is aligned to
      it. */
  lemma ZoneRestoresIff(cfg: Config, pages: nat)
    requires ZoneSetup(cfg, pages)
    ensures ZoneRestores(cfg, pages) <==> Aligned(cfg.Base(), cfg.order)
  {
    if Aligned(cfg.Base(), cfg.order) {
      forall s | ZoneReached(cfg, pages, s) && s.live == [] ensures s.lists == Initial(cfg.Base(), cfg.order) {
        ZoneAligned(cfg, pages, s);
      }
    } else {
      var k := MisalignedOrder(cfg);
      var s := MisalignedRequests(cfg, pages, k, Step(cfg, Start(cfg), Alloc(k)));
    }
  }

  predicate IsNormalZone(cfg: Config) {
    var size := (0x38000 - 0x1000) * PAGE_SIZE;
    && cfg.memoryStart == 0x1000 * PAGE_SIZE + InfoBytes(size) && cfg.memorySize == size - InfoBytes(size)
    && IsBlockOrder(cfg.memorySize / PAGE_SIZE, cfg.order)
  }

  lemma NormalZoneOrder(cfg: Config)
    requires IsNormalZone(cfg)
    ensures cfg.order == 18
  {
    Pow2Values();
    assert Pow2(18) == 0x4_0000 && Pow2(17) == 0x2_0000;
    BlockOrderAtMost(cfg.memorySize / PAGE_SIZE, cfg.order, 18);
    if cfg.order < 18 {
      Pow2Monotone(cfg.order, 17);
      assert false;
    }
  }

  lemma NormalZoneMisaligned(cfg: Config)
    requires IsNormalZone(cfg)
    ensures !Aligned(cfg.Base(), 18) && cfg.memoryStart % PAGE_SIZE == 0 && cfg.memoryStart < WORD
  {
    Pow2Values();
    assert Pow2(18) == 0x4_0000;
  }

  /** The normal zone (pages 0x1000 up to 0x38000) gets a base that is not aligned to
      its 2^18-page initial block: it never coalesces fully, and it hands out pages
      beyond its end. */
  lemma NormalZoneLimits(cfg: Config)
    requires IsNormalZone(cfg)
    ensures cfg.order == 18 && !ZoneRestores(cfg, 0x38000 - 0x1000) && !StaysInRegion(cfg, 0x38000 - 0x1000)
  {
    NormalZoneOrder(cfg);
    NormalZoneMisaligned(cfg);
    Pow2Values();
    assert Size(18) == 0x4_0000 * PAGE_SIZE;
    ZoneRestoresIff(cfg, 0x38000 - 0x1000);
    StaysInRegionIff(cfg, 0x38000 - 0x1000);
  }
}
