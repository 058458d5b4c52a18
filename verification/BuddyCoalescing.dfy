/** Full coalescing: when is the single initial block restored after every block
    has been handed back, whatever the order? Exactly when the mapped base is
    aligned to the initial block size. */
module BuddyCoalescing {
  import opened Bits
  import opened Sequences
  import opened Buddy
  import opened BuddyTiling
  import opened BuddyRuns

  predicate Aligned(addr: nat, order: nat) {
    addr % Size(order) == 0
  }

  // ----------------------------------------------------------------- alignment

  /** Of two aligned buddies the lower one is aligned to the merged size. */
  lemma AlignedPair(addr: nat, order: nat)
    requires Aligned(addr, order)
    ensures BitSet(addr, order + 12) <==> !Aligned(addr, order + 1)
    ensures BitSet(addr, order + 12) ==> addr >= Size(order) && Aligned(addr - Size(order), order + 1)
  {
    SizeIsPow2(order);
    BitSetByDivision(addr, order + 12);
    EvenOrOddMultiple(addr, Size(order));
  }

  lemma AlignedDown(addr: nat, high: nat, low: nat)
    requires low <= high && Aligned(addr, high)
    ensures Aligned(addr, low) && Size(high) % Size(low) == 0 && Size(low) <= Size(high)
  {
    SizeIsPow2(low);
    SizeIsPow2(high);
    Pow2Divides(low + 12, high + 12);
    Pow2Monotone(low + 12, high + 12);
    var q := addr / Size(high);
    var r := Pow2(high - low);
    assert addr == Size(low) * (r * q);
    MultipleIsDivisible(addr, Size(low), r * q);
  }

  /** An aligned block does not wrap. */
  lemma AlignedCovers(addr: nat, order: nat, x: int)
    requires addr < WORD && order <= MAX_ORDER && Aligned(addr, order) && 0 <= x < WORD
    ensures addr + Size(order) <= WORD
    ensures Covers(addr, order, x) <==> addr <= x < addr + Size(order)
  {
    SizeFits(order);
    GridContains(0, WORD, addr, Size(order), addr);
  }

  // -------------------------------------------------------------- the invariant

  ghost predicate AllAligned(s: State) {
    && (forall k, a :: 0 <= k < |s.lists| && a in s.lists[k] ==> Aligned(a, k))
    && (forall i :: 0 <= i < |s.live| ==> Aligned(s.live[i].addr, s.live[i].order))
  }

  /** No order holds a free block together with its buddy. */
  ghost predicate NoBuddyPairs(lists: Lists) {
    forall k, a :: 0 <= k < |lists| && k < MAX_ORDER && a in lists[k] ==> BuddyOf(a, k) !in lists[k]
  }

  ghost predicate ListsAligned(lists: Lists) {
    forall k, a :: 0 <= k < |lists| && a in lists[k] ==> Aligned(a, k)
  }

  lemma UpperHalf(addr: nat, order: nat)
    requires addr < WORD && order < MAX_ORDER && Aligned(addr, order + 1)
    ensures (addr + Size(order)) % WORD == addr + Size(order) && Aligned(addr + Size(order), order)
    ensures BuddyOf(addr + Size(order), order) == addr
  {
    SizeIsPow2(order);
    AlignedDown(addr, order + 1, order);
    assert BuddyOf(addr + Size(order), order) == addr && addr + Size(order) < WORD by {
      AlignedPair(addr, order);
      BuddyIsNeighbour(addr, order);
    }
    NextMultiple(addr, Size(order));
  }

  lemma {:induction false} SplitKeeps(lists: Lists, addr: nat, from: nat, order: nat)
    requires |lists| == MAX_ORDER + 1 && order <= from <= MAX_ORDER
    requires addr < WORD && Aligned(addr, from)
    requires ListsAligned(lists) && NoBuddyPairs(lists)
    requires forall k :: order <= k < from ==> lists[k] == []
    ensures ListsAligned(Split(lists, addr, from, order))
    ensures NoBuddyPairs(Split(lists, addr, from, order))
    decreases from
  {
    if from > order {
      UpperHalf(addr, from - 1);
      AlignedDown(addr, from, from - 1);
      SplitKeeps(Push(lists, from - 1, addr + Size(from - 1)), addr, from - 1, order);
    }
  }

  lemma RemoveKeeps(lists: Lists, order: nat, addr: nat)
    requires order < |lists| && addr in lists[order] && ListsAligned(lists) && NoBuddyPairs(lists)
    ensures ListsAligned(lists[order := Unlinked(lists[order], addr)])
    ensures NoBuddyPairs(lists[order := Unlinked(lists[order], addr)])
  {
    UnlinkedMembers(lists[order], addr);
  }

  lemma PushKeeps(lists: Lists, addr: nat, order: nat)
    requires WellFormed(lists) && addr < WORD && order <= MAX_ORDER && Aligned(addr, order)
    requires ListsAligned(lists) && NoBuddyPairs(lists)
    requires order < MAX_ORDER ==> BuddyOf(addr, order) !in lists[order]
    ensures ListsAligned(Push(lists, order, addr)) && NoBuddyPairs(Push(lists, order, addr))
  {
    var longer := [addr] + lists[order];
    if order < MAX_ORDER {
      forall a | a in longer ensures BuddyOf(a, order) !in longer {
        BuddyIsNeighbour(a, order);
      }
    }
  }

  lemma {:induction false} ReleaseKeeps(lists: Lists, addr: nat, order: nat)
    requires WellFormed(lists) && addr < WORD && order <= MAX_ORDER && Aligned(addr, order)
    requires ListsAligned(lists) && NoBuddyPairs(lists)
    ensures ListsAligned(Release(lists, addr, order)) && NoBuddyPairs(Release(lists, addr, order))
    decreases MAX_ORDER - order
  {
    var buddy := BuddyOf(addr, order);
    if order < MAX_ORDER && buddy in lists[order] {
      BuddyIsNeighbour(addr, order);
      AlignedPair(addr, order);
      RemoveKeeps(lists, order, buddy);
      RemoveKeepsWellFormed(lists, order, buddy);
      ReleaseKeeps(lists[order := Unlinked(lists[order], buddy)],
                   if addr < buddy then addr else buddy, order + 1);
    } else {
      PushKeeps(lists, addr, order);
    }
  }

  lemma StepKeeps(cfg: Config, s: State, op: Op)
    requires StateOk(s) && AllAligned(s) && NoBuddyPairs(s.lists)
    ensures AllAligned(Step(cfg, s, op)) && NoBuddyPairs(Step(cfg, s, op).lists)
  {
    match op
    case Alloc(order) =>
      if Allocate(s.lists, order).Some? {
        var from := FirstNonEmpty(s.lists, order);
        var addr := s.lists[from][0];
        var rest := s.lists[from := s.lists[from][1..]];
        assert forall a :: a in s.lists[from][1..] ==> a in s.lists[from];
        SplitKeeps(rest, addr, from, order);
        AlignedDown(addr, from, order);
      }
    case Free(i) =>
      if i < |s.live| { ReleaseKeeps(s.lists, s.live[i].addr, s.live[i].order); }
  }

  /** From an aligned base, over every run every block of order k is aligned to its
      size and no two buddies are free together. */
  lemma {:induction false} RunKeepsAligned(cfg: Config, ops: seq<Op>)
    requires cfg.Valid() && Aligned(cfg.Base(), cfg.order)
    ensures AllAligned(Run(cfg, ops)) && NoBuddyPairs(Run(cfg, ops).lists)
  {
    if ops == [] {
      if cfg.order < MAX_ORDER { BuddyIsNeighbour(cfg.Base(), cfg.order); }
    } else {
      var n := |ops| - 1;
      RunKeepsAligned(cfg, ops[..n]);
      StepKeeps(cfg, Run(cfg, ops[..n]), ops[n]);
    }
  }

  // ---------------------------------------------------------------- restoration

  /** Every byte of the initial block is in one free or live block, every other in none. */
  ghost predicate Tiled(cfg: Config, s: State) {
    forall x :: 0 <= x < WORD ==>
      Total(s, CoverCount(x)) == if Covers(cfg.Base(), cfg.order, x) then 1 else 0
  }

  lemma {:induction false} SumPositive(blocks: seq<Block>, x: int) returns (b: Block)
    requires Sum(blocks, CoverCount(x)) > 0
    ensures b in blocks && Covers(b.addr, b.order, x)
  {
    if Covers(blocks[0].addr, blocks[0].order, x) {
      b := blocks[0];
    } else {
      b := SumPositive(blocks[1..], x);
    }
  }

  lemma {:induction false} InFreeFrom(lists: Lists, k: nat, b: Block)
    requires k <= |lists|
    ensures b in FreeFrom(lists, k) <==> k <= b.order < |lists| && b.addr in lists[b.order]
    decreases |lists| - k
  {
    if k < |lists| {
      InFreeFrom(lists, k + 1, b);
      var here := BlocksOf(lists[k], k);
      if b.order == k && b.addr in lists[k] {
        var i :| 0 <= i < |lists[k]| && lists[k][i] == b.addr;
        assert here[i] == b;
      }
    }
  }

  /** A state with nothing live: the free blocks alone tile. */
  ghost predicate AllFree(cfg: Config, s: State) {
    && cfg.Valid() && Aligned(cfg.Base(), cfg.order)
    && StateOk(s) && s.live == [] && Tiled(cfg, s) && AllAligned(s) && NoBuddyPairs(s.lists)
  }

  lemma OwnerOf(cfg: Config, s: State, x: int) returns (b: Block)
    requires AllFree(cfg, s) && 0 <= x < WORD && Covers(cfg.Base(), cfg.order, x)
    ensures b.order <= MAX_ORDER && b.addr in s.lists[b.order] && b.addr < WORD
    ensures b.addr <= x < b.addr + Size(b.order)
  {
    TotalIsSum(s, CoverCount(x));
    assert AllBlocks(s) == FreeFrom(s.lists, 0);
    b := SumPositive(AllBlocks(s), x);
    InFreeFrom(s.lists, 0, b);
    AlignedCovers(b.addr, b.order, x);
  }

  lemma OneOwner(cfg: Config, s: State, b: Block, c: Block, x: int)
    requires AllFree(cfg, s) && 0 <= x < WORD
    requires b.order <= MAX_ORDER && b.addr in s.lists[b.order] && b.addr <= x < b.addr + Size(b.order)
    requires c.order <= MAX_ORDER && c.addr in s.lists[c.order] && c.addr <= x < c.addr + Size(c.order)
    ensures b == c && Covers(cfg.Base(), cfg.order, x)
  {
    var all := AllBlocks(s);
    assert all == FreeFrom(s.lists, 0);
    InFreeFrom(s.lists, 0, b);
    InFreeFrom(s.lists, 0, c);
    AlignedCovers(b.addr, b.order, x);
    AlignedCovers(c.addr, c.order, x);
    TotalIsSum(s, CoverCount(x));
    var i :| 0 <= i < |all| && all[i] == b;
    var j :| 0 <= j < |all| && all[j] == c;
    SumRemoveAt(all, i, CoverCount(x));
    if i != j {
      SumOfTwo(all, if i < j then i else j, if i < j then j else i, CoverCount(x));
      assert false;
    }
  }

  /** A free block is no larger than the initial block and lies inside it. */
  lemma InsideInitial(cfg: Config, s: State, b: Block)
    requires AllFree(cfg, s) && b.order <= MAX_ORDER && b.addr in s.lists[b.order]
    ensures b.order <= cfg.order && b.addr < WORD
    ensures cfg.Base() <= b.addr && b.addr + Size(b.order) <= cfg.Base() + Size(cfg.order) <= WORD
  {
    var base := cfg.Base();
    var i :| 0 <= i < |s.lists[b.order]| && s.lists[b.order][i] == b.addr;
    AlignedCovers(b.addr, b.order, b.addr);
    OneOwner(cfg, s, b, b, b.addr);
    AlignedCovers(base, cfg.order, b.addr);
    if b.order > cfg.order {
      var last := b.addr + Size(b.order) - 1;
      AlignedDown(b.addr, b.order, cfg.order);
      OneOwner(cfg, s, b, b, last);
      AlignedCovers(base, cfg.order, last);
      SizeStrict(cfg.order, b.order);
      assert false;
    }
    AlignedDown(base, cfg.order, b.order);
    GridContains(base, Size(cfg.order), b.addr, Size(b.order), b.addr);
  }

  lemma SizeStrict(j: nat, k: nat)
    requires j < k
    ensures 2 * Size(j) <= Size(k)
  {
    SizeIsPow2(j);
    SizeIsPow2(k);
    Pow2Monotone(j + 13, k + 12);
  }

  /** The pair that a block inside an aligned larger one forms with its buddy. */
  lemma PairInside(base: nat, top: nat, addr: nat, order: nat)
    requires Aligned(base, top) && order < top <= MAX_ORDER && Aligned(addr, order) && addr < WORD
    requires base <= addr && addr + Size(order) <= base + Size(top) <= WORD
    ensures var buddy := BuddyOf(addr, order);
            var low := if addr < buddy then addr else buddy;
            && Aligned(low, order + 1) && Aligned(buddy, order) && base <= buddy < base + Size(top)
            && low <= addr < low + Size(order + 1) && low <= buddy < low + Size(order + 1)
  {
    var buddy := BuddyOf(addr, order);
    var low := if addr < buddy then addr else buddy;
    BuddyIsNeighbour(addr, order);
    AlignedPair(addr, order);
    AlignedDown(low, order + 1, order);
    NextMultiple(low, Size(order));
    AlignedDown(base, top, order + 1);
    GridContains(base, Size(top), low, Size(order + 1), addr);
  }

  /** Whatever aligned block has the buddy is the buddy, or has the block too. */
  lemma BuddyOwner(addr: nat, order: nat, c: Block, low: nat, buddy: nat)
    requires Aligned(low, order + 1) && low <= addr < low + Size(order + 1) && low <= buddy < low + Size(order + 1)
    requires Aligned(buddy, order) && order <= c.order && Aligned(c.addr, c.order)
    requires c.addr <= buddy < c.addr + Size(c.order)
    ensures if c.order == order then c.addr == buddy else c.addr <= addr < c.addr + Size(c.order)
  {
    if c.order == order {
      GridContains(c.addr, Size(order), buddy, Size(order), buddy);
    } else {
      AlignedDown(c.addr, c.order, order + 1);
      GridContains(c.addr, Size(c.order), low, Size(order + 1), buddy);
    }
  }

  /** No free block is smaller than the initial one: the buddy of a smallest free
      block would have to be free as well. */
  lemma NoneSmaller(cfg: Config, s: State, order: nat)
    requires AllFree(cfg, s) && order < cfg.order
    requires forall k :: 0 <= k < order ==> s.lists[k] == []
    ensures s.lists[order] == []
  {
    if s.lists[order] != [] {
      var b := Block(s.lists[order][0], order);
      assert b.addr in s.lists[order];
      InsideInitial(cfg, s, b);
      PairInside(cfg.Base(), cfg.order, b.addr, order);
      var buddy := BuddyOf(b.addr, order);
      AlignedCovers(cfg.Base(), cfg.order, buddy);
      var c := OwnerOf(cfg, s, buddy);
      BuddyOwner(b.addr, order, c, if b.addr < buddy then b.addr else buddy, buddy);
      if c.order > order { OneOwner(cfg, s, b, c, b.addr); }
      assert false;
    }
  }

  lemma {:induction false} NoneSmallerAtAll(cfg: Config, s: State, n: nat)
    requires AllFree(cfg, s) && n <= cfg.order
    ensures forall k :: 0 <= k < n ==> s.lists[k] == []
  {
    if n > 0 {
      var k := n - 1;
      NoneSmallerAtAll(cfg, s, k);
      NoneSmaller(cfg, s, k);
    }
  }

  lemma OnlyTheInitialBlock(cfg: Config, s: State)
    requires AllFree(cfg, s)
    ensures s.lists == Initial(cfg.Base(), cfg.order)
  {
    var base, top := cfg.Base(), s.lists[cfg.order];
    NoneSmallerAtAll(cfg, s, cfg.order);
    forall k | cfg.order < k <= MAX_ORDER ensures s.lists[k] == [] {
      if s.lists[k] != [] {
        InsideInitial(cfg, s, Block(s.lists[k][0], k));
        assert false;
      }
    }
    forall i | 0 <= i < |top| ensures top[i] == base {
      assert top[i] in top;
      InsideInitial(cfg, s, Block(top[i], cfg.order));
    }
    AlignedCovers(base, cfg.order, base);
    var b := OwnerOf(cfg, s, base);
    assert b.order == cfg.order;
    if |top| > 1 {
      CountedTwice(s, base, cfg.order);
      assert false;
    }
    assert top == [base];
    assert forall k :: 0 <= k <= MAX_ORDER ==> s.lists[k] == Initial(base, cfg.order)[k];
  }

  lemma CountedTwice(s: State, base: nat, order: nat)
    requires order < |s.lists| && |s.lists[order]| > 1
    requires s.lists[order][0] == s.lists[order][1] == base
    requires forall k :: 0 <= k < order ==> s.lists[k] == []
    ensures Total(s, CoverCount(base)) >= 2
  {
    TotalIsSum(s, CoverCount(base));
    FreeFromSkips(s.lists, 0, order);
    var all := AllBlocks(s);
    assert all[0] == Block(base, order) && all[1] == Block(base, order);
    SumOfTwo(all, 0, 1, CoverCount(base));
  }

  lemma {:induction false} FreeFromSkips(lists: Lists, k: nat, order: nat)
    requires k <= order < |lists| && forall j :: k <= j < order ==> lists[j] == []
    ensures FreeFrom(lists, k) == FreeFrom(lists, order)
    decreases order - k
  {
    if k < order { FreeFromSkips(lists, k + 1, order); }
  }

  /** From an aligned base, every run that ends with no live block ends with exactly
      the initial block, in whatever order the blocks came back. */
  lemma RunRestores(cfg: Config, ops: seq<Op>)
    requires cfg.Valid() && Aligned(cfg.Base(), cfg.order) && Run(cfg, ops).live == []
    ensures Run(cfg, ops).lists == Initial(cfg.Base(), cfg.order)
  {
    var s := Run(cfg, ops);
    RunKeepsAligned(cfg, ops);
    assert Tiled(cfg, s) by {
      forall x | 0 <= x < WORD
        ensures Total(s, CoverCount(x)) == if Covers(cfg.Base(), cfg.order, x) then 1 else 0
      { RunTiles(cfg, ops, x); }
    }
    OnlyTheInitialBlock(cfg, s);
  }

  // ------------------------------------------------- exactly when it restores

  /** Whatever is allocated and handed back, the initial block comes back whole. */
  ghost predicate AlwaysRestores(cfg: Config)
    requires cfg.Valid()
  {
    forall ops :: Run(cfg, ops).live == [] ==>
      Run(cfg, ops).lists == Initial(cfg.Base(), cfg.order)
  }

  lemma {:induction false} FirstMisaligned(addr: nat, n: nat) returns (k: nat)
    requires Aligned(addr, 0) && !Aligned(addr, n)
    ensures k < n && Aligned(addr, k) && !Aligned(addr, k + 1)
  {
    if Aligned(addr, n - 1) {
      k := n - 1;
    } else {
      k := FirstMisaligned(addr, n - 1);
    }
  }

  lemma SplitFirst(lists: Lists, addr: nat, from: nat, order: nat)
    requires order < from <= |lists| && forall k :: order <= k < from ==> lists[k] == []
    ensures Split(lists, addr, from, order)[order] == [(addr + Size(order)) % WORD]
  {
    SplitMeans(lists, addr, from, order);
  }

  lemma FirstAllocation(cfg: Config, k: nat)
    requires cfg.Valid() && k < cfg.order
    ensures var s := Step(cfg, Start(cfg), Alloc(k));
            s.live == [Block(cfg.Base(), k)] && s.lists[k] == [(cfg.Base() + Size(k)) % WORD]
  {
    var base, init := cfg.Base(), Start(cfg).lists;
    assert init[cfg.order] == [base] && FirstNonEmpty(init, k) == cfg.order;
    SplitFirst(init[cfg.order := init[cfg.order][1..]], base, cfg.order, k);
  }

  lemma HalfTheWord(base: nat, size: nat)
    requires 0 < size <= base < WORD && 2 * size < WORD
    ensures (base + size) % WORD != base - size
  {
  }

  lemma SmallHalves(k: nat)
    requires k + 1 < MAX_ORDER
    ensures 2 * Size(k) < WORD
  {
    SizeFits(k + 1);
    assert Size(k + 1) == 2 * Size(k);
  }

  /** Only with two blocks to the address space is the buddy of a misaligned block the
      one split off from it. */
  lemma MisalignedBuddy(base: nat, k: nat)
    requires base < WORD && k < MAX_ORDER && Aligned(base, k) && !Aligned(base, k + 1)
    ensures BuddyOf(base, k) < base
    ensures BuddyOf(base, k) == (base + Size(k)) % WORD ==> k + 1 == MAX_ORDER
  {
    AlignedPair(base, k);
    BuddyIsNeighbour(base, k);
    if k + 1 < MAX_ORDER {
      SmallHalves(k);
      HalfTheWord(base, Size(k));
    }
  }

  /** So the released block does not grow back into the initial one. */
  lemma MisalignedRelease(lists: Lists, base: nat, k: nat, order: nat)
    requires |lists| == MAX_ORDER + 1 && base < WORD && k < order <= MAX_ORDER
    requires lists[k] == [(base + Size(k)) % WORD]
    requires Aligned(base, k) && !Aligned(base, k + 1)
    ensures Release(lists, base, k) != Initial(base, order)
  {
    MisalignedBuddy(base, k);
    var buddy, after := BuddyOf(base, k), Release(lists, base, k);
    if buddy in lists[k] {
      var rest := lists[k := Unlinked(lists[k], buddy)];
      assert after == Release(rest, buddy, k + 1);
      assert after[MAX_ORDER][0] == buddy;
    } else {
      assert after[k] == [base] + lists[k];
    }
  }

  /** The round trip of one block whose order is the first at which the base is
      misaligned does not restore the initial block. */
  lemma MisalignedRoundTrip(cfg: Config, s: State, k: nat)
    requires cfg.Valid() && cfg.memoryStart % PAGE_SIZE == 0 && s == Step(cfg, Start(cfg), Alloc(k))
    requires k < cfg.order && Aligned(cfg.Base(), k) && !Aligned(cfg.Base(), k + 1)
    ensures StateOk(s)
    ensures var s' := Step(cfg, s, Free(0)); s'.live == [] && s'.lists != Initial(cfg.Base(), cfg.order)
  {
    StepKeepsOk(cfg, Start(cfg), Alloc(k));
    FirstAllocation(cfg, k);
    MappedBack(cfg.memoryStart);
    assert cfg.Accepts(VirtToPhys(s.live[0].addr));
    MisalignedRelease(s.lists, cfg.Base(), k, cfg.order);
  }

  lemma RunOfTwo(cfg: Config, a: Op, b: Op, s: State)
    requires cfg.Valid() && s == Step(cfg, Start(cfg), a)
    ensures StateOk(s) && Run(cfg, [a, b]) == Step(cfg, s, b)
  {
    StepKeepsOk(cfg, Start(cfg), a);
    assert [a][..0] == [] && [a, b][..1] == [a];
    assert Run(cfg, [a]) == s;
  }

  lemma AlignedRestores(cfg: Config)
    requires cfg.Valid() && cfg.memoryStart % PAGE_SIZE == 0 && Aligned(cfg.Base(), cfg.order)
    ensures AlwaysRestores(cfg)
  {
    forall ops | Run(cfg, ops).live == []
      ensures Run(cfg, ops).lists == Initial(cfg.Base(), cfg.order)
    { RunRestores(cfg, ops); }
  }

  lemma BaseOnPage(cfg: Config)
    requires cfg.Valid() && cfg.memoryStart % PAGE_SIZE == 0
    ensures Aligned(cfg.Base(), 0)
  {
  }

  /** The order at which a round trip goes wrong. */
  lemma MisalignedOrder(cfg: Config) returns (k: nat)
    requires cfg.Valid() && cfg.memoryStart % PAGE_SIZE == 0 && !Aligned(cfg.Base(), cfg.order)
    ensures k < cfg.order && Aligned(cfg.Base(), k) && !Aligned(cfg.Base(), k + 1)
  {
    BaseOnPage(cfg);
    k := FirstMisaligned(cfg.Base(), cfg.order);
  }

  /** A run that frees everything and does not restore the initial block. */
  lemma MisalignedWitness(cfg: Config, k: nat, s: State)
    requires cfg.Valid() && cfg.memoryStart % PAGE_SIZE == 0 && s == Step(cfg, Start(cfg), Alloc(k))
    requires k < cfg.order && Aligned(cfg.Base(), k) && !Aligned(cfg.Base(), k + 1)
    ensures !AlwaysRestores(cfg)
  {
    RunOfTwo(cfg, Alloc(k), Free(0), s);
    MisalignedRoundTrip(cfg, s, k);
  }

  /** Full coalescing holds for every run if and only if the mapped base is aligned
      to the initial block size. */
  lemma RestoresIffAligned(cfg: Config)
    requires cfg.Valid() && cfg.memoryStart % PAGE_SIZE == 0
    ensures AlwaysRestores(cfg) <==> Aligned(cfg.Base(), cfg.order)
  {
    if Aligned(cfg.Base(), cfg.order) {
      AlignedRestores(cfg);
    } else {
      var k := MisalignedOrder(cfg);
      MisalignedWitness(cfg, k, Step(cfg, Start(cfg), Alloc(k)));
    }
  }
}
