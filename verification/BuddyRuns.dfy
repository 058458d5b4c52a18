/** Every run of the buddy allocator: the free and the live blocks tile the
    initial block exactly, without overlap, and their pages add up to it. */
module BuddyRuns {
  import opened Bits
  import opened Sequences
  import opened Buddy
  import opened BuddyTiling

  const KERNEL_DIRECT_MAP_START: nat := 0xC000_0000

  function PhysToVirt(phys: nat): nat { (phys + KERNEL_DIRECT_MAP_START) % WORD }

  function VirtToPhys(virt: nat): nat { (virt + WORD - KERNEL_DIRECT_MAP_START) % WORD }

  lemma MappedBack(phys: nat)
    requires phys < WORD
    ensures VirtToPhys(PhysToVirt(phys)) == phys && PhysToVirt(VirtToPhys(phys)) == phys
  {
  }

  /** The region handed to the allocator and the order of its one initial block. */
  datatype Config = Config(memoryStart: nat, memorySize: nat, order: nat) {
    predicate Valid() { memoryStart < WORD && 0 < memorySize && order <= MAX_ORDER }

    /** The address range that free_pages accepts. */
    predicate Accepts(phys: nat) {
      memoryStart <= phys < memoryStart + memorySize && phys % PAGE_SIZE == 0
    }

    function Base(): nat { PhysToVirt(memoryStart) }
  }

  datatype State = State(lists: Lists, live: seq<Block>)

  /** Free(i) hands back the i-th live block. */
  datatype Op = Alloc(order: nat) | Free(index: nat)

  function Initial(base: nat, order: nat): (r: Lists)
    requires order <= MAX_ORDER
    ensures |r| == MAX_ORDER + 1
    ensures forall k :: 0 <= k <= MAX_ORDER ==> r[k] == if k == order then [base] else []
  {
    seq(MAX_ORDER + 1, k => if k == order then [base] else [])
  }

  function Step(cfg: Config, s: State, op: Op): State
    requires StateOk(s)
  {
    match op
    case Alloc(order) =>
      (match Allocate(s.lists, order)
       case None => s
       case Some((lists, addr)) => State(lists, s.live + [Block(addr, order)]))
    case Free(i) =>
      if i < |s.live| && cfg.Accepts(VirtToPhys(s.live[i].addr)) then
        State(Release(s.lists, s.live[i].addr, s.live[i].order), RemoveAt(s.live, i))
      else s
  }

  predicate StateOk(s: State) {
    && WellFormed(s.lists)
    && forall i :: 0 <= i < |s.live| ==> s.live[i].addr < WORD && s.live[i].order <= MAX_ORDER
  }

  function Start(cfg: Config): (s: State)
    requires cfg.Valid()
    ensures StateOk(s)
  {
    State(Initial(cfg.Base(), cfg.order), [])
  }

  /** The state after the operations, in order. */
  function Run(cfg: Config, ops: seq<Op>): (s: State)
    requires cfg.Valid()
    ensures StateOk(s)
  {
    if ops == [] then Start(cfg)
    else
      var s := Run(cfg, ops[..|ops| - 1]);
      StepKeepsOk(cfg, s, ops[|ops| - 1]);
      Step(cfg, s, ops[|ops| - 1])
  }

  // -------------------------------------------------------------- well-formedness

  lemma {:induction false} SplitKeepsWellFormed(lists: Lists, addr: nat, from: nat, order: nat)
    requires WellFormed(lists) && order <= from <= MAX_ORDER
    ensures WellFormed(Split(lists, addr, from, order))
    decreases from
  {
    if from > order {
      SplitKeepsWellFormed(Push(lists, from - 1, (addr + Size(from - 1)) % WORD), addr, from - 1, order);
    }
  }

  lemma {:induction false} ReleaseKeepsWellFormed(lists: Lists, addr: nat, order: nat)
    requires WellFormed(lists) && addr < WORD && order <= MAX_ORDER
    ensures WellFormed(Release(lists, addr, order))
    decreases MAX_ORDER - order
  {
    var buddy := BuddyOf(addr, order);
    if order < MAX_ORDER && buddy in lists[order] {
      BuddyIsNeighbour(addr, order);
      RemoveKeepsWellFormed(lists, order, buddy);
      ReleaseKeepsWellFormed(lists[order := Unlinked(lists[order], buddy)],
                             if addr < buddy then addr else buddy, order + 1);
    }
  }

  lemma StepKeepsOk(cfg: Config, s: State, op: Op)
    requires StateOk(s)
    ensures StateOk(Step(cfg, s, op))
  {
    match op
    case Alloc(order) =>
      if Allocate(s.lists, order).Some? {
        var from := FirstNonEmpty(s.lists, order);
        SplitKeepsWellFormed(s.lists[from := s.lists[from][1..]], s.lists[from][0], from, order);
      }
    case Free(i) =>
      if i < |s.live| { ReleaseKeepsWellFormed(s.lists, s.live[i].addr, s.live[i].order); }
  }

  // ------------------------------------------------------------------ conservation

  /** The measure of everything the allocator manages. */
  function Total(s: State, f: Measure): nat {
    SumFree(s.lists, f) + Sum(s.live, f)
  }

  lemma {:induction false} SumConcat(a: seq<Block>, b: seq<Block>, f: Measure)
    ensures Sum(a + b, f) == Sum(a, f) + Sum(b, f)
  {
    if a == [] {
      assert a + b == b;
    } else {
      SumConcat(a[1..], b, f);
      assert (a + b)[1..] == a[1..] + b;
    }
  }

  lemma SumRemoveAt(s: seq<Block>, i: nat, f: Measure)
    requires i < |s|
    ensures Sum(s, f) == Sum(RemoveAt(s, i), f) + f(s[i].addr, s[i].order)
  {
    SumConcat(s[..i], s[i..], f);
    SumConcat(s[..i], s[i + 1..], f);
    assert s == s[..i] + s[i..] && s[i..][1..] == s[i + 1..];
  }

  lemma StepConserves(cfg: Config, s: State, op: Op, f: Measure)
    requires StateOk(s) && Additive(f)
    ensures Total(Step(cfg, s, op), f) == Total(s, f)
  {
    match op
    case Alloc(order) =>
      if Allocate(s.lists, order).Some? {
        AllocateConserves(s.lists, order, f);
        SumConcat(s.live, [Block(Allocate(s.lists, order).value.1, order)], f);
      }
    case Free(i) =>
      if i < |s.live| {
        ReleaseConserves(s.lists, s.live[i].addr, s.live[i].order, f);
        SumRemoveAt(s.live, i, f);
      }
  }

  lemma {:induction false} SumInitial(base: nat, order: nat, k: nat, f: Measure)
    requires order <= MAX_ORDER && k <= MAX_ORDER + 1
    ensures SumFrom(Initial(base, order), k, f) == if k <= order then f(base, order) else 0
    decreases MAX_ORDER + 1 - k
  {
    if k <= MAX_ORDER {
      SumInitial(base, order, k + 1, f);
      assert SumList([base], order, f) == f(base, order) + SumList([base][1..], order, f);
    }
  }

  /** Over every run, every additive measure keeps the value it has on the
      initial block. */
  lemma {:induction false} RunConserves(cfg: Config, ops: seq<Op>, f: Measure)
    requires cfg.Valid() && Additive(f)
    ensures Total(Run(cfg, ops), f) == f(cfg.Base(), cfg.order)
  {
    if ops == [] {
      SumInitial(cfg.Base(), cfg.order, 0, f);
    } else {
      var n := |ops| - 1;
      RunConserves(cfg, ops[..n], f);
      StepConserves(cfg, Run(cfg, ops[..n]), ops[n], f);
    }
  }

  // ----------------------------------------------------------------- the two measures

  /** Whether the byte at x lies in the block, wrapping at 2^32. */
  predicate Covers(addr: nat, order: nat, x: int) {
    (x - addr) % WORD < Size(order)
  }

  function CoverCount(x: int): Measure {
    (addr, order) => if Covers(addr, order, x) then 1 else 0
  }

  function PageCount(): Measure {
    (addr, order) => Pow2(order)
  }

  lemma HalvesCover(addr: nat, half: nat, x: int)
    requires addr < WORD && 0 < half && 2 * half <= WORD
    ensures (x - addr) % WORD < 2 * half <==>
            (x - addr) % WORD < half || (x - (addr + half) % WORD) % WORD < half
    ensures !((x - addr) % WORD < half && (x - (addr + half) % WORD) % WORD < half)
  {
    var d := (x - addr) % WORD;
    var upper := (addr + half) % WORD;
    assert (x - upper) % WORD == if d >= half then d - half else d - half + WORD;
  }

  lemma CoverSplits(addr: nat, order: nat, x: int)
    requires addr < WORD && order < MAX_ORDER
    ensures SplitsAt(CoverCount(x), addr, order)
  {
    SizeFits(order);
    assert Size(order + 1) == 2 * Size(order);
    HalvesCover(addr, Size(order), x);
  }

  lemma CoverCountAdditive(x: int)
    ensures Additive(CoverCount(x))
  {
    forall addr: nat, order: nat ensures SplitsAt(CoverCount(x), addr, order) {
      if addr < WORD && order < MAX_ORDER { CoverSplits(addr, order, x); }
    }
  }

  lemma PageCountAdditive()
    ensures Additive(PageCount())
  {
    forall addr: nat, order: nat ensures SplitsAt(PageCount(), addr, order) {}
  }

  /** Over every run, each byte of the initial block lies in exactly one free or
      live block, and no other byte lies in any. */
  lemma RunTiles(cfg: Config, ops: seq<Op>, x: int)
    requires cfg.Valid()
    ensures Total(Run(cfg, ops), CoverCount(x)) == if Covers(cfg.Base(), cfg.order, x) then 1 else 0
  {
    CoverCountAdditive(x);
    RunConserves(cfg, ops, CoverCount(x));
  }

  /** Over every run, free pages plus live pages is the page count of the initial block. */
  lemma RunKeepsPages(cfg: Config, ops: seq<Op>)
    requires cfg.Valid()
    ensures SumFree(Run(cfg, ops).lists, PageCount()) + Sum(Run(cfg, ops).live, PageCount())
         == Pow2(cfg.order)
  {
    PageCountAdditive();
    RunConserves(cfg, ops, PageCount());
  }

  // ------------------------------------------------------------------ page alignment

  ghost predicate OnPages(lists: Lists) {
    forall k, a :: 0 <= k < |lists| && a in lists[k] ==> a % PAGE_SIZE == 0
  }

  lemma SizeOnPages(order: nat)
    ensures Size(order) % PAGE_SIZE == 0
  {
    MultipleIsDivisible(Size(order), PAGE_SIZE, Pow2(order));
  }

  lemma {:induction false} SplitOnPages(lists: Lists, addr: nat, from: nat, order: nat)
    requires order <= from <= |lists| && OnPages(lists) && addr % PAGE_SIZE == 0
    ensures OnPages(Split(lists, addr, from, order))
    decreases from
  {
    if from > order {
      SizeOnPages(from - 1);
      SplitOnPages(Push(lists, from - 1, (addr + Size(from - 1)) % WORD), addr, from - 1, order);
    }
  }

  lemma {:induction false} ReleaseOnPages(lists: Lists, addr: nat, order: nat)
    requires |lists| == MAX_ORDER + 1 && order <= MAX_ORDER
    requires OnPages(lists) && addr % PAGE_SIZE == 0
    ensures OnPages(Release(lists, addr, order))
    decreases MAX_ORDER - order
  {
    var buddy := BuddyOf(addr, order);
    if order < MAX_ORDER && buddy in lists[order] {
      UnlinkedMembers(lists[order], buddy);
      ReleaseOnPages(lists[order := Unlinked(lists[order], buddy)],
                     if addr < buddy then addr else buddy, order + 1);
    }
  }

  /** From a page-aligned base every block, free or live, starts on a page. */
  lemma {:induction false} RunOnPages(cfg: Config, ops: seq<Op>)
    requires cfg.Valid() && cfg.memoryStart % PAGE_SIZE == 0
    ensures OnPages(Run(cfg, ops).lists)
    ensures forall i :: 0 <= i < |Run(cfg, ops).live| ==> Run(cfg, ops).live[i].addr % PAGE_SIZE == 0
  {
    if ops != [] {
      var n := |ops| - 1;
      RunOnPages(cfg, ops[..n]);
      var s := Run(cfg, ops[..n]);
      match ops[n]
      case Alloc(order) =>
        if Allocate(s.lists, order).Some? {
          var from := FirstNonEmpty(s.lists, order);
          assert s.lists[from][0] in s.lists[from];
          assert forall a :: a in s.lists[from][1..] ==> a in s.lists[from];
          SplitOnPages(s.lists[from := s.lists[from][1..]], s.lists[from][0], from, order);
        }
      case Free(i) =>
        if i < |s.live| { ReleaseOnPages(s.lists, s.live[i].addr, s.live[i].order); }
    }
  }

  // --------------------------------------------------------------------- disjointness

  function BlocksOf(list: seq<nat>, order: nat): (r: seq<Block>)
    ensures |r| == |list| && forall i :: 0 <= i < |r| ==> r[i] == Block(list[i], order)
  {
    seq(|list|, i requires 0 <= i < |list| => Block(list[i], order))
  }

  /** All free blocks of order k and above. */
  function FreeFrom(lists: Lists, k: nat): seq<Block>
    requires k <= |lists|
    decreases |lists| - k
  {
    if k == |lists| then [] else BlocksOf(lists[k], k) + FreeFrom(lists, k + 1)
  }

  /** Every block the allocator knows: the free lists in order, then the live blocks. */
  function AllBlocks(s: State): seq<Block> {
    FreeFrom(s.lists, 0) + s.live
  }

  lemma {:induction false} SumBlocksOf(list: seq<nat>, order: nat, f: Measure)
    ensures Sum(BlocksOf(list, order), f) == SumList(list, order, f)
  {
    if list != [] {
      SumBlocksOf(list[1..], order, f);
      assert BlocksOf(list, order)[1..] == BlocksOf(list[1..], order);
    }
  }

  lemma {:induction false} SumFreeFrom(lists: Lists, k: nat, f: Measure)
    requires k <= |lists|
    ensures Sum(FreeFrom(lists, k), f) == SumFrom(lists, k, f)
    decreases |lists| - k
  {
    if k < |lists| {
      SumFreeFrom(lists, k + 1, f);
      SumBlocksOf(lists[k], k, f);
      SumConcat(BlocksOf(lists[k], k), FreeFrom(lists, k + 1), f);
    }
  }

  lemma TotalIsSum(s: State, f: Measure)
    ensures Total(s, f) == Sum(AllBlocks(s), f)
  {
    SumFreeFrom(s.lists, 0, f);
    SumConcat(FreeFrom(s.lists, 0), s.live, f);
  }

  lemma SumOfTwo(s: seq<Block>, i: nat, j: nat, f: Measure)
    requires i < j < |s|
    ensures Sum(s, f) >= f(s[i].addr, s[i].order) + f(s[j].addr, s[j].order)
  {
    SumRemoveAt(s, j, f);
    SumRemoveAt(RemoveAt(s, j), i, f);
  }

  /** Over every run, two different blocks, free or live, never share a byte, and
      none reaches outside the initial block. */
  lemma RunDisjoint(cfg: Config, ops: seq<Op>, i: nat, j: nat, x: int)
    requires cfg.Valid()
    requires i < |AllBlocks(Run(cfg, ops))| && j < |AllBlocks(Run(cfg, ops))|
    requires Covers(AllBlocks(Run(cfg, ops))[i].addr, AllBlocks(Run(cfg, ops))[i].order, x)
    ensures Covers(cfg.Base(), cfg.order, x)
    ensures i != j ==> !Covers(AllBlocks(Run(cfg, ops))[j].addr, AllBlocks(Run(cfg, ops))[j].order, x)
  {
    var s := Run(cfg, ops);
    RunTiles(cfg, ops, x);
    TotalIsSum(s, CoverCount(x));
    SumRemoveAt(AllBlocks(s), i, CoverCount(x));
    if i != j {
      SumOfTwo(AllBlocks(s), if i < j then i else j, if i < j then j else i, CoverCount(x));
    }
  }
}
