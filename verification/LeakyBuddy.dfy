/** The buddy allocator under kfree, which hands back a large block as a single page: the
    rest of the block is lost, and everything else stays tiled. */
module LeakyBuddy {
  import opened Bits
  import opened Sequences
  import opened Buddy
  import opened BuddyTiling
  import opened BuddyRuns

  /** The allocator with the blocks that nobody can hand back any more. */
  datatype Pages = Pages(s: State, leaked: seq<Block>)

  /** GiveFirst(i) hands back the first page of the i-th live block. */
  datatype PageOp = Take(order: nat) | Give(i: nat) | GiveFirst(i: nat)

  /** What is left of a block without its first page. */
  function Rest(addr: nat, order: nat): seq<Block> {
    if order == 0 then [] else Rest(addr, order - 1) + [Block((addr + Size(order - 1)) % WORD, order - 1)]
  }

  function PageStep(cfg: Config, p: Pages, op: PageOp): (p': Pages)
    requires StateOk(p.s)
    ensures StateOk(p'.s)
  {
    match op
    case Take(order) =>
      StepKeepsOk(cfg, p.s, Alloc(order));
      p.(s := Step(cfg, p.s, Alloc(order)))
    case Give(i) =>
      StepKeepsOk(cfg, p.s, Free(i));
      p.(s := Step(cfg, p.s, Free(i)))
    case GiveFirst(i) =>
      if i < |p.s.live| && cfg.Accepts(VirtToPhys(p.s.live[i].addr)) then
        var b := p.s.live[i];
        ReleaseKeepsWellFormed(p.s.lists, b.addr, 0);
        Pages(State(Release(p.s.lists, b.addr, 0), RemoveAt(p.s.live, i)), p.leaked + Rest(b.addr, b.order))
      else p
  }

  function PageRun(cfg: Config, ops: seq<PageOp>): (p: Pages)
    requires cfg.Valid()
    ensures StateOk(p.s)
  {
    if ops == [] then Pages(Start(cfg), [])
    else PageStep(cfg, PageRun(cfg, ops[..|ops| - 1]), ops[|ops| - 1])
  }

  // --------------------------------------------------------------------- conservation

  function PageTotal(p: Pages, f: Measure): nat {
    Total(p.s, f) + Sum(p.leaked, f)
  }

  lemma {:induction false} RestSum(addr: nat, order: nat, f: Measure)
    requires Additive(f) && addr < WORD && order <= MAX_ORDER
    ensures f(addr, order) == f(addr, 0) + Sum(Rest(addr, order), f)
  {
    if order > 0 {
      var upper := Block((addr + Size(order - 1)) % WORD, order - 1);
      RestSum(addr, order - 1, f);
      SumConcat(Rest(addr, order - 1), [upper], f);
      assert Sum([upper], f) == f(upper.addr, upper.order) by { assert [upper][1..] == []; }
      assert SplitsAt(f, addr, order - 1);
    }
  }

  lemma GiveFirstConserves(cfg: Config, p: Pages, i: nat, f: Measure)
    requires StateOk(p.s) && Additive(f) && i < |p.s.live|
    ensures PageTotal(PageStep(cfg, p, GiveFirst(i)), f) == PageTotal(p, f)
  {
    var b := p.s.live[i];
    ReleaseConserves(p.s.lists, b.addr, 0, f);
    SumRemoveAt(p.s.live, i, f);
    RestSum(b.addr, b.order, f);
    SumConcat(p.leaked, Rest(b.addr, b.order), f);
  }

  lemma PageStepConserves(cfg: Config, p: Pages, op: PageOp, f: Measure)
    requires StateOk(p.s) && Additive(f)
    ensures PageTotal(PageStep(cfg, p, op), f) == PageTotal(p, f)
  {
    match op
    case Take(order) => StepConserves(cfg, p.s, Alloc(order), f);
    case Give(i) => StepConserves(cfg, p.s, Free(i), f);
    case GiveFirst(i) => if i < |p.s.live| { GiveFirstConserves(cfg, p, i, f); }
  }

  /** Over every run, first-page frees included, every additive measure of the free, the
      live and the leaked blocks keeps the value it has on the initial block. */
  lemma {:induction false} PageRunConserves(cfg: Config, ops: seq<PageOp>, f: Measure)
    requires cfg.Valid() && Additive(f)
    ensures PageTotal(PageRun(cfg, ops), f) == f(cfg.Base(), cfg.order)
  {
    if ops == [] {
      SumInitial(cfg.Base(), cfg.order, 0, f);
    } else {
      var n := |ops| - 1;
      PageRunConserves(cfg, ops[..n], f);
      PageStepConserves(cfg, PageRun(cfg, ops[..n]), ops[n], f);
    }
  }

  // ------------------------------------------------------------------------ invariant

  ghost predicate TilesAt(cfg: Config, p: Pages, x: int) {
    PageTotal(p, CoverCount(x)) == if Covers(cfg.Base(), cfg.order, x) then 1 else 0
  }

  /** Every byte of the initial block lies in one free, live or leaked block, no other byte
      in any, and blocks start on pages. */
  ghost predicate PagesInv(cfg: Config, p: Pages) {
    && cfg.Valid() && StateOk(p.s)
    && (forall x: int :: TilesAt(cfg, p, x))
    && OnPages(p.s.lists) && forall i :: 0 <= i < |p.s.live| ==> p.s.live[i].addr % PAGE_SIZE == 0
  }

  lemma StartInv(cfg: Config)
    requires cfg.Valid() && cfg.memoryStart % PAGE_SIZE == 0
    ensures PagesInv(cfg, Pages(Start(cfg), []))
  {
    forall x: int ensures TilesAt(cfg, Pages(Start(cfg), []), x) {
      SumInitial(cfg.Base(), cfg.order, 0, CoverCount(x));
    }
  }

  lemma TakeOnPages(cfg: Config, s: State, order: nat)
    requires StateOk(s) && OnPages(s.lists) && Allocate(s.lists, order).Some?
    ensures OnPages(Allocate(s.lists, order).value.0) && Allocate(s.lists, order).value.1 % PAGE_SIZE == 0
  {
    var from := FirstNonEmpty(s.lists, order);
    assert s.lists[from][0] in s.lists[from];
    assert forall a :: a in s.lists[from][1..] ==> a in s.lists[from];
    SplitOnPages(s.lists[from := s.lists[from][1..]], s.lists[from][0], from, order);
  }

  lemma StepOnPages(cfg: Config, p: Pages, op: PageOp)
    requires PagesInv(cfg, p)
    ensures var s := PageStep(cfg, p, op).s;
            OnPages(s.lists) && forall i :: 0 <= i < |s.live| ==> s.live[i].addr % PAGE_SIZE == 0
  {
    match op
    case Take(order) => if Allocate(p.s.lists, order).Some? { TakeOnPages(cfg, p.s, order); }
    case Give(i) => if i < |p.s.live| { ReleaseOnPages(p.s.lists, p.s.live[i].addr, p.s.live[i].order); }
    case GiveFirst(i) => if i < |p.s.live| { ReleaseOnPages(p.s.lists, p.s.live[i].addr, 0); }
  }

  lemma PageStepKeeps(cfg: Config, p: Pages, op: PageOp)
    requires PagesInv(cfg, p)
    ensures PagesInv(cfg, PageStep(cfg, p, op))
  {
    StepOnPages(cfg, p, op);
    forall x: int ensures TilesAt(cfg, PageStep(cfg, p, op), x) {
      assert TilesAt(cfg, p, x);
      CoverCountAdditive(x);
      PageStepConserves(cfg, p, op, CoverCount(x));
    }
  }

  // --------------------------------------------------------------------- disjointness

  /** A byte of a live block is in no other, wrap-around included. */
  lemma LiveApart(cfg: Config, p: Pages, i: nat, j: nat, x: int)
    requires PagesInv(cfg, p) && i < |p.s.live| && j < |p.s.live| && i != j
    requires Covers(p.s.live[i].addr, p.s.live[i].order, x)
    ensures !Covers(p.s.live[j].addr, p.s.live[j].order, x)
  {
    assert TilesAt(cfg, p, x);
    SumOfTwo(p.s.live, if i < j then i else j, if i < j then j else i, CoverCount(x));
  }

  /** A live block lies in the initial block. */
  lemma LiveWithin(cfg: Config, p: Pages, i: nat, x: int)
    requires PagesInv(cfg, p) && i < |p.s.live| && Covers(p.s.live[i].addr, p.s.live[i].order, x)
    ensures Covers(cfg.Base(), cfg.order, x)
  {
    SumRemoveAt(p.s.live, i, CoverCount(x));
    assert TilesAt(cfg, p, x);
  }

  /** Two blocks as ranges of addresses. */
  predicate BlocksApart(b: Block, c: Block) {
    b.addr + Size(b.order) <= c.addr || c.addr + Size(c.order) <= b.addr
  }

  /** Blocks that share a range share its first byte. */
  lemma RangesApart(b: Block, c: Block)
    requires b.order <= MAX_ORDER && c.order <= MAX_ORDER
    requires forall x: nat :: !(Covers(b.addr, b.order, x) && Covers(c.addr, c.order, x))
    ensures BlocksApart(b, c)
  {
    if !BlocksApart(b, c) {
      var x := if b.addr < c.addr then c.addr else b.addr;
      InBlock(b, x);
      InBlock(c, x);
    }
  }

  lemma InBlock(b: Block, x: nat)
    requires b.addr <= x < b.addr + Size(b.order) && b.order <= MAX_ORDER
    ensures Covers(b.addr, b.order, x)
  {
    SizeFits(b.order);
  }

  lemma LiveRanges(cfg: Config, p: Pages, i: nat, j: nat)
    requires PagesInv(cfg, p) && i < |p.s.live| && j < |p.s.live| && i != j
    ensures BlocksApart(p.s.live[i], p.s.live[j])
  {
    var b, c := p.s.live[i], p.s.live[j];
    forall x: nat ensures !(Covers(b.addr, b.order, x) && Covers(c.addr, c.order, x)) {
      if Covers(b.addr, b.order, x) { LiveApart(cfg, p, i, j, x); }
    }
    RangesApart(b, c);
  }
}
