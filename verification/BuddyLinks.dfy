/** The free lists as chains of pointers: the link stored in each block leads to the next
    one, and address 0 ends the chain. */
module BuddyLinks {
  import opened Bits
  import opened Sequences
  import opened Buddy
  import opened BuddyTiling
  import opened BuddyRuns
  import opened BuddyCoalescing

  /** The blocks met when following the links: none from address 0 on. */
  function Linked(list: seq<nat>): (r: seq<nat>)
    ensures r <= list
  {
    if list == [] || list[0] == 0 then [] else [list[0]] + Linked(list[1..])
  }

  lemma {:induction false} LinkedAll(list: seq<nat>)
    ensures Linked(list) == list <==> 0 !in list
  {
    if list != [] {
      LinkedAll(list[1..]);
      assert list == [list[0]] + list[1..];
    }
  }

  /** In every state of every run the links reach every free block. */
  ghost predicate AlwaysLinked(cfg: Config)
    requires cfg.Valid()
  {
    forall ops, k :: 0 <= k <= MAX_ORDER ==> Linked(Run(cfg, ops).lists[k]) == Run(cfg, ops).lists[k]
  }

  // ---------------------------------------------------------------- never at address 0

  lemma {:induction false} ListCovers(list: seq<nat>, order: nat, a: nat)
    requires a in list
    ensures SumList(list, order, CoverCount(a)) >= 1
  {
    if list[0] != a {
      ListCovers(list[1..], order, a);
    } else {
      assert CoverCount(a)(a, order) == 1;
    }
  }

  lemma {:induction false} FreeCovers(lists: Lists, k: nat, j: nat, a: nat)
    requires j <= k < |lists| && a in lists[k]
    ensures SumFrom(lists, j, CoverCount(a)) >= 1
    decreases k - j
  {
    if j == k {
      ListCovers(lists[k], k, a);
    } else {
      FreeCovers(lists, k, j + 1, a);
    }
  }

  lemma NullNotListed(cfg: Config, ops: seq<Op>, k: nat)
    requires cfg.Valid() && k <= MAX_ORDER && !Covers(cfg.Base(), cfg.order, 0)
    ensures 0 !in Run(cfg, ops).lists[k]
  {
    RunTiles(cfg, ops, 0);
    if 0 in Run(cfg, ops).lists[k] { FreeCovers(Run(cfg, ops).lists, k, 0, 0); }
  }

  // ------------------------------------------------------------ a run that lists it

  /** The least free order is m, and the block in front of its list starts at h. */
  ghost predicate Least(s: State, m: nat, h: nat) {
    && StateOk(s) && m <= MAX_ORDER && s.lists[m] != [] && s.lists[m][0] == h
    && forall k :: 0 <= k < m ==> s.lists[k] == []
  }

  lemma AllocFromLeast(cfg: Config, s: State, m: nat, h: nat, q: nat)
    requires Least(s, m, h) && q < m
    ensures Least(Step(cfg, s, Alloc(q)), q, (h + Size(q)) % WORD)
  {
    StepKeepsOk(cfg, s, Alloc(q));
    var rest := s.lists[m := s.lists[m][1..]];
    assert FirstNonEmpty(s.lists, q) == m;
    assert Step(cfg, s, Alloc(q)).lists == Split(rest, h, m, q);
    SplitMeans(rest, h, m, q);
  }

  /** The largest block that fits in r bytes. */
  lemma {:induction false} LargestFit(r: nat, m: nat) returns (q: nat)
    requires Size(0) <= r < Size(m)
    ensures q < m && Size(q) <= r < 2 * Size(q)
  {
    if Size(m - 1) <= r {
      q := m - 1;
    } else {
      q := LargestFit(r, m - 1);
    }
  }

  lemma Nearer(h: nat, size: nat, r: nat)
    requires size <= r && size % PAGE_SIZE == 0 && r % PAGE_SIZE == 0
    ensures ((h + size) % WORD + (r - size)) % WORD == (h + r) % WORD && (r - size) % PAGE_SIZE == 0
  {
  }

  /** The next split on the way to the page r bytes into a block of order m at h. */
  lemma NextSplit(m: nat, h: nat, r: nat) returns (q: nat, h': nat, r': nat)
    requires 0 < r < Size(m) && r % PAGE_SIZE == 0 && m <= MAX_ORDER
    ensures q < m && h' == (h + Size(q)) % WORD && h' < WORD
    ensures r' < r && r' < Size(q) && r' % PAGE_SIZE == 0 && (h' + r') % WORD == (h + r) % WORD
  {
    q := LargestFit(r, m);
    SizeOnPages(q);
    Nearer(h, Size(q), r);
    h', r' := (h + Size(q)) % WORD, r - Size(q);
  }

  lemma RunOneMore(cfg: Config, ops: seq<Op>, op: Op)
    requires cfg.Valid()
    ensures Run(cfg, ops + [op]) == Step(cfg, Run(cfg, ops), op)
  {
    assert (ops + [op])[..|ops + [op]| - 1] == ops;
  }

  /** Allocations that split towards the page x, r bytes into the block in front: it gets
      listed. */
  lemma {:induction false} SplitTowards(cfg: Config, ops: seq<Op>, m: nat, h: nat, r: nat, x: nat)
    returns (ops': seq<Op>, k: nat)
    requires cfg.Valid() && Least(Run(cfg, ops), m, h) && r < Size(m) && r % PAGE_SIZE == 0
    requires h < WORD && x == (h + r) % WORD
    ensures k <= MAX_ORDER && x in Run(cfg, ops').lists[k]
    decreases r
  {
    if r == 0 {
      ops', k := ops, m;
    } else {
      var q, h', r' := NextSplit(m, h, r);
      RunOneMore(cfg, ops, Alloc(q));
      AllocFromLeast(cfg, Run(cfg, ops), m, h, q);
      ops', k := SplitTowards(cfg, ops + [Alloc(q)], q, h', r', x);
    }
  }

  lemma DistanceToNull(base: nat) returns (r: nat)
    requires base < WORD && base % PAGE_SIZE == 0
    ensures r == (0 - base) % WORD && r % PAGE_SIZE == 0 && (base + r) % WORD == 0
  {
    r := if base == 0 then 0 else WORD - base;
  }

  lemma MappedOnPage(phys: nat)
    requires phys % PAGE_SIZE == 0
    ensures PhysToVirt(phys) % PAGE_SIZE == 0
  {
  }

  lemma NullListed(cfg: Config) returns (ops: seq<Op>, k: nat)
    requires cfg.Valid() && cfg.memoryStart % PAGE_SIZE == 0 && Covers(cfg.Base(), cfg.order, 0)
    ensures k <= MAX_ORDER && 0 in Run(cfg, ops).lists[k]
  {
    MappedOnPage(cfg.memoryStart);
    var r := DistanceToNull(cfg.Base());
    assert Least(Run(cfg, []), cfg.order, cfg.Base());
    ops, k := SplitTowards(cfg, [], cfg.order, cfg.Base(), r, 0);
  }

  /** From a page-aligned region, the links reach every free block in every state exactly
      when the initial block does not contain address 0. */
  lemma LinkedIff(cfg: Config)
    requires cfg.Valid() && cfg.memoryStart % PAGE_SIZE == 0
    ensures AlwaysLinked(cfg) <==> !Covers(cfg.Base(), cfg.order, 0)
  {
    if Covers(cfg.Base(), cfg.order, 0) {
      var ops, k := NullListed(cfg);
      LinkedAll(Run(cfg, ops).lists[k]);
    } else {
      forall ops, k | 0 <= k <= MAX_ORDER ensures Linked(Run(cfg, ops).lists[k]) == Run(cfg, ops).lists[k] {
        NullNotListed(cfg, ops, k);
        LinkedAll(Run(cfg, ops).lists[k]);
      }
    }
  }
}
