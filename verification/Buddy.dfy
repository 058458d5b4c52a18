/** The buddy page allocator: per-order free lists of blocks, splitting on
    allocation and merging with the exclusive-or buddy on release. Addresses are
    32-bit virtual addresses in bytes; every address sum wraps at 2^32. */
module Buddy {
  import opened Bits
  import opened Sequences

  const PAGE_SIZE: nat := 0x1000
  const MAX_ORDER: nat := 20

  datatype Option<+T> = None | Some(value: T)

  /** A run of 2^order pages starting at addr. */
  datatype Block = Block(addr: nat, order: nat)

  /** Entry k is the free list of order k, head first. */
  type Lists = seq<seq<nat>>

  /** Bytes in a block of 2^order pages. */
  function Size(order: nat): (r: nat)
    ensures r >= PAGE_SIZE
  {
    Pow2(order) * PAGE_SIZE
  }

  function BuddyOf(addr: nat, order: nat): nat {
    Xor(addr, Size(order))
  }

  predicate WellFormed(lists: Lists) {
    && |lists| == MAX_ORDER + 1
    && forall k, i :: 0 <= k < |lists| && 0 <= i < |lists[k]| ==> lists[k][i] < WORD
  }

  // ---------------------------------------------------------------- operations

  function Push(lists: Lists, order: nat, addr: nat): Lists
    requires order < |lists|
  {
    lists[order := [addr] + lists[order]]
  }

  /** The smallest order at or above `order` with a free block; |lists| if none. */
  function FirstNonEmpty(lists: Lists, order: nat): (r: nat)
    requires order <= |lists|
    ensures order <= r <= |lists|
    ensures r < |lists| ==> lists[r] != []
    ensures forall k :: order <= k < r ==> lists[k] == []
    decreases |lists| - order
  {
    if order == |lists| || lists[order] != [] then order else FirstNonEmpty(lists, order + 1)
  }

  /** Halve the block at addr from order `from` down to `order`, keeping the lower
      half each time and listing the upper one. */
  function Split(lists: Lists, addr: nat, from: nat, order: nat): (r: Lists)
    requires order <= from <= |lists|
    ensures |r| == |lists|
    decreases from
  {
    if from == order then lists
    else Split(Push(lists, from - 1, (addr + Size(from - 1)) % WORD), addr, from - 1, order)
  }

  /** The lists after taking a block of the given order, and its address. */
  function Allocate(lists: Lists, order: nat): (r: Option<(Lists, nat)>)
    ensures r.Some? ==> |r.value.0| == |lists|
  {
    if order >= |lists| then None
    else
      var from := FirstNonEmpty(lists, order);
      if from == |lists| then None
      else
        var addr := lists[from][0];
        Some((Split(lists[from := lists[from][1..]], addr, from, order), addr))
  }

  /** A request is refused exactly when it is too large or no list from its order on has a
      block. */
  lemma AllocateFailsIff(lists: Lists, order: nat)
    requires |lists| == MAX_ORDER + 1
    ensures Allocate(lists, order).None? <==>
            order > MAX_ORDER || forall k :: order <= k <= MAX_ORDER ==> lists[k] == []
  {
  }

  /** Allocation takes the first block of the smallest order that has one, and of what it
      splits off it lists one block of each order in between: the upper half there. */
  ghost predicate FromSmallest(lists: Lists, after: Lists, addr: nat, order: nat, from: nat) {
    && order <= from < |lists| == |after| && (forall k :: order <= k < from ==> lists[k] == [])
    && lists[from] == [addr] + (if from == order then after[order] else after[from])
    && (forall k :: order <= k < from ==> after[k] == [(addr + Size(k)) % WORD])
    && (forall k :: 0 <= k < |lists| && (k < order || from < k) ==> after[k] == lists[k])
  }

  lemma {:induction false} SplitMeans(lists: Lists, addr: nat, from: nat, order: nat)
    requires order <= from <= |lists| && forall k :: order <= k < from ==> lists[k] == []
    ensures var r := Split(lists, addr, from, order);
            forall k :: 0 <= k < |lists| ==>
              r[k] == if order <= k < from then [(addr + Size(k)) % WORD] else lists[k]
    decreases from
  {
    if from > order {
      var upper := (addr + Size(from - 1)) % WORD;
      assert [upper] + lists[from - 1] == [upper];
      SplitMeans(Push(lists, from - 1, upper), addr, from - 1, order);
    }
  }

  lemma AllocateMeans(lists: Lists, order: nat)
    requires Allocate(lists, order).Some?
    ensures var (after, addr) := Allocate(lists, order).value;
            exists from :: FromSmallest(lists, after, addr, order, from)
  {
    var from := FirstNonEmpty(lists, order);
    var addr := lists[from][0];
    var (after, _) := Allocate(lists, order).value;
    SplitMeans(lists[from := lists[from][1..]], addr, from, order);
    assert FromSmallest(lists, after, addr, order, from);
  }

  /** The lists after returning a block, merging with its buddy as far as the
      buddy is free. */
  function Release(lists: Lists, addr: nat, order: nat): (r: Lists)
    requires |lists| == MAX_ORDER + 1 && order <= MAX_ORDER
    ensures |r| == |lists|
    decreases MAX_ORDER - order
  {
    var buddy := BuddyOf(addr, order);
    if order < MAX_ORDER && buddy in lists[order] then
      Release(lists[order := Unlinked(lists[order], buddy)],
              if addr < buddy then addr else buddy, order + 1)
    else Push(lists, order, addr)
  }

  // ------------------------------------------------------- buddies and alignment

  lemma SizeIsPow2(order: nat)
    ensures Size(order) == Pow2(order + 12)
    ensures Size(order + 1) == 2 * Size(order)
  {
    Pow2Values();
    Pow2Add(order, 12);
  }

  lemma SizeFits(order: nat)
    requires order <= MAX_ORDER
    ensures Size(order) <= WORD && WORD % Size(order) == 0
    ensures order < MAX_ORDER ==> 2 * Size(order) <= WORD
  {
    Pow2Values();
    SizeIsPow2(order);
    Pow2Divides(order + 12, 32);
    Pow2Monotone(order + 12, 32);
    if order < MAX_ORDER { Pow2Monotone(order + 13, 32); }
  }

  /** The buddy is one block size above or below, without wrap-around. */
  lemma BuddyIsNeighbour(addr: nat, order: nat)
    requires addr < WORD && order < MAX_ORDER
    ensures BuddyOf(addr, order) < WORD && BuddyOf(BuddyOf(addr, order), order) == addr
    ensures BuddyOf(addr, order) ==
            if BitSet(addr, order + 12) then addr - Size(order) else addr + Size(order)
  {
    SizeIsPow2(order);
    Pow2Values();
    XorPow2(addr, order + 12);
    FlippedBit(addr, order + 12);
    XorPow2(Xor(addr, Pow2(order + 12)), order + 12);
    if !BitSet(addr, order + 12) { SetBitStaysBelow(addr, order + 12, 32); }
  }
}
