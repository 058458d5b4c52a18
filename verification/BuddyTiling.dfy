/** What every allocation and release conserves: any additive measure of the free
    and live blocks, hence the exact tiling of the initial block and its page count. */
module BuddyTiling {
  import opened Bits
  import opened Sequences
  import opened Buddy

  type Measure = (nat, nat) -> nat

  ghost predicate SplitsAt(f: Measure, addr: nat, order: nat) {
    addr < WORD && order < MAX_ORDER ==>
      f(addr, order + 1) == f(addr, order) + f((addr + Size(order)) % WORD, order)
  }

  /** A measure of (address, order) that splits over the two halves of a block. */
  ghost predicate Additive(f: Measure) {
    forall addr: nat, order: nat :: SplitsAt(f, addr, order)
  }

  function Sum(blocks: seq<Block>, f: Measure): nat {
    if blocks == [] then 0 else f(blocks[0].addr, blocks[0].order) + Sum(blocks[1..], f)
  }

  function SumList(list: seq<nat>, order: nat, f: Measure): nat {
    if list == [] then 0 else f(list[0], order) + SumList(list[1..], order, f)
  }

  /** The measure of the free lists of order k and above. */
  function SumFrom(lists: Lists, k: nat, f: Measure): nat
    requires k <= |lists|
    decreases |lists| - k
  {
    if k == |lists| then 0 else SumList(lists[k], k, f) + SumFrom(lists, k + 1, f)
  }

  function SumFree(lists: Lists, f: Measure): nat {
    SumFrom(lists, 0, f)
  }

  lemma {:induction false} SumFromUpdate(lists: Lists, j: nat, list: seq<nat>, k: nat, f: Measure)
    requires j < |lists| && k <= |lists|
    ensures SumFrom(lists[j := list], k, f) + (if k <= j then SumList(lists[j], j, f) else 0)
         == SumFrom(lists, k, f) + (if k <= j then SumList(list, j, f) else 0)
    decreases |lists| - k
  {
    if k < |lists| { SumFromUpdate(lists, j, list, k + 1, f); }
  }

  lemma {:induction false} SumUnlinked(list: seq<nat>, addr: nat, order: nat, f: Measure)
    requires addr in list
    ensures SumList(Unlinked(list, addr), order, f) + f(addr, order) == SumList(list, order, f)
  {
    if list[0] != addr {
      UnlinkedLater(list, addr);
      SumUnlinked(list[1..], addr, order, f);
      assert Unlinked(list, addr)[1..] == Unlinked(list[1..], addr);
    } else {
      assert Unlinked(list, addr) == list[1..];
    }
  }

  lemma SumPush(lists: Lists, order: nat, addr: nat, f: Measure)
    requires order < |lists|
    ensures SumFree(Push(lists, order, addr), f) == SumFree(lists, f) + f(addr, order)
  {
    SumFromUpdate(lists, order, [addr] + lists[order], 0, f);
    assert ([addr] + lists[order])[1..] == lists[order];
  }

  lemma {:induction false} SumSplit(lists: Lists, addr: nat, from: nat, order: nat, f: Measure)
    requires Additive(f) && addr < WORD
    requires order <= from <= MAX_ORDER && from < |lists|
    ensures SumFree(Split(lists, addr, from, order), f) + f(addr, order)
         == SumFree(lists, f) + f(addr, from)
    decreases from
  {
    if from > order {
      var upper := (addr + Size(from - 1)) % WORD;
      var pushed := Push(lists, from - 1, upper);
      assert Split(lists, addr, from, order) == Split(pushed, addr, from - 1, order);
      assert f(addr, from) == f(addr, from - 1) + f(upper, from - 1) by { assert SplitsAt(f, addr, from - 1); }
      SumPush(lists, from - 1, upper, f);
      SumSplit(pushed, addr, from - 1, order, f);
    }
  }

  /** Allocation moves measure from the free lists to the block it returns. */
  lemma AllocateConserves(lists: Lists, order: nat, f: Measure)
    requires WellFormed(lists) && Additive(f) && Allocate(lists, order).Some?
    ensures var (after, addr) := Allocate(lists, order).value;
            addr < WORD && SumFree(after, f) + f(addr, order) == SumFree(lists, f)
  {
    var from := FirstNonEmpty(lists, order);
    var addr := lists[from][0];
    SumFromUpdate(lists, from, lists[from][1..], 0, f);
    SumSplit(lists[from := lists[from][1..]], addr, from, order, f);
  }

  lemma BuddyHalves(addr: nat, order: nat, f: Measure)
    requires Additive(f) && addr < WORD && order < MAX_ORDER
    ensures var buddy := BuddyOf(addr, order);
            var low := if addr < buddy then addr else buddy;
            low < WORD && f(low, order + 1) == f(addr, order) + f(buddy, order)
  {
    BuddyIsNeighbour(addr, order);
    var buddy := BuddyOf(addr, order);
    var low := if addr < buddy then addr else buddy;
    assert SplitsAt(f, low, order);
  }

  lemma MergeConserves(lists: Lists, addr: nat, order: nat, f: Measure)
    requires WellFormed(lists) && Additive(f) && addr < WORD && order < MAX_ORDER
    requires BuddyOf(addr, order) in lists[order]
    ensures var buddy := BuddyOf(addr, order);
            var rest := lists[order := Unlinked(lists[order], buddy)];
            var low := if addr < buddy then addr else buddy;
            && WellFormed(rest) && low < WORD
            && SumFree(rest, f) + f(low, order + 1) == SumFree(lists, f) + f(addr, order)
  {
    var buddy := BuddyOf(addr, order);
    var shorter := Unlinked(lists[order], buddy);
    BuddyHalves(addr, order, f);
    SumUnlinked(lists[order], buddy, order, f);
    SumFromUpdate(lists, order, shorter, 0, f);
    RemoveKeepsWellFormed(lists, order, buddy);
  }

  lemma RemoveKeepsWellFormed(lists: Lists, order: nat, addr: nat)
    requires WellFormed(lists) && order <= MAX_ORDER && addr in lists[order]
    ensures WellFormed(lists[order := Unlinked(lists[order], addr)])
  {
    var shorter := Unlinked(lists[order], addr);
    UnlinkedMembers(lists[order], addr);
    forall i | 0 <= i < |shorter| ensures shorter[i] < WORD {
      assert shorter[i] in lists[order];
    }
  }

  /** Release moves the block's measure back, however far it merges. */
  lemma {:induction false} ReleaseConserves(lists: Lists, addr: nat, order: nat, f: Measure)
    requires WellFormed(lists) && Additive(f) && addr < WORD && order <= MAX_ORDER
    ensures SumFree(Release(lists, addr, order), f) == SumFree(lists, f) + f(addr, order)
    decreases MAX_ORDER - order
  {
    var buddy := BuddyOf(addr, order);
    if order < MAX_ORDER && buddy in lists[order] {
      MergeConserves(lists, addr, order, f);
      ReleaseConserves(lists[order := Unlinked(lists[order], buddy)],
                       if addr < buddy then addr else buddy, order + 1, f);
    } else {
      SumPush(lists, order, addr, f);
    }
  }
}
