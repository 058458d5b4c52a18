/** Two-level page tables of 32-bit paging, held in physical frames, and the flat
    map from pages to entries that they stand for. */
module PageTable {

  /** A 32-bit word: a 20-bit frame number and 12 low bits. */
  datatype Word = Word(frame: nat, bits: bv12)

  /** The frames that hold directories and page tables, by frame number. */
  type Memory = map<nat, seq<Word>>

  const PRESENT: bv12 := 0x1
  const WRITE: bv12 := 0x2
  const USER: bv12 := 0x4
  const COW: bv12 := 0x200
  const ENTRIES: nat := 1024
  const PAGES: nat := 0x10_0000  // pages of a 4 GB address space, and frames of 4 GB
  const NOTHING: Word := Word(0, 0)

  predicate IsPresent(e: Word) { e.bits & PRESENT != 0 }

  predicate IsWritable(e: Word) { e.bits & WRITE != 0 }

  predicate IsCow(e: Word) { e.bits & COW != 0 }

  function DirOf(page: nat): nat { page / ENTRIES }

  /** Directory entry d of the directory in frame pgd. */
  function Pde(m: Memory, pgd: nat, d: nat): Word {
    if pgd in m && d < |m[pgd]| then m[pgd][d] else NOTHING
  }

  /** Directory pgd is in memory, and within directory entries lo up to hi the
      present ones have tables of their own. */
  ghost predicate SpaceOk(m: Memory, pgd: nat, lo: nat, hi: nat) {
    && lo <= hi <= ENTRIES && pgd in m && |m[pgd]| == ENTRIES
    && (forall d :: lo <= d < hi && IsPresent(m[pgd][d]) ==>
          var t := m[pgd][d].frame; t in m && |m[t]| == ENTRIES && t != pgd)
    && (forall d, d' :: lo <= d < d' < hi && IsPresent(m[pgd][d]) && IsPresent(m[pgd][d']) ==>
          m[pgd][d].frame != m[pgd][d'].frame)
  }

  /** The page-table entry of a page; zero where no table exists. */
  function Lookup(m: Memory, pgd: nat, page: nat): Word {
    var e := Pde(m, pgd, DirOf(page));
    if IsPresent(e) then Pde(m, e.frame, page % ENTRIES) else NOTHING
  }

  predicate InRegion(page: nat, lo: nat, hi: nat) {
    lo <= DirOf(page) < hi <= ENTRIES
  }

  // ------------------------------------------------------------------------ updates

  function Zeros(): (r: seq<Word>)
    ensures |r| == ENTRIES && forall i :: 0 <= i < ENTRIES ==> r[i] == NOTHING
  {
    seq(ENTRIES, _ => NOTHING)
  }

  /** A fresh, empty table in frame f for directory entry d. */
  function AddTable(m: Memory, pgd: nat, d: nat, f: nat): Memory {
    SetEntry(m, pgd, d, Word(f, PRESENT | WRITE | USER))[f := Zeros()]
  }

  /** Write one word of a frame; a write outside the modelled frames is lost. */
  function SetEntry(m: Memory, table: nat, i: nat, e: Word): Memory {
    if table in m && i < |m[table]| then m[table := m[table][i := e]] else m
  }

  /** Frame f serves no directory entry of the region. */
  ghost predicate Unused(m: Memory, pgd: nat, lo: nat, hi: nat, f: nat)
    requires pgd in m && |m[pgd]| == ENTRIES && hi <= ENTRIES
  {
    f != pgd && forall d :: lo <= d < hi && IsPresent(m[pgd][d]) ==> m[pgd][d].frame != f
  }

  /** A table created on demand adds no mapping. */
  lemma AddTableKeeps(m: Memory, pgd: nat, lo: nat, hi: nat, d: nat, f: nat)
    requires SpaceOk(m, pgd, lo, hi) && lo <= d < hi && !IsPresent(m[pgd][d])
    requires Unused(m, pgd, lo, hi, f)
    ensures SpaceOk(AddTable(m, pgd, d, f), pgd, lo, hi)
    ensures forall page: nat :: page < PAGES && InRegion(page, lo, hi) ==>
      Lookup(AddTable(m, pgd, d, f), pgd, page) == Lookup(m, pgd, page)
  {
    var m' := AddTable(m, pgd, d, f);
    assert m'[pgd] == m[pgd][d := Word(f, PRESENT | WRITE | USER)];
    assert m'[f] == Zeros();
    assert forall g :: g in m && g != pgd && g != f ==> g in m' && m'[g] == m[g];
  }

  /** Writing one entry changes the mapping of its page only. */
  lemma SetEntryChanges(m: Memory, pgd: nat, lo: nat, hi: nat, page: nat, e: Word)
    requires SpaceOk(m, pgd, lo, hi) && page < PAGES && InRegion(page, lo, hi)
    requires IsPresent(m[pgd][DirOf(page)])
    ensures var m' := SetEntry(m, m[pgd][DirOf(page)].frame, page % ENTRIES, e);
            && SpaceOk(m', pgd, lo, hi)
            && forall q: nat :: q < PAGES && InRegion(q, lo, hi) ==>
                 Lookup(m', pgd, q) == if q == page then e else Lookup(m, pgd, q)
  {
    var m' := SetEntry(m, m[pgd][DirOf(page)].frame, page % ENTRIES, e);
    assert m'[pgd] == m[pgd];
    assert forall g :: g in m ==> g in m' && |m'[g]| == |m[g]|;
    forall q: nat | q < PAGES && InRegion(q, lo, hi)
      ensures Lookup(m', pgd, q) == if q == page then e else Lookup(m, pgd, q)
    {
      if DirOf(q) < DirOf(page) || DirOf(page) < DirOf(q) {
        assert IsPresent(m[pgd][DirOf(q)]) ==> m[pgd][DirOf(q)].frame != m[pgd][DirOf(page)].frame;
      }
    }
  }
}
