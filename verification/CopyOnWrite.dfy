/** Copy-on-write address spaces: cloning a directory, and the page-fault handler
    that maps pages on demand and replaces shared pages on a write. */
module CopyOnWrite {
  import opened PageTable
  import opened Sequences
  import opened UserMemory

  const USER_LO: nat := 256      // directory entries of 0x40000000 up to 0xC0000000
  const USER_HI: nat := 768
  const KERNEL_LO: nat := 768
  const KERNEL_HI: nat := 992    // 224 kernel tables
  const APIC_DIR: nat := 1019    // directory entry of 0xFEC00000
  const MAX_TABLE: nat := 0x3_8000  // the frame at 896 MB

  // ------------------------------------------------------------------ copying a table

  /** What cloning does to an entry: writable becomes copy-on-write. */
  function CowWord(e: Word): Word {
    if IsWritable(e) then Word(e.frame, (e.bits & 0xFFD) | COW) else e
  }

  function CowTable(t: seq<Word>): (r: seq<Word>)
    ensures |r| == |t| && forall i :: 0 <= i < |t| ==> r[i] == CowWord(t[i])
  {
    seq(|t|, i requires 0 <= i < |t| => CowWord(t[i]))
  }

  /** Cloning keeps the frame and every other flag, leaves nothing writable, and marks
      exactly the entries that were writable or already copy-on-write. */
  lemma CowWordMeans(e: Word)
    ensures CowWord(e).frame == e.frame && !IsWritable(CowWord(e))
    ensures IsCow(CowWord(e)) <==> IsWritable(e) || IsCow(e)
    ensures CowWord(e).bits & 0xDFD == e.bits & 0xDFD
    ensures CowWord(CowWord(e)) == CowWord(e)
  {
  }

  // -------------------------------------------------------------- cloning a directory

  /** Whether the table of an entry is copied: it is present and lies within the
      directly mapped memory. */
  predicate Copied(e: Word) {
    IsPresent(e) && e.frame <= MAX_TABLE
  }

  /** One user directory entry of copyMemorySpaceCOW. */
  function CloneDir(s: Frames, src: nat, dst: nat, d: nat): Frames {
    var e := Pde(s.words, src, d);
    var m := SetEntry(s.words, dst, d, e);
    if !Copied(e) || e.frame !in m then Frames(m, s.pool)
    else
      var f, t := NextFrame(s.pool), CowTable(m[e.frame]);
      Frames(SetEntry(m[e.frame := t][f := t], dst, d, Word(f, e.bits)), RestOf(s.pool))
  }

  /** The kernel part: an empty directory, the first 4 MB, the shared kernel tables and
      a private copy of the APIC table. */
  function CloneKernel(s: Frames, src: nat, dst: nat): Frames
  {
    var dir := seq(ENTRIES, d =>
      if d == 0 || KERNEL_LO <= d < KERNEL_HI then Pde(s.words, src, d) else NOTHING);
    var f, apic := NextFrame(s.pool), Pde(s.words, src, APIC_DIR).frame;
    var m := s.words[dst := dir];
    var copy := if apic in m then m[apic] else Zeros();
    Frames(SetEntry(m[f := copy], dst, APIC_DIR, Word(f, PRESENT | WRITE)), RestOf(s.pool))
  }

  /** The user loop up to directory entry d. */
  function CloneDirs(s: Frames, src: nat, dst: nat, d: nat): Frames
    decreases d, src
  {
    if d <= USER_LO then s else CloneDir(CloneDirs(s, src, dst, d - 1), src, dst, d - 1)
  }

  // --------------------------------------------------------- what cloning achieves

  /** How many tables the directory entries below d make it copy. */
  function CopyCount(m: Memory, src: nat, d: nat): nat {
    if d <= USER_LO then 0
    else CopyCount(m, src, d - 1) + if Copied(Pde(m, src, d - 1)) then 1 else 0
  }

  lemma {:induction false} CopyCountGrows(m: Memory, src: nat, d: nat, d': nat)
    requires USER_LO <= d < d'
    ensures CopyCount(m, src, d) + (if Copied(Pde(m, src, d)) then 1 else 0) <= CopyCount(m, src, d')
    decreases d'
  {
    if d + 1 < d' { CopyCountGrows(m, src, d, d' - 1); }
  }

  /** The frame that the copy of entry d's table goes to. */
  function CopyFrame(s: Frames, src: nat, d: nat): nat
    requires CopyCount(s.words, src, d) < |s.pool|
  {
    s.pool[CopyCount(s.words, src, d)]
  }

  /** Source, destination and free frames are separate frames of memory, and there
      are enough free frames for the copies. */
  ghost predicate CloneReady(s: Frames, src: nat, dst: nat) {
    && SpaceOk(s.words, src, USER_LO, USER_HI) && dst in s.words && |s.words[dst]| == ENTRIES && src != dst
    && Unused(s.words, src, USER_LO, USER_HI, dst)
    && NoRepeats(s.pool) && CopyCount(s.words, src, USER_HI) <= |s.pool|
    && forall f :: f in s.pool ==>
         f in s.words && |s.words[f]| == ENTRIES && f != dst && Unused(s.words, src, USER_LO, USER_HI, f)
  }

  /** The destination's directory entries below d. */
  ghost predicate DirsCloned(s: Frames, m: Memory, src: nat, dst: nat, d: nat) {
    forall e :: USER_LO <= e < d ==>
      var w := Pde(s.words, src, e);
      && (!Copied(w) ==> Pde(m, dst, e) == w)
      && (Copied(w) ==> CopyCount(s.words, src, e) < |s.pool| && Pde(m, dst, e) == Word(CopyFrame(s, src, e), w.bits))
  }

  /** Their tables and the copies: the same entries, none writable. */
  ghost predicate TablesCloned(s: Frames, m: Memory, src: nat, d: nat) {
    forall e :: USER_LO <= e < d && Copied(Pde(s.words, src, e)) ==>
      var t := Pde(s.words, src, e).frame;
      && CopyCount(s.words, src, e) < |s.pool| && t in s.words && t in m && CopyFrame(s, src, e) in m
      && m[t] == CowTable(s.words[t]) && m[CopyFrame(s, src, e)] == CowTable(s.words[t])
  }

  ghost predicate CopiedTable(m: Memory, src: nat, d: nat, g: nat) {
    exists e :: USER_LO <= e < d && Copied(Pde(m, src, e)) && Pde(m, src, e).frame == g
  }

  lemma StillCopied(m: Memory, src: nat, d: nat, g: nat)
    requires USER_LO <= d && !CopiedTable(m, src, d + 1, g)
    ensures !CopiedTable(m, src, d, g) && (Copied(Pde(m, src, d)) ==> Pde(m, src, d).frame != g)
  {
    forall e | USER_LO <= e < d + 1 && Copied(Pde(m, src, e)) ensures Pde(m, src, e).frame != g {
    }
  }

  /** Nothing but the destination, the copied tables and their copies is written. */
  ghost predicate RestKept(s: Frames, m: Memory, src: nat, dst: nat, d: nat)
    requires CopyCount(s.words, src, d) <= |s.pool|
  {
    && m.Keys == s.words.Keys
    && (forall g :: g in m ==> |m[g]| == |s.words[g]|)
    && forall g ::
         g in m && g != dst && g !in s.pool[..CopyCount(s.words, src, d)] && !CopiedTable(s.words, src, d, g) ==>
         m[g] == s.words[g]
  }

  ghost predicate ClonedTo(s: Frames, s': Frames, src: nat, dst: nat, d: nat) {
    && CopyCount(s.words, src, d) <= |s.pool| && s'.pool == s.pool[CopyCount(s.words, src, d)..]
    && DirsCloned(s, s'.words, src, dst, d) && TablesCloned(s, s'.words, src, d) && RestKept(s, s'.words, src, dst, d)
  }

  /** The source directory and the tables still to come are untouched. */
  lemma SourceKept(s: Frames, s': Frames, src: nat, dst: nat, d: nat)
    requires CloneReady(s, src, dst) && USER_LO <= d < USER_HI && ClonedTo(s, s', src, dst, d)
    ensures s'.words[src] == s.words[src]
    ensures Copied(Pde(s.words, src, d)) ==>
      var t := Pde(s.words, src, d).frame; t in s.words && t != dst && s'.words[t] == s.words[t]
  {
    var w := Pde(s.words, src, d);
    assert src !in s.pool && !CopiedTable(s.words, src, d, src);
    if Copied(w) {
      assert w.frame !in s.pool && !CopiedTable(s.words, src, d, w.frame);
    }
  }

  lemma DirsStep(s: Frames, m: Memory, m2: Memory, src: nat, dst: nat, d: nat)
    requires USER_LO <= d < USER_HI && DirsCloned(s, m, src, dst, d)
    requires dst in m && dst in m2 && |m[dst]| == |m2[dst]| == ENTRIES
    requires forall e :: USER_LO <= e < d ==> m2[dst][e] == m[dst][e]
    requires var w := Pde(s.words, src, d);
             if Copied(w) then CopyCount(s.words, src, d) < |s.pool| && m2[dst][d] == Word(CopyFrame(s, src, d), w.bits)
             else m2[dst][d] == w
    ensures DirsCloned(s, m2, src, dst, d + 1)
  {
    forall e | USER_LO <= e < d + 1
      ensures var w := Pde(s.words, src, e);
              && (!Copied(w) ==> Pde(m2, dst, e) == w)
              && (Copied(w) ==>
                    CopyCount(s.words, src, e) < |s.pool| && Pde(m2, dst, e) == Word(CopyFrame(s, src, e), w.bits))
    {
      if e < d { assert Pde(m2, dst, e) == Pde(m, dst, e); }
    }
  }

  /** An entry that is not copied: only the destination directory changes. */
  lemma ClonedSkip(s: Frames, s': Frames, s2: Frames, src: nat, dst: nat, d: nat)
    requires CloneReady(s, src, dst) && USER_LO <= d < USER_HI && ClonedTo(s, s', src, dst, d)
    requires !Copied(Pde(s.words, src, d))
    requires s2 == CloneDir(s', src, dst, d)
    ensures ClonedTo(s, s2, src, dst, d + 1)
  {
    SourceKept(s, s', src, dst, d);
    var m, m2 := s'.words, s2.words;
    assert m2 == m[dst := m[dst][d := Pde(s.words, src, d)]];
    DirsStep(s, m, m2, src, dst, d);
    TablesElsewhere(s, m, m2, src, dst, d);
    RestElsewhere(s, m, m2, src, dst, d);
  }

  lemma TablesElsewhere(s: Frames, m: Memory, m2: Memory, src: nat, dst: nat, d: nat)
    requires CloneReady(s, src, dst) && USER_LO <= d < USER_HI && TablesCloned(s, m, src, d)
    requires m2.Keys == m.Keys && forall g :: g in m && g != dst ==> m2[g] == m[g]
    requires !Copied(Pde(s.words, src, d))
    ensures TablesCloned(s, m2, src, d + 1)
  {
    forall e | USER_LO <= e < d + 1 && Copied(Pde(s.words, src, e))
      ensures var t := Pde(s.words, src, e).frame;
              && CopyCount(s.words, src, e) < |s.pool| && t in s.words && t in m2 && CopyFrame(s, src, e) in m2
              && m2[t] == CowTable(s.words[t]) && m2[CopyFrame(s, src, e)] == CowTable(s.words[t])
    {
      assert CopyFrame(s, src, e) in s.pool;
    }
  }

  /** Frames that RestKept speaks of after entry d are among those it speaks of before. */
  lemma SparedBefore(s: Frames, src: nat, d: nat, g: nat)
    requires USER_LO <= d && CopyCount(s.words, src, d + 1) <= |s.pool|
    requires g !in s.pool[..CopyCount(s.words, src, d + 1)] && !CopiedTable(s.words, src, d + 1, g)
    ensures g !in s.pool[..CopyCount(s.words, src, d)] && !CopiedTable(s.words, src, d, g)
    ensures Copied(Pde(s.words, src, d)) ==> g != Pde(s.words, src, d).frame && g != s.pool[CopyCount(s.words, src, d)]
  {
    var k := CopyCount(s.words, src, d);
    StillCopied(s.words, src, d, g);
    if Copied(Pde(s.words, src, d)) {
      assert s.pool[..k + 1] == s.pool[..k] + [s.pool[k]];
    }
  }

  lemma RestElsewhere(s: Frames, m: Memory, m2: Memory, src: nat, dst: nat, d: nat)
    requires USER_LO <= d < USER_HI && dst in s.words && |s.words[dst]| == ENTRIES
    requires CopyCount(s.words, src, d) <= |s.pool| && RestKept(s, m, src, dst, d)
    requires m2.Keys == m.Keys && |m2[dst]| == ENTRIES && forall g :: g in m && g != dst ==> m2[g] == m[g]
    requires !Copied(Pde(s.words, src, d))
    ensures RestKept(s, m2, src, dst, d + 1)
  {
    var pool := s.pool[..CopyCount(s.words, src, d + 1)];
    forall g | g in m2 && g != dst && g !in pool && !CopiedTable(s.words, src, d + 1, g) ensures m2[g] == s.words[g] {
      SparedBefore(s, src, d, g);
    }
  }

  /** The frames that copying entry d writes are not those of earlier entries. */
  lemma CopyFrames(s: Frames, src: nat, dst: nat, d: nat)
    requires CloneReady(s, src, dst) && USER_LO <= d < USER_HI && Copied(Pde(s.words, src, d))
    ensures CopyCount(s.words, src, d) < |s.pool|
    ensures var t := Pde(s.words, src, d).frame;
            var f := CopyFrame(s, src, d);
            && t in s.words && f in s.words && |s.words[t]| == |s.words[f]| == ENTRIES
            && t != src && t != dst && f != src && f != dst && f != t && f in s.pool
    ensures forall e :: USER_LO <= e < d && Copied(Pde(s.words, src, e)) ==>
      && CopyCount(s.words, src, e) < CopyCount(s.words, src, d)
      && Pde(s.words, src, e).frame != Pde(s.words, src, d).frame && Pde(s.words, src, e).frame != CopyFrame(s, src, d)
      && CopyFrame(s, src, e) != CopyFrame(s, src, d) && CopyFrame(s, src, e) != Pde(s.words, src, d).frame
  {
    CopyCountGrows(s.words, src, d, USER_HI);
    var f := CopyFrame(s, src, d);
    assert f in s.pool;
    forall e | USER_LO <= e < d && Copied(Pde(s.words, src, e))
      ensures && CopyCount(s.words, src, e) < CopyCount(s.words, src, d)
              && Pde(s.words, src, e).frame != Pde(s.words, src, d).frame && Pde(s.words, src, e).frame != f
              && CopyFrame(s, src, e) != f && CopyFrame(s, src, e) != Pde(s.words, src, d).frame
    {
      CopyCountGrows(s.words, src, e, d);
      assert CopyFrame(s, src, e) in s.pool;
    }
  }

  lemma TablesCopyStep(s: Frames, m: Memory, m2: Memory, src: nat, dst: nat, d: nat)
    requires CloneReady(s, src, dst) && USER_LO <= d < USER_HI && TablesCloned(s, m, src, d)
    requires Copied(Pde(s.words, src, d)) && CopyCount(s.words, src, d) < |s.pool|
    requires var t := Pde(s.words, src, d).frame;
             var f := CopyFrame(s, src, d);
             && t in s.words && t in m && f in m && m2.Keys == m.Keys
             && m2[t] == m2[f] == CowTable(s.words[t])
             && forall g :: g in m && g != dst && g != t && g != f ==> m2[g] == m[g]
    ensures TablesCloned(s, m2, src, d + 1)
  {
    CopyFrames(s, src, dst, d);
    forall e | USER_LO <= e < d + 1 && Copied(Pde(s.words, src, e))
      ensures var t := Pde(s.words, src, e).frame;
              && CopyCount(s.words, src, e) < |s.pool| && t in s.words && t in m2 && CopyFrame(s, src, e) in m2
              && m2[t] == CowTable(s.words[t]) && m2[CopyFrame(s, src, e)] == CowTable(s.words[t])
    {
      if e < d { assert CopyFrame(s, src, e) in s.pool; }
    }
  }

  lemma RestCopyStep(s: Frames, m: Memory, m2: Memory, src: nat, dst: nat, d: nat)
    requires USER_LO <= d < USER_HI && dst in s.words && |s.words[dst]| == ENTRIES
    requires Copied(Pde(s.words, src, d)) && CopyCount(s.words, src, d) < |s.pool| && RestKept(s, m, src, dst, d)
    requires var t := Pde(s.words, src, d).frame;
             var f := CopyFrame(s, src, d);
             && m2.Keys == m.Keys && (forall g :: g in m ==> |m2[g]| == |m[g]|)
             && forall g :: g in m && g != dst && g != t && g != f ==> m2[g] == m[g]
    ensures RestKept(s, m2, src, dst, d + 1)
  {
    var pool := s.pool[..CopyCount(s.words, src, d + 1)];
    forall g | g in m2 && g != dst && g !in pool && !CopiedTable(s.words, src, d + 1, g) ensures m2[g] == s.words[g] {
      SparedBefore(s, src, d, g);
    }
  }

  /** The writes of one copied entry. */
  lemma CloneDirWrites(s: Frames, src: nat, dst: nat, d: nat)
    requires dst in s.words && d < |s.words[dst]| && s.pool != [] && src != dst
    requires var w := Pde(s.words, src, d);
             Copied(w) && w.frame in s.words && w.frame != dst && s.pool[0] in s.words && s.pool[0] != dst
                 && s.pool[0] != w.frame
    ensures var w := Pde(s.words, src, d);
            var f := s.pool[0];
            var m2 := CloneDir(s, src, dst, d).words;
            && m2.Keys == s.words.Keys && m2[w.frame] == m2[f] == CowTable(s.words[w.frame])
            && m2[dst] == s.words[dst][d := Word(f, w.bits)]
            && (forall g :: g in s.words && g != dst && g != w.frame && g != f ==> m2[g] == s.words[g])
            && CloneDir(s, src, dst, d).pool == s.pool[1..]
  {
  }

  /** What copying entry d writes, seen from the start of the loop. */
  lemma CopyWrites(s: Frames, s': Frames, src: nat, dst: nat, d: nat)
    requires CloneReady(s, src, dst) && USER_LO <= d < USER_HI && ClonedTo(s, s', src, dst, d)
    requires Copied(Pde(s.words, src, d))
    ensures CopyCount(s.words, src, d) < |s.pool|
    ensures var w := Pde(s.words, src, d);
            var f := CopyFrame(s, src, d);
            var m2 := CloneDir(s', src, dst, d).words;
            && w.frame in s.words && m2.Keys == s.words.Keys && w.frame in m2 && f in m2 && dst in m2
            && m2[w.frame] == m2[f] == CowTable(s.words[w.frame])
            && m2[dst] == s'.words[dst][d := Word(f, w.bits)] && |m2[dst]| == ENTRIES
            && (forall g :: g in m2 && g != dst && g != w.frame && g != f ==> m2[g] == s'.words[g])
            && (forall g :: g in m2 ==> |m2[g]| == |s'.words[g]|)
            && CloneDir(s', src, dst, d).pool == s.pool[CopyCount(s.words, src, d) + 1..]
  {
    SourceKept(s, s', src, dst, d);
    CopyFrames(s, src, dst, d);
    assert s'.pool[0] == CopyFrame(s, src, d);
    CloneDirWrites(s', src, dst, d);
  }

  /** A copied entry: its table and a free frame get the same copy-on-write entries. */
  lemma ClonedCopy(s: Frames, s': Frames, s2: Frames, src: nat, dst: nat, d: nat)
    requires CloneReady(s, src, dst) && USER_LO <= d < USER_HI && ClonedTo(s, s', src, dst, d)
    requires Copied(Pde(s.words, src, d))
    requires s2 == CloneDir(s', src, dst, d)
    ensures ClonedTo(s, s2, src, dst, d + 1)
  {
    var m := s'.words;
    CopyWrites(s, s', src, dst, d);
    DirsStep(s, m, s2.words, src, dst, d);
    TablesCopyStep(s, m, s2.words, src, dst, d);
    RestCopyStep(s, m, s2.words, src, dst, d);
  }

  lemma ClonedStart(s: Frames, src: nat, dst: nat)
    requires CloneReady(s, src, dst)
    ensures ClonedTo(s, s, src, dst, USER_LO)
  {
  }

  lemma ClonedNext(s: Frames, s': Frames, s2: Frames, src: nat, dst: nat, d: nat)
    requires CloneReady(s, src, dst) && USER_LO <= d < USER_HI && ClonedTo(s, s', src, dst, d)
    requires s2 == CloneDir(s', src, dst, d)
    ensures ClonedTo(s, s2, src, dst, d + 1)
  {
    if Copied(Pde(s.words, src, d)) {
      ClonedCopy(s, s', s2, src, dst, d);
    } else {
      ClonedSkip(s, s', s2, src, dst, d);
    }
  }

  /** The source directory after the whole loop. */
  lemma SourceDirectoryKept(s: Frames, s': Frames, src: nat, dst: nat)
    requires CloneReady(s, src, dst) && ClonedTo(s, s', src, dst, USER_HI)
    ensures s'.words[src] == s.words[src]
  {
    assert src !in s.pool && !CopiedTable(s.words, src, USER_HI, src);
  }

  /** A present table beyond the directly mapped memory is left alone. */
  lemma FarTableKept(s: Frames, s': Frames, src: nat, dst: nat, d: nat)
    requires CloneReady(s, src, dst) && ClonedTo(s, s', src, dst, USER_HI) && USER_LO <= d < USER_HI
    requires IsPresent(Pde(s.words, src, d)) && !Copied(Pde(s.words, src, d))
    ensures var t := Pde(s.words, src, d).frame; t in s.words && s'.words[t] == s.words[t]
  {
    var t := Pde(s.words, src, d).frame;
    assert t == s.words[src][d].frame && t !in s.pool && t != dst;
    assert !CopiedTable(s.words, src, USER_HI, t);
  }

  /** The flat view after cloning: parent and child agree on every user page; entries
      whose table was copied have become copy-on-write. */
  lemma CloneFlat(s: Frames, s': Frames, src: nat, dst: nat, q: nat)
    requires CloneReady(s, src, dst) && ClonedTo(s, s', src, dst, USER_HI)
    requires q < PAGES && InRegion(q, USER_LO, USER_HI)
    ensures Lookup(s'.words, dst, q) == Lookup(s'.words, src, q)
    ensures Lookup(s'.words, src, q) ==
            if Copied(Pde(s.words, src, DirOf(q))) then CowWord(Lookup(s.words, src, q)) else Lookup(s.words, src, q)
  {
    var d := DirOf(q);
    SourceDirectoryKept(s, s', src, dst);
    assert Pde(s'.words, src, d) == Pde(s.words, src, d);
    if IsPresent(Pde(s.words, src, d)) && !Copied(Pde(s.words, src, d)) { FarTableKept(s, s', src, dst, d); }
  }

  /** A clone shares a page table with its parent exactly where the parent's table lies
      above 896 MB, where the copy is skipped. */
  lemma SharesTableIff(s: Frames, s': Frames, src: nat, dst: nat, d: nat)
    requires CloneReady(s, src, dst) && ClonedTo(s, s', src, dst, USER_HI) && USER_LO <= d < USER_HI
    requires IsPresent(Pde(s.words, src, d))
    ensures IsPresent(Pde(s'.words, dst, d)) && IsPresent(Pde(s'.words, src, d))
    ensures Pde(s'.words, dst, d).frame == Pde(s'.words, src, d).frame <==> Pde(s.words, src, d).frame > MAX_TABLE
  {
    SourceDirectoryKept(s, s', src, dst);
    assert Pde(s'.words, src, d) == Pde(s.words, src, d);
    if Copied(Pde(s.words, src, d)) { CopyFrames(s, src, dst, d); }
  }

  // ------------------------------------------------- the loop, with enough frames or not

  /** Frame f is written neither as the new directory nor as a new table; 0 is what an
      allocation that fails returns. */
  ghost predicate Unwritten(s: Frames, dst: nat, f: nat) {
    f != 0 && f != dst && f !in s.pool
  }

  /** The source directory and its tables are not written as something else. */
  ghost predicate CloneSafe(s: Frames, src: nat, dst: nat) {
    && src in s.words && Unwritten(s, dst, src)
    && forall d :: USER_LO <= d < USER_HI && IsPresent(Pde(s.words, src, d)) ==>
         var t := Pde(s.words, src, d).frame; t in s.words && t != src && Unwritten(s, dst, t)
  }

  function PoolAfter(pool: seq<nat>, n: nat): seq<nat> {
    if n <= |pool| then pool[n..] else []
  }

  ghost predicate CloneGoing(s: Frames, s': Frames, src: nat, d: nat) {
    && s.words.Keys <= s'.words.Keys && src in s.words && s'.words[src] == s.words[src]
    && s'.pool == PoolAfter(s.pool, CopyCount(s.words, src, d))
  }

  lemma GoingNext(s: Frames, s': Frames, src: nat, dst: nat, d: nat)
    requires CloneSafe(s, src, dst) && USER_LO <= d < USER_HI && CloneGoing(s, s', src, d)
    ensures CloneGoing(s, CloneDir(s', src, dst, d), src, d + 1)
  {
    assert Pde(s'.words, src, d) == Pde(s.words, src, d);
    assert forall f :: f in s'.pool ==> f in s.pool;
  }

  lemma {:induction false} DirsGoing(s: Frames, src: nat, dst: nat, d: nat)
    requires CloneSafe(s, src, dst) && USER_LO <= d <= USER_HI
    ensures CloneGoing(s, CloneDirs(s, src, dst, d), src, d)
    decreases d
  {
    if d > USER_LO {
      DirsGoing(s, src, dst, d - 1);
      GoingNext(s, CloneDirs(s, src, dst, d - 1), src, dst, d - 1);
    }
  }

  /** The child's entry for the parent's entry d: the parent's own unless its table is
      copied, and then the copy, which is frame 0 when no free frame is left. */
  function ChildEntry(s: Frames, src: nat, d: nat): Word {
    var e, i := Pde(s.words, src, d), CopyCount(s.words, src, d);
    if !Copied(e) then e else Word(if i < |s.pool| then s.pool[i] else 0, e.bits)
  }

  ghost predicate ChildDir(s: Frames, s': Frames, src: nat, dst: nat, d: nat) {
    && dst in s'.words && |s'.words[dst]| == ENTRIES
    && forall e :: 0 <= e < ENTRIES ==>
         s'.words[dst][e] == if USER_LO <= e < d then ChildEntry(s, src, e) else Pde(s.words, dst, e)
  }

  lemma ChildNext(s: Frames, s': Frames, src: nat, dst: nat, d: nat)
    requires CloneSafe(s, src, dst) && Unwritten(s, src, dst) && USER_LO <= d < USER_HI
    requires CloneGoing(s, s', src, d) && ChildDir(s, s', src, dst, d)
    ensures ChildDir(s, CloneDir(s', src, dst, d), src, dst, d + 1)
  {
    var e := Pde(s.words, src, d);
    assert Pde(s'.words, src, d) == e;
    assert forall f :: f in s'.pool ==> f in s.pool;
    assert CloneDir(s', src, dst, d).words[dst] == s'.words[dst][d := ChildEntry(s, src, d)];
  }

  lemma {:induction false} DirsChild(s: Frames, src: nat, dst: nat, d: nat)
    requires CloneSafe(s, src, dst) && Unwritten(s, src, dst) && USER_LO <= d <= USER_HI
    requires dst in s.words && |s.words[dst]| == ENTRIES
    ensures ChildDir(s, CloneDirs(s, src, dst, d), src, dst, d)
    decreases d
  {
    if d > USER_LO {
      DirsChild(s, src, dst, d - 1);
      DirsGoing(s, src, dst, d - 1);
      ChildNext(s, CloneDirs(s, src, dst, d - 1), src, dst, d - 1);
    }
  }

  /** With a free frame for every table, the loop does what ClonedTo says. */
  lemma {:induction false} DirsAreCloned(s: Frames, s': Frames, src: nat, dst: nat, d: nat)
    requires CloneReady(s, src, dst) && USER_LO <= d <= USER_HI
    requires ClonedTo(s, s', src, dst, d) && s' == CloneDirs(s, src, dst, d)
    ensures ClonedTo(s, CloneDirs(s, src, dst, USER_HI), src, dst, USER_HI)
    decreases USER_HI - d
  {
    if d < USER_HI {
      var s2 := CloneDir(s', src, dst, d);
      ClonedNext(s, s', s2, src, dst, d);
      DirsAreCloned(s, s2, src, dst, d + 1);
    }
  }

  // ------------------------------------------------------------------ the kernel's part

  /** The loop writes nothing but the new directory, the tables it copies and the frames it
      takes. */
  lemma {:induction false} DirsSpare(s: Frames, s1: Frames, src: nat, dst: nat, d: nat, g: nat)
    requires CloneSafe(s, src, dst) && USER_LO <= d <= USER_HI && g in s.words && Unwritten(s, dst, g)
    requires NoTableIn(s.words, src, g) && s1 == CloneDirs(s, src, dst, d) && CloneGoing(s, s1, src, d)
    requires Spared(s, s1, g)
    ensures Spared(s, CloneDirs(s, src, dst, USER_HI), g)
    decreases USER_HI - d
  {
    if d < USER_HI {
      var s2 := CloneDir(s1, src, dst, d);
      GoingNext(s, s1, src, dst, d);
      DirSpares(s, s1, s2, src, dst, d, g);
      DirsSpare(s, s2, src, dst, d + 1, g);
    }
  }

  ghost predicate Spared(s: Frames, s1: Frames, g: nat)
    requires g in s.words
  {
    g in s1.words && s1.words[g] == s.words[g]
  }

  /** No user table of the directory is in frame g. */
  ghost predicate NoTableIn(m: Memory, src: nat, g: nat) {
    forall e :: USER_LO <= e < USER_HI && IsPresent(Pde(m, src, e)) ==> Pde(m, src, e).frame != g
  }

  lemma DirSpares(s: Frames, s1: Frames, s2: Frames, src: nat, dst: nat, d: nat, g: nat)
    requires CloneGoing(s, s1, src, d) && USER_LO <= d < USER_HI && g in s.words && Unwritten(s, dst, g)
    requires NoTableIn(s.words, src, g) && Spared(s, s1, g) && s2 == CloneDir(s1, src, dst, d)
    ensures Spared(s, s2, g)
  {
    assert Pde(s1.words, src, d) == Pde(s.words, src, d);
    assert forall f :: f in s1.pool ==> f in s.pool;
  }

  /** The kernel's entries of a cloned directory are those of the old one, the entry of the
      APIC leads to a frame of its own, and the rest outside the user part is empty. */
  ghost predicate KernelEntries(s: Frames, m: Memory, src: nat, dst: nat) {
    && dst in m && |m[dst]| == ENTRIES
    && (forall e :: 0 <= e < ENTRIES && (e == 0 || 768 <= e < 992) ==> m[dst][e] == Pde(s.words, src, e))
    && m[dst][1019] == Word(NextFrame(s.pool), PRESENT | WRITE)
    && (forall e :: 0 < e < ENTRIES && (e < 256 || 992 <= e) && e != 1019 ==> m[dst][e] == NOTHING)
  }

  /** After a clone, whether or not the free frames suffice for the user part: the child sees
      the kernel through the parent's tables, and the APIC through a copy of the table. */
  lemma KernelCloned(s: Frames, k: Frames, m: Memory, src: nat, dst: nat)
    requires k == CloneKernel(s, src, dst) && CloneSafe(k, src, dst) && Unwritten(k, src, dst)
    requires s.pool != [] && NoRepeats(s.pool) && 0 !in s.pool && dst !in s.pool && src !in s.pool
    requires src in s.words && src != dst && m == CloneDirs(k, src, dst, USER_HI).words
    requires NoTableIn(k.words, src, s.pool[0])
    ensures KernelEntries(s, m, src, dst) && src in m && m[src] == s.words[src]
    ensures var apic := Pde(s.words, src, 1019).frame;
            apic in s.words && apic != dst ==> s.pool[0] in m && m[s.pool[0]] == s.words[apic]
  {
    DirsChild(k, src, dst, USER_HI);
    DirsGoing(k, src, dst, USER_HI);
    DirsSpare(k, k, src, dst, USER_LO, s.pool[0]);
  }

  /** So every page of the kernel is mapped alike in both. */
  lemma KernelPagesShared(s: Frames, m: Memory, src: nat, dst: nat, q: nat)
    requires KernelEntries(s, m, src, dst) && src in m && src in s.words && m[src] == s.words[src]
    requires DirOf(q) == 0 || 768 <= DirOf(q) < 992
    ensures Lookup(m, dst, q) == Lookup(m, src, q)
  {
  }
}
