/** The loops of copyMemorySpaceCOW and the user branches of the page-fault handler,
    writing tables in place. */
module PageManager {
  import opened PageTable
  import opened UserMemory
  import opened CopyOnWrite
  import opened CopyOnWriteRuns

  /** Memory after i entries of table t have been copied to table f. */
  ghost function CopiedUpTo(m: Memory, t: nat, f: nat, i: nat): Memory
    requires t in m && f in m && |m[t]| == |m[f]| == ENTRIES && i <= ENTRIES
  {
    m[t := CowTable(m[t])[..i] + m[t][i..]][f := CowTable(m[t])[..i] + m[f][i..]]
  }

  lemma CopiedNext(m: Memory, t: nat, f: nat, i: nat)
    requires t in m && f in m && |m[t]| == |m[f]| == ENTRIES && t != f && i < ENTRIES
    ensures var now := CopiedUpTo(m, t, f, i);
            var c := CowWord(m[t][i]);
            && t in now && f in now && |now[t]| == |now[f]| == ENTRIES && now[t][i] == m[t][i]
            && SetEntry(SetEntry(now, t, i, c), f, i, c) == CopiedUpTo(m, t, f, i + 1)
  {
    var now := CopiedUpTo(m, t, f, i);
    var c := CowWord(m[t][i]);
    assert now[t][i := c] == CowTable(m[t])[..i + 1] + m[t][i + 1..];
    assert now[f][i := c] == CowTable(m[t])[..i + 1] + m[f][i + 1..];
  }

  /** The inner loop: turn the writable entries of table t into copy-on-write ones and
      copy every entry to table f. */
  method CopyTable(store: FrameStore, t: nat, f: nat)
    requires t in store.words && f in store.words && |store.words[t]| == |store.words[f]| == ENTRIES && t != f
    modifies store`words
    ensures store.words == old(store.words)[t := CowTable(old(store.words)[t])][f := CowTable(old(store.words)[t])]
  {
    ghost var m := store.words;
    assert CowTable(m[t])[..0] + m[t][0..] == m[t] && CowTable(m[t])[..0] + m[f][0..] == m[f];
    assert CopiedUpTo(m, t, f, 0) == m;
    var i := 0;
    while i < ENTRIES
      invariant 0 <= i <= ENTRIES && store.words == CopiedUpTo(m, t, f, i)
    {
      CopiedNext(m, t, f, i);
      CopyEntry(store, t, f, i);
      i := i + 1;
    }
    assert CowTable(m[t])[..ENTRIES] + m[t][ENTRIES..] == CowTable(m[t]);
    assert CowTable(m[t])[..ENTRIES] + m[f][ENTRIES..] == CowTable(m[t]);
  }

  method CopyEntry(store: FrameStore, t: nat, f: nat, i: nat)
    requires t in store.words && i < |store.words[t]| && t != f
    modifies store`words
    ensures var c := CowWord(old(store.words)[t][i]);
            store.words == SetEntry(SetEntry(old(store.words), t, i, c), f, i, c)
  {
    var e := store.words[t][i];
    ghost var m := store.words;
    assert m[t][i := e] == m[t] && m[t := m[t]] == m;
    if IsWritable(e) {
      var cleared := Word(e.frame, e.bits & 0xFFD);
      store.words := SetEntry(store.words, t, i, Word(cleared.frame, cleared.bits | COW));
    }
    store.words := SetEntry(store.words, f, i, store.words[t][i]);
  }

  /** The kernel part: clear the child's directory, share the first 4 MB and the kernel
      tables, and copy the APIC table. */
  method CopyKernelPart(store: FrameStore, src: nat, dst: nat)
    requires src != dst
    modifies store
    ensures store.Now() == CloneKernel(old(store.Now()), src, dst)
  {
    ghost var m := store.words;
    var dir := Zeros();
    dir := dir[0 := Pde(store.words, src, 0)];
    var j := KERNEL_LO;
    while j < KERNEL_HI
      invariant KERNEL_LO <= j <= KERNEL_HI && |dir| == ENTRIES
      invariant forall d :: 0 <= d < ENTRIES ==>
        dir[d] == if d == 0 || KERNEL_LO <= d < j then Pde(m, src, d) else NOTHING
    {
      dir := dir[j := Pde(store.words, src, j)];
      j := j + 1;
    }
    store.words := store.words[dst := dir];
    assert dir == seq(ENTRIES, d => if d == 0 || KERNEL_LO <= d < KERNEL_HI then Pde(m, src, d) else NOTHING);
    assert Pde(store.words, src, APIC_DIR) == Pde(m, src, APIC_DIR);
    var apic := Pde(store.words, src, APIC_DIR).frame;
    var copy := store.AllocPage();
    store.words := store.words[copy := if apic in store.words then store.words[apic] else Zeros()];
    store.words := SetEntry(store.words, dst, APIC_DIR, Word(copy, PRESENT | WRITE));
  }

  /** Every frame has 1024 words, frame 0 included, which a failed allocation makes the
      loop write to. */
  ghost predicate WholeFrames(m: Memory) {
    0 in m && forall g :: g in m ==> |m[g]| == ENTRIES
  }

  /** What one round of the user loop relies on. */
  ghost predicate DirReady(s: Frames, src: nat, dst: nat, d: nat) {
    && WholeFrames(s.words) && dst in s.words && d < ENTRIES && src != dst
    && (Copied(Pde(s.words, src, d)) ==>
          var t, f := Pde(s.words, src, d).frame, NextFrame(s.pool);
          t in s.words && t != dst && t != src && f in s.words && f != t && f != src)
  }

  lemma DirIsReady(k: Frames, s: Frames, src: nat, dst: nat, d: nat)
    requires USER_LO <= d < USER_HI && CloneSafe(k, src, dst) && CloneGoing(k, s, src, d)
    requires WholeFrames(s.words) && dst in s.words && forall f :: f in s.pool ==> f in s.words
    ensures DirReady(s, src, dst, d)
  {
    assert Pde(s.words, src, d) == Pde(k.words, src, d);
    assert forall f :: f in s.pool ==> f in k.pool;
  }

  lemma DirReadyKeeps(s: Frames, src: nat, dst: nat, d: nat)
    requires DirReady(s, src, dst, d) && forall f :: f in s.pool ==> f in s.words
    ensures var s' := CloneDir(s, src, dst, d);
            WholeFrames(s'.words) && dst in s'.words && forall f :: f in s'.pool ==> f in s'.words
  {
  }

  /** One round of the user loop. */
  method CopyDirEntry(store: FrameStore, src: nat, dst: nat, d: nat)
    requires DirReady(store.Now(), src, dst, d)
    modifies store
    ensures store.Now() == CloneDir(old(store.Now()), src, dst, d)
  {
    ghost var m := store.words;
    store.words := SetEntry(store.words, dst, d, Pde(store.words, src, d));
    var e := Pde(store.words, src, d);
    assert e == Pde(m, src, d);
    if IsPresent(e) && e.frame <= MAX_TABLE {
      var f := store.AllocPage();
      CopyTable(store, e.frame, f);
      assert Pde(store.words, src, d) == e;
      store.words := SetEntry(store.words, dst, d, Word(f, Pde(store.words, src, d).bits));
    }
  }

  /** The user part of the clone, whether or not the free frames suffice. */
  method CopyUserPart(store: FrameStore, src: nat, dst: nat)
    requires CloneSafe(store.Now(), src, dst) && WholeFrames(store.words)
    requires dst in store.words && forall f :: f in store.pool ==> f in store.words
    modifies store
    ensures store.Now() == CloneDirs(old(store.Now()), src, dst, USER_HI)
  {
    ghost var k := store.Now();
    var d := USER_LO;
    while d < USER_HI
      invariant USER_LO <= d <= USER_HI && store.Now() == CloneDirs(k, src, dst, d)
      invariant CloneGoing(k, store.Now(), src, d) && WholeFrames(store.words)
      invariant dst in store.words && forall f :: f in store.pool ==> f in store.words
    {
      DirIsReady(k, store.Now(), src, dst, d);
      DirReadyKeeps(store.Now(), src, dst, d);
      GoingNext(k, store.Now(), src, dst, d);
      CopyDirEntry(store, src, dst, d);
      d := d + 1;
    }
  }

  lemma KernelKeepsSafe(s: Frames, src: nat, dst: nat)
    requires CloneSafe(s, src, dst) && WholeFrames(s.words)
    requires dst in s.words && forall f :: f in s.pool ==> f in s.words
    ensures var k := CloneKernel(s, src, dst);
            && CloneSafe(k, src, dst) && WholeFrames(k.words)
            && dst in k.words && forall f :: f in k.pool ==> f in k.words
  {
    var k := CloneKernel(s, src, dst);
    assert forall f :: f in k.pool ==> f in s.pool;
    assert k.words[src] == s.words[src];
    forall d | USER_LO <= d < USER_HI && IsPresent(Pde(k.words, src, d))
      ensures var t := Pde(k.words, src, d).frame; t in k.words && t != src && Unwritten(k, dst, t)
    {
      assert Pde(k.words, src, d) == Pde(s.words, src, d);
    }
  }

  /** copyMemorySpaceCOW, where the source's directory and tables are none of the frames
      that it writes as something else. */
  method CopyMemorySpaceCOW(store: FrameStore, src: nat, dst: nat)
    requires CloneSafe(store.Now(), src, dst) && WholeFrames(store.words)
    requires dst in store.words && forall f :: f in store.pool ==> f in store.words
    modifies store
    ensures store.Now() == CloneDirs(CloneKernel(old(store.Now()), src, dst), src, dst, USER_HI)
  {
    KernelKeepsSafe(store.Now(), src, dst);
    CopyKernelPart(store, src, dst);
    CopyUserPart(store, src, dst);
  }

  lemma InvIsSafe(s: Sys, src: nat)
    requires Inv(s) && src in s.spaces && WholeFrames(s.frames.words)
    ensures var (start, dst) := ForkStart(s);
            CloneSafe(start, src, dst) && dst in start.words && forall f :: f in start.pool ==> f in start.words
  {
    var m, pool := s.frames.words, s.frames.pool;
    assert forall f :: f in RestOf(pool) || (f == NextFrame(pool) && f != 0) ==> f in pool;
    forall d | USER_LO <= d < USER_HI && IsPresent(Pde(m, src, d))
      ensures var t := Pde(m, src, d).frame; t in m && t != src && t != 0 && t !in pool
    {
      assert HasTable(m, src, d, Pde(m, src, d).frame) && IsPresent(m[src][d]);
    }
  }

  /** Context::cloneMemorySpace: a new directory, then the clone. The result is a step of
      the system whatever fails on the way, and good exactly when the step is covered. */
  method CloneMemorySpace(store: FrameStore, src: nat, ghost spaces: set<nat>) returns (dst: nat)
    requires Inv(Sys(store.Now(), spaces)) && src in spaces && WholeFrames(store.words)
    modifies store
    ensures dst == NextFrame(old(store.pool))
    ensures Sys(store.Now(), spaces + {dst}) == Step(Sys(old(store.Now()), spaces), Clone(src))
    ensures Inv(Sys(store.Now(), spaces + {dst})) <==> Covered(Sys(old(store.Now()), spaces), Clone(src))
  {
    ghost var s := Sys(store.Now(), spaces);
    InvIsSafe(s, src);
    StepKeepsIff(s, Clone(src));
    dst := store.AllocPage();
    CopyMemorySpaceCOW(store, src, dst);
  }

  datatype CowResult = OwnCopy | NotCow | Panic

  /** copyCOWPage: give the page a frame of its own. The flags are those that the
      current directory shows for the address. */
  method CopyCOWPage(mm: UserMemory, page: nat, flags: bv12) returns (r: CowResult)
    requires 0 !in mm.store.pool
    modifies mm.store
    ensures var s := Sys(old(mm.store.Now()), {});
            if !IsCowFault(flags) then r == NotCow && mm.store.Now() == s.frames
            else if s.frames.pool == [] then r == Panic && mm.store.Now() == s.frames
            else r == OwnCopy && mm.store.Now() == MapFresh(s, mm.pgd, page, CopyFlags(flags)).frames
    ensures r == OwnCopy ==> forall lo, hi :: CanMapPage(old(mm.store.Now()), mm.pgd, lo, hi, page) ==>
      FaultMapped(old(mm.store.Now()), mm.store.words, mm.pgd, lo, hi, page, false, true, flags)
  {
    ghost var s := mm.store.Now();
    if flags & COW != 0 && flags & PRESENT != 0 {
      var phys := mm.store.AllocPage();
      if phys == 0 { return Panic; }
      mm.MapPages(Word(page, 0), Word(phys, 0), 0x1000, CopyFlags(flags));
      forall lo, hi | CanMapPage(s, mm.pgd, lo, hi, page)
        ensures FaultMapped(s, mm.store.words, mm.pgd, lo, hi, page, false, true, flags)
      {
        CopyMaps(s, mm.store.words, mm.pgd, lo, hi, page, true, flags);
      }
      return OwnCopy;
    }
    return NotCow;
  }

  /** The user branches of page_fault_handler; false means the handler panics. */
  method PageFaultHandler(mm: UserMemory, isPresent: bool, isWrite: bool, isUser: bool, page: nat, flags: bv12)
    returns (handled: bool)
    requires 0 !in mm.store.pool
    modifies mm.store
    ensures var s := Sys(old(mm.store.Now()), {});
            var user := isUser || UserPage(page);
            var demand := user && !isPresent && s.frames.pool != [];
            var cow := user && isPresent && isWrite && IsCowFault(flags) && s.frames.pool != [];
            && handled == (demand || cow)
            && mm.store.Now() ==
                 if demand then MapFresh(s, mm.pgd, page, DemandFlags(isWrite)).frames
                 else if cow then MapFresh(s, mm.pgd, page, CopyFlags(flags)).frames
                 else s.frames
    ensures handled <==> (isUser || 0x40000 <= page < 0xC0000) && old(mm.store.pool) != []
                         && (!isPresent || (isWrite && flags & COW != 0 && flags & PRESENT != 0))
    ensures handled ==> forall lo, hi :: CanMapPage(old(mm.store.Now()), mm.pgd, lo, hi, page) ==>
      FaultMapped(old(mm.store.Now()), mm.store.words, mm.pgd, lo, hi, page, !isPresent, isWrite, flags)
  {
    ghost var s := mm.store.Now();
    handled := false;
    if isUser || (USER_LO * ENTRIES <= page < USER_HI * ENTRIES) {
      if !isPresent {
        var phys := mm.store.AllocPage();
        if phys != 0 {
          var bits := USER | WRITE | PRESENT;
          if !isWrite { bits := bits & 0xFFD; }
          mm.MapPages(Word(page, 0), Word(phys, 0), 0x1000, bits);
          forall lo, hi | CanMapPage(s, mm.pgd, lo, hi, page)
            ensures FaultMapped(s, mm.store.words, mm.pgd, lo, hi, page, true, isWrite, flags)
          {
            DemandMaps(s, mm.store.words, mm.pgd, lo, hi, page, isWrite, flags);
          }
          handled := true;
        }
      } else if isWrite {
        var r := CopyCOWPage(mm, page, flags);
        handled := r == OwnCopy;
      }
    }
  }
}
