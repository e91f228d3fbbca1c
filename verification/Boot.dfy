/** The state that the boot sequence leaves: it satisfies the system invariant from which every run starts. */
module Boot {
  import opened Bits
  import opened Options
  import opened Frames
  import opened PageTables
  import opened KernelMap
  import opened System
  import H = Heap

  const HEAP_FRAMES: nat := 0x1000 // 16MB

  /** The frames that kmalloc_init takes for the heap: the first run of 4096, if there is one. */
  ghost function HeapFrames(vm: Vm): (r: set<nat>)
  {
    match FirstRun(vm.free, LOW_PAGES, vm.total, HEAP_FRAMES)
    case None => {}
    case Some(a) => Range(a, HEAP_FRAMES)
  }

  ghost function WithoutHeap(vm: Vm): (r: Vm)
  {
    vm.(free := vm.free - HeapFrames(vm))
  }

  /** The system after the tables with root `f` have been built from `s` and the heap has been taken. */
  ghost function Booted(s: Vm, f: nat, drift: int): (r: Sys)
  {
    var vm := KernelTables(s, f);
    var r := WithoutHeap(vm);
    Sys(r, f, HeapFrames(vm), {}, |r.free| + drift, 0)
  }

  /** The flat map of the kernel's own tables. */
  ghost const DIRECT_FLAT: FlatMap := map n: nat | n < DIRECT_PAGES :: LeafEntry(PageAddr(0, n), DIRECT.flags)

  lemma HeapFramesFree(vm: Vm)
    ensures HeapFrames(vm) <= vm.free
  {
  }

  /** The memory manager is in the booted state: `offered` pages were counted when the frames of `s` became free. */
  ghost predicate BootedAs(vm: Vm, count: int, s: Vm, f: nat, offered: int)
  {
    var b := Booted(s, f, offered - LOW_PAGES - |s.free|);
    vm == b.vm && count == b.freeCount
  }

  lemma BootedFrom(s: Vm, f: nat, offered: int, vm: Vm, vm': Vm, count: int)
    requires vm == KernelTables(s, f) && vm' == WithoutHeap(vm)
    requires count - |vm'.free| == offered - LOW_PAGES - |s.free|
    ensures BootedAs(vm', count, s, f, offered)
  {
  }

  lemma SplitAtBoot(all: set<nat>, free: set<nat>, tables: set<nat>, h: set<nat>)
    requires free + tables == all && free !! tables && h <= free
    ensures Split(all, free - h, tables, h, {})
  {
  }

  /** Whether or not the frames sufficed, the booted system has a well-formed tree, and every frame that was free
      before is free, a table, or part of the heap. */
  lemma BootedInv(s: Vm, f: nat, drift: int)
    requires CanRoot(s, f)
    ensures Inv(Booted(s, f, drift), s.free, drift)
  {
    var vm := KernelTables(s, f);
    var h := HeapFrames(vm);
    KernelTablesGrown(s, f);
    HeapFramesFree(vm);
    TableFramesUsed(vm, f);
    FreshValues(s);
    SplitAtBoot(s.free, vm.free, vm.tables.Values, h);
    OutsideTree(vm, vm.(free := vm.free - h), f);
  }

  lemma FreshValues(s: Vm)
    requires s.tables == map[]
    ensures s.free + s.tables.Values == s.free
  {
  }

  /** With 2054 frames the booted system implements the direct map. */
  lemma BootedAgrees(s: Vm, f: nat, drift: int)
    requires CanRoot(s, f) && |Available(s)| >= TABLE_COST
    ensures Agrees(Booted(s, f, drift).vm, DIRECT_FLAT)
  {
    var vm := KernelTables(s, f);
    var h := HeapFrames(vm);
    KernelTablesLeaves(s, f);
    NewRootIsTree(s, f);
    TableFramesUsed(vm, f);
    OutsideTree(vm, vm.(free := vm.free - h), f);
    FlatOfMapsFirst(NewRoot(s, f), vm, DIRECT.flags);
  }

  lemma FlatOfMapsFirst(s: Vm, r: Vm, flags: nat)
    requires MapsFirst(s, r, flags, DIRECT_PAGES) && forall u: nat :: Leaf(s, u) == 0
    requires flags == DIRECT.flags
    ensures Agrees(r, DIRECT_FLAT)
  {
  }

  /** The heap on the frames from `a` on, seen through the direct map. */
  function HeapAt(a: nat): (r: H.Heap)
    requires a + HEAP_FRAMES <= MAX_PAGES
    ensures r.ptr % 16 == 0 && r.end % 16 == 0
  {
    HeapInWord(a);
    var ptr := FrameAddr(a) + PHYS_MAP_BASE;
    H.Heap(ptr, ptr + H.HEAP_SIZE)
  }

  /** The heap is the 16MB from frame `a` on, in the direct map. */
  lemma HeapIs(a: nat)
    requires a + 0x1000 <= MAX_PAGES
    ensures HEAP_FRAMES == 16 * 1024 * 1024 / 4096
    ensures HeapAt(a).ptr == 0xFFFF_0000_0000_0000 + 4096 * a && HeapAt(a).end == HeapAt(a).ptr + 16 * 1024 * 1024
  {
  }

  lemma HeapInWord(a: nat)
    requires a + HEAP_FRAMES <= MAX_PAGES
    ensures var ptr := FrameAddr(a) + PHYS_MAP_BASE;
            ptr % 16 == 0 && (ptr + H.HEAP_SIZE) % 16 == 0 && ptr + H.HEAP_SIZE < WORD
  {
    var k := 256 * a + PHYS_MAP_BASE / 16;
    assert FrameAddr(a) + PHYS_MAP_BASE == 16 * k;
    Sixteens(k);
    Sixteens(k + H.HEAP_SIZE / 16);
  }

  lemma Sixteens(k: nat)
    ensures 16 * k % 16 == 0
  {
  }

  /** The heap is on the frames that WithoutHeap takes off `vm`, or still `before` if there is no such run. */
  ghost predicate HeapPlaced(vm: Vm, heap: H.Heap, before: H.Heap)
  {
    match FirstRun(vm.free, LOW_PAGES, vm.total, HEAP_FRAMES)
    case None => heap == before
    case Some(a) => a + HEAP_FRAMES <= MAX_PAGES && heap == HeapAt(a)
  }

  lemma RunHasFrame(free: set<nat>, a: nat, n: nat)
    requires FreeRun(free, a, n) && n > 0
    ensures a in free
  {
    assert a in Range(a, n);
  }

  /** Where not even one frame is free there is no room for a heap. */
  lemma NoFrameNoHeap(vm: Vm)
    requires FirstFree(vm.free, LOW_PAGES, vm.total) == None
    ensures FirstRun(vm.free, LOW_PAGES, vm.total, HEAP_FRAMES) == None
  {
    var run := FirstRun(vm.free, LOW_PAGES, vm.total, HEAP_FRAMES);
    if run.Some? {
      RunHasFrame(vm.free, run.value, HEAP_FRAMES);
    }
  }

  /** Every block granted from the heap lies in the heap's frames, so by RunRefines in nobody else's. */
  lemma {:induction false} BlocksInHeapFrames(a: nat, qs: seq<H.Request>, i: nat, x: nat)
    requires a + HEAP_FRAMES <= MAX_PAGES && H.AllWrapless(HeapAt(a), qs) && i < |qs|
    requires var p := H.ServeAll(HeapAt(a), qs).1[i]; p.Some? && p.value <= x < p.value + qs[i].size
    ensures x >= PHYS_MAP_BASE && FrameAt(x - PHYS_MAP_BASE) in Range(a, HEAP_FRAMES)
  {
    H.BlocksDisjoint(HeapAt(a), qs);
    assert H.Good(qs[i], H.ServeAll(HeapAt(a), qs).1[i].value, HeapAt(a).ptr, HeapAt(a).end);
    HeapBytes(a, x);
  }

  lemma HeapBytes(a: nat, x: nat)
    requires PHYS_MAP_BASE + FrameAddr(a) <= x < PHYS_MAP_BASE + FrameAddr(a) + H.HEAP_SIZE
    ensures FrameAt(x - PHYS_MAP_BASE) in Range(a, HEAP_FRAMES)
  {
  }

  /** How far the free counter is off after the memory map has been read. */
  ghost function MapDrift(mmap: seq<Descriptor>): (r: int)
  {
    OfferedPages(mmap) - LOW_PAGES - |InitiallyFree(mmap)|
  }

  /** From a memory map with disjoint usable regions the counter's drift is the number of low pages that were usable,
      less 512: it is exact from then on, in every run, precisely when all low pages were usable. */
  lemma {:induction false} BootDrift(mmap: seq<Descriptor>)
    requires PairwiseDisjoint(mmap)
    ensures var k := |UsablePages(mmap) * Range(0, LOW_PAGES)|;
            && OfferedPages(mmap) == |UsablePages(mmap)| <= MAX_PAGES
            && MapDrift(mmap) == k - LOW_PAGES
  {
    CountExactIffDisjoint(mmap);
    UsableBelowLimit(mmap);
    SplitSize(UsablePages(mmap), Range(0, LOW_PAGES));
  }

  /** The bytes in use that the status reports for `total` pages and a counter of free frames. */
  function ReportedUse(total: nat, freeCount: int): (r: u64)
  {
    Wrap(FrameAddr(total) - FrameAddr(Wrap(freeCount)))
  }

  /** The counter may be negative, and then its word is huge; the difference is right all the same. */
  lemma ReportIs(total: nat, freeCount: int, used: nat)
    requires total == freeCount + used && used <= 2 * MAX_PAGES
    ensures ReportedUse(total, freeCount) == FrameAddr(used)
  {
    var q := freeCount / WORD;
    assert freeCount == WORD * q + Wrap(freeCount);
    WrapIs(FrameAddr(total) - FrameAddr(Wrap(freeCount)), q * PAGE_SIZE, FrameAddr(used));
  }

  lemma WrapIs(x: int, q: int, r: nat)
    requires x == WORD * q + r && r < WORD
    ensures Wrap(x) == r
  {
    DivModUnique(x, WORD, q, r);
  }

  /** The status reports exactly the low pages and the frames in use. */
  ghost predicate Reports(s: Sys, total: nat)
  {
    ReportedUse(total, s.freeCount) == FrameAddr(LOW_PAGES + |s.vm.tables.Values| + |s.heap| + |s.out|)
  }

  lemma ReportOfSystem(s: Sys, all: set<nat>, drift: int, total: nat)
    requires Inv(s, all, drift) && total == |all| + LOW_PAGES + drift && |all| <= MAX_PAGES
    ensures Reports(s, total)
  {
    UsedFrames(s, all, drift, total);
    ReportIs(total, s.freeCount, LOW_PAGES + |s.vm.tables.Values| + |s.heap| + |s.out|);
  }

  /** Every address translates as the flat map says. */
  ghost predicate Translates(s: Sys, flat: FlatMap)
  {
    forall v: nat :: Translate(s.vm, s.root, v) == Target(Word(flat, PageOf(v)), v)
  }

  lemma RunReports(s: Sys, flat: FlatMap, all: set<nat>, drift: int, total: nat, ops: seq<Op>)
    requires Inv(s, all, drift) && Agrees(s.vm, flat) && LegalRun(s, ops)
    requires total == |all| + LOW_PAGES + drift && |all| <= MAX_PAGES
    ensures var (r, results) := Run(s, ops);
            && r.root == s.root && Inv(r, all, drift) && Reports(r, total)
            && Translates(r, FlatRun(flat, ops, results))
  {
    RunRefines(s, ops, flat, all, drift);
    RunKeepsHeap(s, ops);
    ReportOfSystem(Run(s, ops).0, all, drift, total);
  }

  lemma FewFrames(mmap: seq<Descriptor>)
    ensures |InitiallyFree(mmap)| <= MAX_PAGES
  {
    UsableBelowLimit(mmap);
    SubsetSize(InitiallyFree(mmap), UsablePages(mmap));
  }

  /** From boot on, for every memory map whose pages the bitmap can track, with overlaps and holes or without, every
      legal run keeps one owner for each frame, translates as the flat map of the booted tables says, and reports as
      used exactly the low pages and the frames in use.  With 2054 frames that flat map is the direct map. */
  lemma RunFromBoot(mmap: seq<Descriptor>, s: Vm, f: nat, ops: seq<Op>)
    requires OfferedPages(mmap) <= MAX_PAGES
    requires s.free == InitiallyFree(mmap) && s.total == OfferedPages(mmap) && s.tables == map[] && f in Available(s)
    requires LegalRun(Booted(s, f, MapDrift(mmap)), ops)
    ensures var b := Booted(s, f, MapDrift(mmap));
            var (r, results) := Run(b, ops);
            && r.root == f && Inv(r, s.free, MapDrift(mmap)) && Reports(r, s.total)
            && Translates(r, FlatRun(FlatOf(b.vm), ops, results))
            && (|Available(s)| >= TABLE_COST ==> Translates(r, FlatRun(DIRECT_FLAT, ops, results)))
  {
    var b := Booted(s, f, MapDrift(mmap));
    FewFrames(mmap);
    BootedInv(s, f, MapDrift(mmap));
    FlatOfAgrees(b.vm);
    RunReports(b, FlatOf(b.vm), s.free, MapDrift(mmap), s.total, ops);
    if |Available(s)| >= TABLE_COST {
      BootedAgrees(s, f, MapDrift(mmap));
      RunReports(b, DIRECT_FLAT, s.free, MapDrift(mmap), s.total, ops);
    }
  }
}
