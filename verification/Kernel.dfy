/** The kernel's memory manager in its own form: one object holding the statics of memory.c, whose methods scan and
    update them in place.  Each method is tied to the functions of Frames, PageTables, KernelMap and Heap. */
module Kernel {
  import opened Bits
  import opened Options
  import opened Frames
  import opened PageTables
  import opened KernelMap
  import opened System
  import opened Boot
  import H = Heap

  const BITMAP_SIZE: nat := 0x40_0000 // bytes
  const SWAP_MAX_PAGES: nat := 0x100_0000 // 64GB

  datatype Status = Status(
    totalPhysical: u64, freePhysical: u64, usedPhysical: u64, swapTotal: u64, swapUsed: u64, pressureLevel: nat)

  class MemoryManager {
    const bitmap: array<bv8>
    var totalPages: u64
    var freePages: u64
    var kernelPml4: u64
    var swapCapacity: u64
    var swapUsed: u64
    var heap: H.Heap
    var ram: Ram // physical memory
    ghost var tables: map<seq<nat>, nat> // frames linked as page tables, by path
    ghost var freeCount: int // freePages and totalPages before their reduction to 64 bits
    ghost var totalCount: int

    ghost predicate Sized()
      reads this
    {
      bitmap.Length == BITMAP_SIZE && freePages == Wrap(freeCount) && totalPages == Wrap(totalCount)
    }

    /** The allocator's scan stays inside the bitmap. */
    ghost predicate Valid()
      reads this
    {
      Sized() && totalPages <= MAX_PAGES
    }

    ghost function Free(): (r: set<nat>)
      reads this, bitmap
    {
      FreeSet(bitmap[..])
    }

    ghost function View(): (r: Vm)
      reads this, bitmap
    {
      Vm(Free(), totalPages, ram, tables)
    }

    /** How far the counter of free frames is from their number. */
    ghost function Drift(): (r: int)
      reads this, bitmap
    {
      freeCount - |Free()|
    }

    constructor (memory: Ram)
      ensures Valid() && fresh(bitmap) && freeCount == 0 && totalCount == 0 && swapUsed == 0 && swapCapacity == 0
      ensures kernelPml4 == 0 && heap == H.Heap(0, 0) && ram == memory && tables == map[]
    {
      bitmap := new bv8[BITMAP_SIZE];
      totalPages, freePages, kernelPml4, swapCapacity, swapUsed := 0, 0, 0, 0, 0;
      heap := H.Heap(0, 0);
      ram := memory;
      tables := map[];
      freeCount, totalCount := 0, 0;
    }

    // ----- the counters -----

    method CountTaken()
      requires Sized()
      modifies this`freePages, this`freeCount
      ensures Sized() && freeCount == old(freeCount) - 1
    {
      WrapAdds(freeCount, -1);
      freePages := Wrap(freePages - 1);
      freeCount := freeCount - 1;
    }

    method CountGiven()
      requires Sized()
      modifies this`freePages, this`freeCount
      ensures Sized() && freeCount == old(freeCount) + 1
    {
      WrapAdds(freeCount, 1);
      freePages := Wrap(freePages + 1);
      freeCount := freeCount + 1;
    }

    method CountPage()
      requires Sized()
      modifies this`totalPages, this`totalCount
      ensures Sized() && totalCount == old(totalCount) + 1
    {
      WrapAdds(totalCount, 1);
      totalPages := Wrap(totalPages + 1);
      totalCount := totalCount + 1;
    }

    // ----- the bitmap -----

    method BitmapSetFree(i: nat)
      requires Sized() && i < MAX_PAGES
      modifies bitmap
      ensures Sized() && Free() == old(Free()) + {i}
    {
      SetFreeAdds(bitmap[..], i);
      bitmap[i / 8] := SetBit(bitmap[i / 8], i % 8);
      assert bitmap[..] == SetFree(old(bitmap[..]), i);
    }

    method BitmapSetUsed(i: nat)
      requires Sized() && i < MAX_PAGES
      modifies bitmap
      ensures Sized() && Free() == old(Free()) - {i}
    {
      SetUsedRemoves(bitmap[..], i);
      bitmap[i / 8] := ClearBit(bitmap[i / 8], i % 8);
      assert bitmap[..] == SetUsed(old(bitmap[..]), i);
    }

    method BitmapIsFree(i: nat) returns (free: bool)
      requires Sized() && i < MAX_PAGES
      ensures free <==> i in Free()
    {
      free := TestBit(bitmap[i / 8], i % 8);
      assert free == IsFree(bitmap[..], i);
    }

    // ----- physical frames -----

    /** Address of the least free frame from 512 on, or 0. */
    method PmmAlloc() returns (phys: u64)
      requires Valid()
      modifies bitmap, this`freePages, this`freeCount
      ensures Valid()
      ensures match FirstFree(old(Free()), LOW_PAGES, totalPages)
              case None => phys == 0 && Free() == old(Free()) && freeCount == old(freeCount)
              case Some(f) => phys == FrameAddr(f) && Free() == old(Free()) - {f} && freeCount == old(freeCount) - 1
    {
      var i := LOW_PAGES;
      while i < totalPages
        invariant LOW_PAGES <= i && Sized() && Free() == old(Free()) && freeCount == old(freeCount)
        invariant FirstFree(Free(), LOW_PAGES, totalPages) == FirstFree(Free(), i, totalPages)
      {
        var free := BitmapIsFree(i);
        if free {
          BitmapSetUsed(i);
          CountTaken();
          return FrameAddr(i);
        }
        i := i + 1;
      }
      phys := 0;
    }

    /** Address of the least run of `n` free frames from 512 on, or 0. */
    method PmmAllocContiguous(n: u64) returns (phys: u64)
      requires Valid()
      modifies bitmap, this`freePages, this`freeCount
      ensures Valid()
      ensures match if n == 0 then None else FirstRun(old(Free()), LOW_PAGES, totalPages, n)
              case None => phys == 0 && Free() == old(Free()) && freeCount == old(freeCount)
              case Some(a) =>
                phys == FrameAddr(a) && Free() == old(Free()) - Range(a, n) && freeCount == old(freeCount) - n
    {
      var runStart, runLen := 0, 0;
      var i := LOW_PAGES;
      while i < totalPages
        invariant Sized() && Free() == old(Free()) && freeCount == old(freeCount)
        invariant LOW_PAGES <= i && runLen <= i - LOW_PAGES
        invariant runLen > 0 ==> runStart == i - runLen
        invariant runLen < n || n == 0
        invariant FreeRun(Free(), i - runLen, runLen)
        invariant n > 0 ==> forall j :: LOW_PAGES <= j < i - runLen ==> !FreeRun(Free(), j, n)
      {
        var free := BitmapIsFree(i);
        if free {
          if runLen == 0 {
            runStart := i;
          }
          runLen := runLen + 1;
          if runLen == n {
            assert FreeRun(Free(), runStart, n);
            assert FirstRun(Free(), LOW_PAGES, totalPages, n) == Some(runStart);
            MarkRun(runStart, n);
            return FrameAddr(runStart);
          }
        } else {
          runLen := 0;
        }
        i := i + 1;
      }
      phys := 0;
    }

    /** The inner loop of the contiguous allocation. */
    method MarkRun(start: nat, n: u64)
      requires Valid() && start + n <= MAX_PAGES
      modifies bitmap, this`freePages, this`freeCount
      ensures Sized() && Free() == old(Free()) - Range(start, n) && freeCount == old(freeCount) - n
    {
      var j := start;
      while j < start + n
        invariant start <= j <= start + n
        invariant Sized() && Free() == old(Free()) - Range(start, j - start)
        invariant freeCount == old(freeCount) - (j - start)
      {
        BitmapSetUsed(j);
        CountTaken();
        j := j + 1;
      }
    }

    method PmmFree(phys: u64)
      requires Sized() && FrameAt(phys) < MAX_PAGES
      modifies bitmap, this`freePages, this`freeCount
      ensures Sized() && Free() == old(Free()) + {FrameAt(phys)}
      ensures freeCount == if FrameAt(phys) in old(Free()) then old(freeCount) else old(freeCount) + 1
    {
      var i := FrameAt(phys);
      var free := BitmapIsFree(i);
      if !free {
        BitmapSetFree(i);
        CountGiven();
      }
    }

    // ----- the memory map -----

    method ClearBitmap()
      requires Sized()
      modifies bitmap
      ensures Free() == {}
    {
      var k := 0;
      while k < BITMAP_SIZE
        invariant 0 <= k <= BITMAP_SIZE && Sized()
        invariant forall j :: 0 <= j < k ==> bitmap[j] == 0
      {
        bitmap[k] := 0;
        k := k + 1;
      }
    }

    /** Marks the usable pages of the firmware's memory map as free, and then takes back the first 512. */
    method PmmInit(mmap: seq<Descriptor>)
      requires Sized()
      modifies bitmap, this`freePages, this`freeCount, this`totalPages, this`totalCount
      ensures Sized() && Free() == InitiallyFree(mmap)
      ensures totalCount == old(totalCount) + OfferedPages(mmap)
      ensures freeCount == old(freeCount) + OfferedPages(mmap) - LOW_PAGES
    {
      ClearBitmap();
      var i := 0;
      ghost var c := 0;
      while i < |mmap|
        invariant 0 <= i <= |mmap| && c == OfferedPages(mmap[..i])
        invariant Sized() && Free() == UsablePages(mmap[..i])
        invariant totalCount == old(totalCount) + c && freeCount == old(freeCount) + c
      {
        assert mmap[..i + 1][..i] == mmap[..i];
        AddDescriptor(mmap[i]);
        c := c + |Covered(mmap[i])|;
        i := i + 1;
      }
      assert mmap[..i] == mmap;
      TakeLowPages();
    }

    /** The pages of one descriptor. */
    method AddDescriptor(d: Descriptor)
      requires Sized()
      modifies bitmap, this`freePages, this`freeCount, this`totalPages, this`totalCount
      ensures Sized() && Free() == old(Free()) + Covered(d)
      ensures totalCount == old(totalCount) + |Covered(d)|
      ensures freeCount == old(freeCount) + |Covered(d)|
    {
      if !Usable(d) {
        assert Covered(d) == {};
        return;
      }
      var p := 0;
      while p < d.numPages
        invariant 0 <= p <= d.numPages
        invariant Sized() && Free() == old(Free()) + Listed(d, p)
        invariant totalCount == old(totalCount) + |Listed(d, p)| && freeCount == old(freeCount) + |Listed(d, p)|
      {
        AddPage(d, p, old(Free()));
        p := p + 1;
      }
      assert Listed(d, p) == Covered(d);
    }

    /** Page `p` of a descriptor, when the earlier ones have been added to `base`. */
    method AddPage(d: Descriptor, p: nat, ghost base: set<nat>)
      requires Sized() && p < d.numPages && Free() == base + Listed(d, p)
      modifies bitmap, this`freePages, this`freeCount, this`totalPages, this`totalCount
      ensures Sized() && Free() == base + Listed(d, p + 1)
      ensures totalCount == old(totalCount) + |Listed(d, p + 1)| - |Listed(d, p)|
      ensures freeCount == old(freeCount) + |Listed(d, p + 1)| - |Listed(d, p)|
    {
      var idx := ListedPage(d, p);
      ListedStep(d, p);
      if idx < MAX_PAGES {
        BitmapSetFree(idx);
        CountGiven();
        CountPage();
      }
    }

    method TakeLowPages()
      requires Sized()
      modifies bitmap, this`freePages, this`freeCount
      ensures Sized() && Free() == old(Free()) - Range(0, LOW_PAGES)
      ensures freeCount == old(freeCount) - LOW_PAGES
    {
      var i := 0;
      while i < LOW_PAGES
        invariant 0 <= i <= LOW_PAGES
        invariant Sized() && Free() == old(Free()) - Range(0, i)
        invariant freeCount == old(freeCount) - i
      {
        BitmapSetUsed(i);
        CountTaken();
        i := i + 1;
      }
    }

    // ----- page tables -----

    /** Clears the 512 words of frame `f`. */
    method ZeroTable(f: nat)
      modifies this`ram
      ensures ram == ZeroFrame(old(ram), f)
    {
      var i := 0;
      while i < 512
        invariant 0 <= i <= 512
        invariant forall s: Slot :: ram[s] == if s.frame == f && s.index < i then 0 else old(ram)[s]
      {
        ram := ram[Slot(f, i) := 0];
        i := i + 1;
      }
    }

    /** A single allocation, as an effect on the view. */
    method TakeFrame() returns (frame: Option<nat>)
      requires Valid()
      modifies bitmap, this`freePages, this`freeCount
      ensures Valid() && Drift() == old(Drift())
      ensures frame == FirstFree(old(Free()), LOW_PAGES, totalPages)
      ensures View() == if frame.Some? then old(View()).(free := old(Free()) - {frame.value}) else old(View())
    {
      var phys := PmmAlloc();
      frame := if phys == 0 then None else Some(FrameAt(phys));
    }

    /** A contiguous allocation, as an effect on the view. */
    method TakeRun(n: u64) returns (start: Option<nat>)
      requires Valid() && n > 0
      modifies bitmap, this`freePages, this`freeCount
      ensures Valid() && Drift() == old(Drift())
      ensures start == FirstRun(old(Free()), LOW_PAGES, totalPages, n)
      ensures View() == if start.Some? then old(View()).(free := old(Free()) - Range(start.value, n)) else old(View())
    {
      ghost var run := FirstRun(Free(), LOW_PAGES, totalPages, n);
      if run.Some? {
        RunSize(Free(), run.value, n);
      }
      var phys := PmmAllocContiguous(n);
      start := if phys == 0 then None else Some(FrameAt(phys));
    }

    /** Links a new, cleared table at `entry`, if there is a frame for it. */
    method LinkTable(entry: Slot, ghost path: seq<nat>) returns (ok: bool)
      requires Valid()
      modifies bitmap, this`freePages, this`freeCount, this`ram, this`tables
      ensures Valid() && Drift() == old(Drift())
      ensures match FirstFree(old(Free()), LOW_PAGES, totalPages)
              case None => !ok && View() == old(View())
              case Some(f) => ok && View() == Link(old(View()), entry, path, f)
    {
      var frame := TakeFrame();
      if frame.None? {
        return false;
      }
      ZeroTable(frame.value);
      ram := ram[entry := Or(Or(FrameAddr(frame.value), PRESENT), WRITABLE)];
      tables := tables[path := frame.value];
      ok := true;
    }

    /** The leaf slot for `v`; missing tables are allocated if `create` is set. */
    method VmmGetPte(pml4: u64, v: u64, create: bool) returns (slot: Option<Slot>)
      requires Valid()
      modifies bitmap, this`freePages, this`freeCount, this`ram, this`tables
      ensures Valid() && Drift() == old(Drift())
      ensures Walked(View(), slot) == Walk(old(View()), FrameAt(pml4), v, 4, create)
      ensures !create ==> View() == old(View())
    {
      var table, l := FrameAt(pml4), 4;
      while l > 1
        invariant 1 <= l <= 4 && Valid() && Drift() == old(Drift())
        invariant Walk(old(View()), FrameAt(pml4), v, 4, create) == Walk(View(), table, v, l, create)
        invariant !create ==> View() == old(View())
      {
        var entry := Slot(table, Index(v, l));
        if !Present(ram[entry]) {
          if !create {
            return None;
          }
          var ok := LinkTable(entry, Above(v, Prev(l)));
          if !ok {
            return None;
          }
        }
        table := FrameOf(ram[entry]);
        l := Prev(l);
      }
      slot := Some(Slot(table, Index(v, 1)));
    }

    method VmmMap(pml4: u64, v: u64, phys: u64, flags: u64) returns (result: int)
      requires Valid()
      modifies bitmap, this`freePages, this`freeCount, this`ram, this`tables
      ensures Valid() && Drift() == old(Drift())
      ensures (View(), result) == Map(old(View()), FrameAt(pml4), v, phys, flags)
    {
      var slot := VmmGetPte(pml4, v, true);
      match slot
      case None =>
        result := -1;
      case Some(s) =>
        ram := ram[s := Or(Or(And(phys, ADDR_MASK), flags), PRESENT)];
        result := 0;
    }

    method VmmUnmap(pml4: u64, v: u64)
      requires Valid()
      modifies bitmap, this`freePages, this`freeCount, this`ram, this`tables
      ensures Valid() && Drift() == old(Drift())
      ensures View() == Unmap(old(View()), FrameAt(pml4), v)
    {
      var slot := VmmGetPte(pml4, v, false);
      if slot.Some? && Present(ram[slot.value]) {
        ram := ram[slot.value := 0];
      }
    }

    method VmmVirtToPhys(pml4: u64, v: u64) returns (phys: nat)
      requires Valid()
      modifies bitmap, this`freePages, this`freeCount, this`ram, this`tables
      ensures Valid() && View() == old(View()) && Drift() == old(Drift())
      ensures phys == Translate(View(), FrameAt(pml4), v)
    {
      var slot := VmmGetPte(pml4, v, false);
      if slot.None? || !Present(ram[slot.value]) {
        return 0;
      }
      phys := Or(And(ram[slot.value], ADDR_MASK), And(v, 0xFFF));
    }

    /** One of the two mapping loops of vmm_init. */
    method MapKernelRegion(g: Region)
      requires Valid() && PageAddr(g.base, g.pages) <= WORD && PageAddr(0, g.pages) <= WORD && g.flags < WORD
      modifies bitmap, this`freePages, this`freeCount, this`ram, this`tables
      ensures Valid() && Drift() == old(Drift())
      ensures View() == MapRegion(old(View()), FrameAt(kernelPml4), g)
    {
      var k := 0;
      ghost var start, root := View(), FrameAt(kernelPml4);
      while k < g.pages
        invariant 0 <= k <= g.pages && Valid() && Drift() == old(Drift())
        invariant View() == MapPages(start, root, g, k)
      {
        ghost var before, done := View(), k;
        MapKernelPage(g, k);
        k := k + 1;
        MapPagesNext(start, root, g, done, k, before, View());
      }
    }

    method MapKernelPage(g: Region, k: nat)
      requires Valid() && k < g.pages
      requires PageAddr(g.base, g.pages) <= WORD && PageAddr(0, g.pages) <= WORD && g.flags < WORD
      modifies bitmap, this`freePages, this`freeCount, this`ram, this`tables
      ensures Valid() && Drift() == old(Drift())
      ensures View() == MapPage(old(View()), FrameAt(kernelPml4), g, k)
    {
      PageAddrFits(g.base, k, g.pages);
      PageAddrFits(0, k, g.pages);
      var _ := VmmMap(kernelPml4, PageAddr(g.base, k), PageAddr(0, k), g.flags);
    }

    /** The cleared root table alone, in the frame `f` that was taken for it. */
    method StartTables(f: nat, ghost start: Vm)
      requires Valid() && View() == start.(free := start.free - {f}) && f in start.free
      modifies this`ram, this`tables
      ensures Valid() && Drift() == old(Drift()) && View() == NewRoot(start, f)
    {
      ZeroTable(f);
      tables := map[[] := f];
    }

    /** Builds both maps below a new root. */
    method BuildTables(f: nat, ghost start: Vm, g: Region, h: Region)
      requires Valid() && View() == start.(free := start.free - {f}) && f in start.free && FrameAt(kernelPml4) == f
      requires PageAddr(g.base, g.pages) <= WORD && PageAddr(0, g.pages) <= WORD && g.flags < WORD
      requires PageAddr(h.base, h.pages) <= WORD && PageAddr(0, h.pages) <= WORD && h.flags < WORD
      modifies bitmap, this`freePages, this`freeCount, this`ram, this`tables
      ensures Valid() && Drift() == old(Drift())
      ensures View() == MapRegion(MapRegion(NewRoot(start, f), f, g), f, h)
    {
      StartTables(f, start);
      MapKernelRegion(g);
      MapKernelRegion(h);
    }

    /** Builds the kernel's page tables; without a frame for the root nothing happens. */
    method VmmInit()
      requires Valid()
      modifies bitmap, this`freePages, this`freeCount, this`ram, this`tables, this`kernelPml4
      ensures Valid() && Drift() == old(Drift())
      ensures match FirstFree(old(Free()), LOW_PAGES, totalPages)
              case None => kernelPml4 == 0 && View() == old(View())
              case Some(f) => kernelPml4 == FrameAddr(f) && View() == KernelTables(old(View()), f)
    {
      ghost var start := View();
      var frame := TakeFrame();
      kernelPml4 := if frame.None? then 0 else FrameAddr(frame.value);
      if frame.None? {
        return;
      }
      FrameAddrInverse(frame.value);
      BuildTables(frame.value, start, IDENTITY, DIRECT);
    }

    /** Points an entry at a new frame, if there is one. */
    method InstallFrame(entry: Slot) returns (frame: Option<nat>)
      requires Valid()
      modifies bitmap, this`freePages, this`freeCount, this`ram
      ensures Valid() && Drift() == old(Drift())
      ensures frame == FirstFree(old(Free()), LOW_PAGES, totalPages)
      ensures match frame
              case None => View() == old(View())
              case Some(f) =>
                View() == old(View()).(free := old(Free()) - {f}, ram := old(ram)[entry := TableEntry(f)])
    {
      frame := TakeFrame();
      if frame.Some? {
        ram := ram[entry := Or(Or(FrameAddr(frame.value), PRESENT), WRITABLE)];
      }
    }

    /** The page-fault handler, for the address that faulted. */
    method SwapPageFault(v: u64) returns (fault: Fault)
      requires Valid()
      modifies bitmap, this`freePages, this`freeCount, this`ram, this`tables, this`swapUsed
      ensures Valid() && Drift() == old(Drift())
      ensures (View(), fault) == PageFault(old(View()), FrameAt(kernelPml4), v)
      ensures swapUsed == if fault.SwappedIn? then Wrap(old(swapUsed) - 1) else old(swapUsed)
    {
      var slot := VmmGetPte(kernelPml4, v, false);
      if slot.None? {
        return NoEntry;
      }
      if And(ram[slot.value], SWAPPED) == 0 {
        return Unexpected;
      }
      var frame := InstallFrame(slot.value);
      if frame.None? {
        return NoFrame;
      }
      swapUsed := Wrap(swapUsed - 1);
      fault := SwappedIn(frame.value);
    }

    // ----- the heap -----

    /** Takes the heap's frames; without them the heap stays empty. */
    method KmallocInit()
      requires Valid()
      modifies bitmap, this`freePages, this`freeCount, this`heap
      ensures Valid() && View() == WithoutHeap(old(View())) && HeapPlaced(old(View()), heap, old(heap))
      ensures Drift() == old(Drift())
    {
      var start := TakeRun(HEAP_FRAMES);
      if start.None? {
        return;
      }
      heap := HeapAt(start.value);
    }

    method Kmalloc(size: u64) returns (p: Option<u64>)
      modifies this`heap
      ensures (heap, p) == H.Kmalloc(old(heap), size)
    {
      var rounded := And(Wrap(size + 15), WORD - 16);
      var next := Wrap(heap.ptr + rounded);
      if next > heap.end {
        return None;
      }
      p := Some(heap.ptr);
      heap := heap.(ptr := next);
    }

    method KmallocAligned(size: u64, align: u64) returns (p: Option<u64>)
      modifies this`heap
      ensures (heap, p) == H.KmallocAligned(old(heap), size, align)
    {
      heap := heap.(ptr := And(Wrap(heap.ptr + align - 1), WORD - 1 - Wrap(align - 1)));
      p := Kmalloc(size);
    }

    // ----- status and boot -----

    method GetStatus() returns (s: Status)
      ensures s.totalPhysical == Wrap(FrameAddr(totalPages)) && s.freePhysical == Wrap(FrameAddr(freePages))
      ensures freePages == Wrap(freeCount) ==> s.usedPhysical == ReportedUse(totalPages, freeCount)
      ensures s.swapTotal == Wrap(FrameAddr(swapCapacity)) && s.swapUsed == Wrap(FrameAddr(swapUsed))
      ensures s.pressureLevel ==
              if s.freePhysical < 0x1000_0000 then 2 else if s.freePhysical < 0x2000_0000 then 1 else 0
    {
      var total: int, free: int := Wrap(FrameAddr(totalPages)), Wrap(FrameAddr(freePages));
      WrapOfDifference(FrameAddr(totalPages), FrameAddr(freePages));
      s := Status(total, free, Wrap(total - free), Wrap(FrameAddr(swapCapacity)), Wrap(FrameAddr(swapUsed)),
                  if free < 256 * 1024 * 1024 then 2 else if free < 512 * 1024 * 1024 then 1 else 0);
    }

    /** The manager is in state `s` of the state machine, whatever `s` says of the owners of frames. */
    ghost predicate Is(s: Sys)
      reads this, bitmap
    {
      s.vm == View() && s.root == FrameAt(kernelPml4) && s.freeCount == freeCount && swapUsed == Wrap(s.swapUsed)
    }

    method ApplyMap(v: u64, phys: u64, flags: u64, ghost s: Sys) returns (result: int)
      requires Valid() && Is(s)
      modifies bitmap, this`freePages, this`freeCount, this`ram, this`tables
      ensures Valid() && Is(Step(s, MapOp(v, phys, flags)).0) && result == Step(s, MapOp(v, phys, flags)).1
    {
      result := VmmMap(kernelPml4, v, phys, flags);
    }

    method ApplyFault(v: u64, ghost s: Sys) returns (result: int)
      requires Valid() && Is(s)
      modifies bitmap, this`freePages, this`freeCount, this`ram, this`tables, this`swapUsed
      ensures Valid() && Is(Step(s, FaultOp(v)).0) && result == Step(s, FaultOp(v)).1
    {
      WrapAdds(s.swapUsed, -1);
      var fault := SwapPageFault(v);
      result := 0;
      if fault.SwappedIn? {
        FaultTakesOne(s, v);
        result := FrameAddr(fault.frame);
      }
    }

    method ApplyFrames(op: Op, ghost s: Sys) returns (result: int)
      requires Valid() && Is(s) && (op.AllocOp? || op.AllocRunOp? || op.FreeOp?)
      requires op.FreeOp? ==> FrameAt(op.phys) < MAX_PAGES
      modifies bitmap, this`freePages, this`freeCount
      ensures Valid() && Is(Step(s, op).0) && result == Step(s, op).1
    {
      result := 0;
      match op
      case AllocOp => result := PmmAlloc();
      case AllocRunOp(n) => result := PmmAllocContiguous(n);
      case FreeOp(phys) => PmmFree(phys);
    }

    /** Any operation of the state machine, by the method that is meant: the manager goes from state to state as the
        machine does, with the same results. */
    method Apply(op: Op, ghost s: Sys) returns (result: int)
      requires Valid() && Is(s) && (op.FreeOp? ==> FrameAt(op.phys) < MAX_PAGES)
      modifies bitmap, this`freePages, this`freeCount, this`ram, this`tables, this`swapUsed
      ensures Valid() && Is(Step(s, op).0) && result == Step(s, op).1
    {
      result := 0;
      match op
      case MapOp(v, phys, flags) => result := ApplyMap(v, phys, flags, s);
      case UnmapOp(v) => VmmUnmap(kernelPml4, v);
      case FaultOp(v) => result := ApplyFault(v, s);
      case WriteOp(slot, w) => ram := ram[slot := w];
      case _ => result := ApplyFrames(op, s);
    }

    /** The boot sequence: frames from the memory map, page tables, heap, swap. */
    method MemoryInit(mmap: seq<Descriptor>)
      requires Sized() && freeCount == 0 && totalCount == 0 && tables == map[] && OfferedPages(mmap) <= MAX_PAGES
      modifies this, bitmap
      ensures Valid() && totalPages == OfferedPages(mmap) && swapCapacity == 0x100_0000 && swapUsed == old(swapUsed)
      ensures match FirstFree(InitiallyFree(mmap), LOW_PAGES, totalPages)
              case None => kernelPml4 == 0 && heap == old(heap)
              case Some(f) =>
                var start := Vm(InitiallyFree(mmap), totalPages, old(ram), map[]);
                && kernelPml4 == FrameAddr(f) && BootedAs(View(), freeCount, start, f, OfferedPages(mmap))
                && HeapPlaced(KernelTables(start, f), heap, old(heap))
    {
      PmmInit(mmap);
      WrapOfWord(totalCount);
      InitVirtual(OfferedPages(mmap));
      swapCapacity := SWAP_MAX_PAGES;
    }

    /** The virtual half of the boot sequence, after `offered` pages have been counted. */
    method InitVirtual(ghost offered: nat)
      requires Valid() && tables == map[] && freeCount == offered - LOW_PAGES
      modifies bitmap, this`freePages, this`freeCount, this`ram, this`tables, this`kernelPml4, this`heap
      ensures Valid()
      ensures match FirstFree(old(Free()), LOW_PAGES, totalPages)
              case None => kernelPml4 == 0 && heap == old(heap)
              case Some(f) =>
                && kernelPml4 == FrameAddr(f) && BootedAs(View(), freeCount, old(View()), f, offered)
                && HeapPlaced(KernelTables(old(View()), f), heap, old(heap))
    {
      ghost var start := View();
      VmmInit();
      ghost var vm := View();
      KmallocInit();
      if kernelPml4 != 0 {
        FrameAddrInverse(FirstFree(start.free, LOW_PAGES, totalPages).value);
        BootedFrom(start, FrameAt(kernelPml4), offered, vm, View(), freeCount);
      } else {
        NoFrameNoHeap(vm);
      }
    }
  }

  lemma FaultTakesOne(s: Sys, v: u64)
    requires PageFault(s.vm, s.root, v).1.SwappedIn?
    ensures |PageFault(s.vm, s.root, v).0.free| == |s.vm.free| - 1
  {
    var f := PageFault(s.vm, s.root, v).1.frame;
    TakeSize(s.vm.free, {f});
  }

  lemma WrapOfDifference(x: int, y: int)
    ensures Wrap(Wrap(x) - Wrap(y)) == Wrap(x - y)
  {
  }

  lemma PageAddrFits(base: nat, k: nat, n: nat)
    requires k < n && PageAddr(base, n) <= WORD
    ensures PageAddr(base, k) < WORD
  {
  }
}
