/** The memory manager as a state machine: who owns which frame, over every run of its operations.

    A system starts with some frames free; afterwards each of them is free, a page table, part of the heap, or
    outstanding with a caller, and never two of these. */
module System {
  import opened Bits
  import opened Frames
  import opened PageTables

  datatype Sys = Sys(
    vm: Vm, // free frames, memory and page tables
    root: nat, // frame of the root table
    heap: set<nat>, // frames of the bump heap
    out: set<nat>, // frames handed out and not given back
    freeCount: int, // the manager's own counter of free frames, before its reduction to 64 bits
    swapUsed: int) // the number of swap pages in use, likewise

  datatype Op =
    | MapOp(v: u64, phys: u64, flags: u64)
    | UnmapOp(v: u64)
    | FaultOp(v: u64)
    | AllocOp
    | AllocRunOp(n: u64)
    | FreeOp(phys: u64)
    | WriteOp(slot: Slot, w: nat) // any other code writing to memory that is not a page table

  /** What an operation returns: a status, or a frame's address. */
  type Result = int

  ghost function Took(s: Sys, vm: Vm): (r: int)
  {
    s.freeCount - (|s.vm.free| - |vm.free|)
  }

  /** The C function returns 0, which is no frame's address, when no frame is free. */
  ghost function Alloc(s: Sys): (r: (Sys, Result))
  {
    match FirstFree(s.vm.free, LOW_PAGES, s.vm.total)
    case None => (s, 0)
    case Some(f) =>
      (s.(vm := s.vm.(free := s.vm.free - {f}), out := s.out + {f}, freeCount := s.freeCount - 1), FrameAddr(f))
  }

  /** A request for no frames at all never succeeds. */
  ghost function AllocRun(s: Sys, n: nat): (r: (Sys, Result))
  {
    if n == 0 then (s, 0)
    else match FirstRun(s.vm.free, LOW_PAGES, s.vm.total, n)
      case None => (s, 0)
      case Some(a) =>
        (s.(vm := s.vm.(free := s.vm.free - Range(a, n)), out := s.out + Range(a, n), freeCount := s.freeCount - n),
         FrameAddr(a))
  }

  ghost function Free(s: Sys, phys: nat): (r: (Sys, Result))
  {
    var f := FrameAt(phys);
    if f in s.vm.free then (s, 0)
    else (s.(vm := s.vm.(free := s.vm.free + {f}), out := s.out - {f}, freeCount := s.freeCount + 1), 0)
  }

  ghost function Step(s: Sys, op: Op): (r: (Sys, Result))
  {
    match op
    case MapOp(v, phys, flags) =>
      var (vm, result) := Map(s.vm, s.root, v, phys, flags);
      (s.(vm := vm, freeCount := Took(s, vm)), result)
    case UnmapOp(v) => (s.(vm := Unmap(s.vm, s.root, v)), 0)
    case FaultOp(v) =>
      var (vm, fault) := PageFault(s.vm, s.root, v);
      if !fault.SwappedIn? then (s, 0)
      else
        (s.(vm := vm, out := s.out + {fault.frame}, freeCount := s.freeCount - 1,
            swapUsed := s.swapUsed - 1), FrameAddr(fault.frame))
    case AllocOp => Alloc(s)
    case AllocRunOp(n) => AllocRun(s, n)
    case FreeOp(phys) => Free(s, phys)
    case WriteOp(slot, w) => (s.(vm := s.vm.(ram := s.vm.ram[slot := w])), 0)
  }

  /** What callers must respect: only outstanding or free frames are freed, and page tables are left alone. */
  ghost predicate Legal(s: Sys, op: Op)
  {
    match op
    case FreeOp(phys) => FrameAt(phys) in s.out + s.vm.free
    case WriteOp(slot, _) => slot.frame !in s.vm.tables.Values
    case _ => true
  }

  // ----- what the frame operations return -----

  /** An allocation returns the address of the least frame available, which changes hands; or 0, and nothing changes. */
  lemma AllocReturns(s: Sys)
    ensures var (s', r) := Step(s, AllocOp);
            if forall g: nat :: g in s.vm.free ==> g < 512 || s.vm.total <= g then s' == s && r == 0
            else
              && r > 0 && r % 4096 == 0
              && var f := r / 4096;
                 && 512 <= f < s.vm.total && f in s.vm.free
                 && (forall g: nat :: g in s.vm.free ==> g < 512 || s.vm.total <= g || f <= g)
                 && s' == s.(vm := s.vm.(free := s.vm.free - {f}), out := s.out + {f}, freeCount := s.freeCount - 1)
  {
    var f := FirstFree(s.vm.free, LOW_PAGES, s.vm.total);
    if f.Some? {
      FrameAddrInverse(f.value);
      assert f.value in s.vm.free;
    }
  }

  /** The frames a, ..., a + n - 1 can all be handed out. */
  ghost predicate RunAvailable(s: Sys, a: nat, n: nat)
  {
    512 <= a && a + n <= s.vm.total && forall i: nat :: a <= i < a + n ==> i in s.vm.free
  }

  lemma FreeRunMeans(free: set<nat>, a: nat, n: nat)
    ensures FreeRun(free, a, n) <==> forall i: nat :: a <= i < a + n ==> i in free
  {
    if FreeRun(free, a, n) {
      forall i: nat | a <= i < a + n
        ensures i in free
      {
        assert i in Range(a, n);
      }
    }
  }

  /** A contiguous allocation returns the address of the least run, whose frames change hands; or 0, and nothing
      changes. */
  lemma {:induction false} AllocRunReturns(s: Sys, n: u64)
    requires n > 0
    ensures var (s', r) := Step(s, AllocRunOp(n));
            if r == 0 then s' == s && forall a: nat :: !RunAvailable(s, a, n)
            else
              && r > 0 && r % 4096 == 0
              && var a := r / 4096;
                 && RunAvailable(s, a, n) && (forall b: nat :: RunAvailable(s, b, n) ==> a <= b)
                 && s'.vm.free == s.vm.free - Range(a, n) && s'.out == s.out + Range(a, n)
                 && s' == s.(vm := s.vm.(free := s'.vm.free), out := s'.out, freeCount := s.freeCount - n)
  {
    var run := FirstRun(s.vm.free, LOW_PAGES, s.vm.total, n);
    forall a: nat
      ensures RunAvailable(s, a, n) <==> LOW_PAGES <= a && a + n <= s.vm.total && FreeRun(s.vm.free, a, n)
    {
      FreeRunMeans(s.vm.free, a, n);
    }
    if run.Some? {
      FrameAddrInverse(run.value);
    }
  }

  /** Freeing an outstanding frame makes it free, and freeing a free one changes nothing. */
  lemma FreeReturns(s: Sys, phys: u64)
    ensures var (s', r) := Step(s, FreeOp(phys));
            var f := phys / 4096;
            if f in s.vm.free then s' == s
            else s' == s.(vm := s.vm.(free := s.vm.free + {f}), out := s.out - {f}, freeCount := s.freeCount + 1)
  {
  }

  // ----- ownership -----

  ghost predicate Split(all: set<nat>, free: set<nat>, tables: set<nat>, heap: set<nat>, out: set<nat>)
  {
    free + tables + heap + out == all && free !! tables !! heap !! out
  }

  /** The frames of `all` are split among their owners, and the counter is off by the constant `drift`. */
  ghost predicate Owners(s: Sys, all: set<nat>, drift: int)
  {
    && Split(all, s.vm.free, s.vm.tables.Values, s.heap, s.out)
    && s.freeCount == |s.vm.free| + drift
  }

  ghost predicate Inv(s: Sys, all: set<nat>, drift: int)
  {
    Tree(s.vm, s.root) && Owners(s, all, drift)
  }

  lemma TableFramesUsed(vm: Vm, root: nat)
    requires Tree(vm, root)
    ensures vm.free !! vm.tables.Values
  {
  }

  lemma SplitMoves(all: set<nat>, free: set<nat>, tables: set<nat>, heap: set<nat>, out: set<nat>,
                   free': set<nat>, tables': set<nat>, out': set<nat>)
    requires Split(all, free, tables, heap, out)
    requires free' + tables' + out' == free + tables + out && free' !! tables' !! out'
    ensures Split(all, free', tables', heap, out')
  {
    assert heap !! free + tables + out;
  }

  lemma GrownSplit(s: Vm, r: Vm, heap: set<nat>, out: set<nat>, all: set<nat>)
    requires Split(all, s.free, s.tables.Values, heap, out) && Grown(s, r) && r.free !! r.tables.Values
    ensures Split(all, r.free, r.tables.Values, heap, out)
  {
    assert s.free + s.tables.Values !! out;
    SplitMoves(all, s.free, s.tables.Values, heap, out, r.free, r.tables.Values, out);
  }

  /** Growing the tree moves frames from the free set to the tables, and touches no other owner. */
  lemma GrownKeepsOwners(s: Sys, vm: Vm, all: set<nat>, drift: int)
    requires Owners(s, all, drift) && Grown(s.vm, vm) && vm.free !! vm.tables.Values
    ensures Owners(s.(vm := vm, freeCount := Took(s, vm)), all, drift)
  {
    GrownSplit(s.vm, vm, s.heap, s.out, all);
  }

  lemma TakeSplit(all: set<nat>, free: set<nat>, tables: set<nat>, heap: set<nat>, out: set<nat>, take: set<nat>)
    requires Split(all, free, tables, heap, out) && take <= free
    ensures Split(all, free - take, tables, heap, out + take)
  {
    SplitMoves(all, free, tables, heap, out, free - take, tables, out + take);
  }

  /** Handing out a set of free frames. */
  lemma TakeKeepsOwners(s: Sys, take: set<nat>, all: set<nat>, drift: int)
    requires Owners(s, all, drift) && take <= s.vm.free
    ensures Owners(s.(vm := s.vm.(free := s.vm.free - take), out := s.out + take,
                      freeCount := s.freeCount - |take|), all, drift)
  {
    TakeSplit(all, s.vm.free, s.vm.tables.Values, s.heap, s.out, take);
    TakeSize(s.vm.free, take);
  }

  lemma OwnersDiffer(all: set<nat>, free: set<nat>, tables: set<nat>, heap: set<nat>, out: set<nat>, f: nat)
    requires Split(all, free, tables, heap, out) && f in out
    ensures f !in free && f !in tables && f !in heap
  {
  }

  lemma GiveSplit(all: set<nat>, free: set<nat>, tables: set<nat>, heap: set<nat>, out: set<nat>, f: nat)
    requires Split(all, free, tables, heap, out) && f in out
    ensures Split(all, free + {f}, tables, heap, out - {f})
  {
    SplitMoves(all, free, tables, heap, out, free + {f}, tables, out - {f});
  }

  /** Taking an outstanding frame back. */
  lemma GiveKeepsOwners(s: Sys, f: nat, all: set<nat>, drift: int)
    requires Owners(s, all, drift) && f in s.out
    ensures Owners(s.(vm := s.vm.(free := s.vm.free + {f}), out := s.out - {f},
                      freeCount := s.freeCount + 1), all, drift)
  {
    GiveSplit(all, s.vm.free, s.vm.tables.Values, s.heap, s.out, f);
    OwnersDiffer(all, s.vm.free, s.vm.tables.Values, s.heap, s.out, f);
  }

  /** Frames that are not tables may change owner, and their memory may change, without any effect on the tree. */
  lemma {:induction false} OutsideTree(vm: Vm, r: Vm, root: nat)
    requires Tree(vm, root) && r.tables == vm.tables && r.total == vm.total
    requires r.free !! vm.tables.Values
    requires forall slot: Slot :: slot.frame in vm.tables.Values ==> r.ram[slot] == vm.ram[slot]
    ensures Tree(r, root) && SameLeaves(vm, r)
  {
    forall p | p in vm.tables
      ensures r.tables[p] !in r.free
      ensures forall i: nat :: r.ram[Slot(vm.tables[p], i)] == vm.ram[Slot(vm.tables[p], i)]
    {
      assert vm.tables[p] in vm.tables.Values;
    }
    forall p, i: nat | p in r.tables && |p| < 3 && i < 512
      ensures Linked(r, p, i)
    {
      assert Linked(vm, p, i);
    }
  }

  // ----- the flat map -----

  /** The abstract page map: words by page number, 0 where nothing is mapped. */
  type FlatMap = map<nat, nat>

  function Word(flat: FlatMap, n: nat): (r: nat)
  {
    if n in flat then flat[n] else 0
  }

  /** What an operation with result `r` means for the flat map. */
  ghost function FlatStep(flat: FlatMap, op: Op, r: Result): (flat': FlatMap)
  {
    match op
    case MapOp(v, phys, flags) => if r == 0 then flat[PageOf(v) := LeafEntry(phys, flags)] else flat
    case UnmapOp(v) => if Present(Word(flat, PageOf(v))) then flat - {PageOf(v)} else flat
    case FaultOp(v) => if r > 0 then flat[PageOf(v) := TableEntry(FrameAt(r))] else flat
    case _ => flat
  }

  /** The page tables hold exactly the words of the flat map, for every address. */
  ghost predicate Agrees(vm: Vm, flat: FlatMap)
  {
    forall u: nat :: Leaf(vm, u) == Word(flat, PageOf(u))
  }

  /** The flat map that any tables hold. */
  ghost function FlatOf(vm: Vm): (r: FlatMap)
  {
    map n: nat | n < PAGE_LIMIT :: Leaf(vm, PageAddr(0, n))
  }

  lemma FlatOfAgrees(vm: Vm)
    ensures Agrees(vm, FlatOf(vm))
  {
    forall u: nat
      ensures Leaf(vm, u) == Word(FlatOf(vm), PageOf(u))
    {
      PageOfPageAddr(PageOf(u));
      SameLeafOnPage(vm, u, PageAddr(0, PageOf(u)));
    }
  }

  lemma OnlyPageAgrees(s: Vm, r: Vm, v: nat, w: nat, flat: FlatMap)
    requires Agrees(s, flat) && OnlyPage(s, r, v, w)
    ensures Agrees(r, flat[PageOf(v) := w])
    ensures w == 0 ==> Agrees(r, flat - {PageOf(v)})
  {
  }

  lemma MapStep(s: Sys, op: Op, flat: FlatMap, all: set<nat>, drift: int)
    requires Inv(s, all, drift) && Agrees(s.vm, flat) && op.MapOp?
    ensures var (s', r) := Step(s, op); Inv(s', all, drift) && Agrees(s'.vm, FlatStep(flat, op, r))
  {
    var (vm, result) := Map(s.vm, s.root, op.v, op.phys, op.flags);
    MapRefines(s.vm, s.root, op.v, op.phys, op.flags);
    TableFramesUsed(vm, s.root);
    GrownKeepsOwners(s, vm, all, drift);
    if result == 0 {
      OnlyPageAgrees(s.vm, vm, op.v, LeafEntry(op.phys, op.flags), flat);
    }
  }

  lemma UnmapStep(s: Sys, op: Op, flat: FlatMap, all: set<nat>, drift: int)
    requires Inv(s, all, drift) && Agrees(s.vm, flat) && op.UnmapOp?
    ensures var (s', r) := Step(s, op); Inv(s', all, drift) && Agrees(s'.vm, FlatStep(flat, op, r))
  {
    var vm := Unmap(s.vm, s.root, op.v);
    UnmapRefines(s.vm, s.root, op.v);
    UnmapFrees(s.vm, s.root, op.v);
    if Present(Leaf(s.vm, op.v)) {
      OnlyPageAgrees(s.vm, vm, op.v, 0, flat);
    }
  }

  lemma UnmapFrees(vm: Vm, root: nat, v: nat)
    ensures var r := Unmap(vm, root, v); r.free == vm.free && r.tables == vm.tables
  {
  }

  lemma FaultStep(s: Sys, op: Op, flat: FlatMap, all: set<nat>, drift: int)
    requires Inv(s, all, drift) && Agrees(s.vm, flat) && op.FaultOp?
    ensures var (s', r) := Step(s, op); Inv(s', all, drift) && Agrees(s'.vm, FlatStep(flat, op, r))
  {
    var (vm, fault) := PageFault(s.vm, s.root, op.v);
    PageFaultRefines(s.vm, s.root, op.v);
    if fault.SwappedIn? {
      var f := fault.frame;
      FrameAddrInverse(f);
      FaultKeepsOwners(s, vm, f, all, drift);
      OnlyPageAgrees(s.vm, vm, op.v, TableEntry(f), flat);
    }
  }

  lemma FaultKeepsOwners(s: Sys, vm: Vm, f: nat, all: set<nat>, drift: int)
    requires Owners(s, all, drift) && f in s.vm.free && vm.free == s.vm.free - {f} && vm.tables == s.vm.tables
    ensures Owners(s.(vm := vm, out := s.out + {f}, freeCount := s.freeCount - 1,
                      swapUsed := s.swapUsed - 1), all, drift)
  {
    TakeKeepsOwners(s, {f}, all, drift);
  }

  /** The tables and their contents are the same. */
  ghost predicate Outside(s: Sys, s': Sys)
  {
    && s'.root == s.root && s'.vm.tables == s.vm.tables && s'.vm.total == s.vm.total
    && forall slot: Slot :: slot.frame in s.vm.tables.Values ==> s'.vm.ram[slot] == s.vm.ram[slot]
  }

  /** An operation that only moves frames between the free set and callers, or writes outside the tables. */
  lemma OutsideStep(s: Sys, s': Sys, flat: FlatMap, all: set<nat>, drift: int)
    requires Inv(s, all, drift) && Agrees(s.vm, flat) && Owners(s', all, drift) && Outside(s, s')
    ensures Inv(s', all, drift) && Agrees(s'.vm, flat)
  {
    SplitDisjoint(all, s'.vm.free, s'.vm.tables.Values, s'.heap, s'.out);
    OutsideTree(s.vm, s'.vm, s.root);
  }

  lemma SplitDisjoint(all: set<nat>, free: set<nat>, tables: set<nat>, heap: set<nat>, out: set<nat>)
    requires Split(all, free, tables, heap, out)
    ensures free !! tables
  {
  }

  lemma AllocKeepsOwners(s: Sys, all: set<nat>, drift: int)
    requires Owners(s, all, drift)
    ensures Owners(Alloc(s).0, all, drift) && Outside(s, Alloc(s).0)
  {
    var f := FirstFree(s.vm.free, LOW_PAGES, s.vm.total);
    if f.Some? {
      TakeKeepsOwners(s, {f.value}, all, drift);
    }
  }

  lemma AllocRunKeepsOwners(s: Sys, n: nat, all: set<nat>, drift: int)
    requires Owners(s, all, drift)
    ensures Owners(AllocRun(s, n).0, all, drift) && Outside(s, AllocRun(s, n).0)
  {
    var a := FirstRun(s.vm.free, LOW_PAGES, s.vm.total, n);
    if n > 0 && a.Some? {
      RangeSize(a.value, n);
      TakeKeepsOwners(s, Range(a.value, n), all, drift);
    }
  }

  lemma FreeKeepsOwners(s: Sys, phys: nat, all: set<nat>, drift: int)
    requires Owners(s, all, drift) && FrameAt(phys) in s.out + s.vm.free
    ensures Owners(Free(s, phys).0, all, drift) && Outside(s, Free(s, phys).0)
  {
    if FrameAt(phys) !in s.vm.free {
      GiveKeepsOwners(s, FrameAt(phys), all, drift);
    }
  }

  lemma FrameOpKeepsOwners(s: Sys, op: Op, all: set<nat>, drift: int)
    requires Owners(s, all, drift) && Legal(s, op) && !op.MapOp? && !op.UnmapOp? && !op.FaultOp?
    ensures Owners(Step(s, op).0, all, drift) && Outside(s, Step(s, op).0)
  {
    match op
    case AllocOp => AllocKeepsOwners(s, all, drift);
    case AllocRunOp(n) => AllocRunKeepsOwners(s, n, all, drift);
    case FreeOp(phys) => FreeKeepsOwners(s, phys, all, drift);
    case WriteOp(_, _) =>
  }

  /** Every operation keeps the tree and the ownership of every frame, and acts on the flat map as it should. */
  lemma StepRefines(s: Sys, op: Op, flat: FlatMap, all: set<nat>, drift: int)
    requires Inv(s, all, drift) && Agrees(s.vm, flat) && Legal(s, op)
    ensures var (s', r) := Step(s, op); Inv(s', all, drift) && Agrees(s'.vm, FlatStep(flat, op, r))
  {
    match op
    case MapOp(_, _, _) => MapStep(s, op, flat, all, drift);
    case UnmapOp(_) => UnmapStep(s, op, flat, all, drift);
    case FaultOp(_) => FaultStep(s, op, flat, all, drift);
    case _ =>
      FrameOpKeepsOwners(s, op, all, drift);
      OutsideStep(s, Step(s, op).0, flat, all, drift);
  }

  /** A page fault changes the swap count by as many pages as it takes off the swapped ones. */
  lemma FaultKeepsSwapBalance(s: Sys, v: u64)
    requires Tree(s.vm, s.root)
    ensures var s' := Step(s, FaultOp(v)).0; s'.swapUsed - |SwappedPages(s'.vm)| == s.swapUsed - |SwappedPages(s.vm)|
  {
    if PageFault(s.vm, s.root, v).1.SwappedIn? {
      SwapInBalance(s.vm, s.root, v);
    }
  }

  // ----- runs -----

  ghost function Run(s: Sys, ops: seq<Op>): (r: (Sys, seq<Result>))
    ensures |r.1| == |ops|
    decreases |ops|
  {
    if ops == [] then (s, [])
    else
      var (s1, x) := Step(s, ops[0]);
      var (s2, xs) := Run(s1, ops[1..]);
      (s2, [x] + xs)
  }

  ghost predicate LegalRun(s: Sys, ops: seq<Op>)
    decreases |ops|
  {
    ops == [] || (Legal(s, ops[0]) && LegalRun(Step(s, ops[0]).0, ops[1..]))
  }

  ghost function FlatRun(flat: FlatMap, ops: seq<Op>, rs: seq<Result>): (r: FlatMap)
    requires |ops| == |rs|
    decreases |ops|
  {
    if ops == [] then flat else FlatRun(FlatStep(flat, ops[0], rs[0]), ops[1..], rs[1..])
  }

  /** The main theorem: after any run of mapping, unmapping, faulting, allocating, freeing and writing elsewhere,
      translation agrees for every address with the flat map that the results describe, the tables still form a tree,
      and every frame still has exactly one owner. */
  lemma {:induction false} RunRefines(s: Sys, ops: seq<Op>, flat: FlatMap, all: set<nat>, drift: int)
    requires Inv(s, all, drift) && Agrees(s.vm, flat) && LegalRun(s, ops)
    ensures var (s', rs) := Run(s, ops);
            && Inv(s', all, drift)
            && Agrees(s'.vm, FlatRun(flat, ops, rs))
            && forall v: nat :: Translate(s'.vm, s'.root, v) == Target(Word(FlatRun(flat, ops, rs), PageOf(v)), v)
    decreases |ops|
  {
    var (s', rs) := Run(s, ops);
    if ops == [] {
      forall v: nat
        ensures Translate(s.vm, s.root, v) == Target(Word(flat, PageOf(v)), v)
      {
        TranslateRefines(s.vm, s.root, v);
      }
    } else {
      var (s1, x) := Step(s, ops[0]);
      StepRefines(s, ops[0], flat, all, drift);
      RunRefines(s1, ops[1..], FlatStep(flat, ops[0], x), all, drift);
      assert rs[1..] == Run(s1, ops[1..]).1;
    }
  }

  /** Over any run the heap's frames stay what they are, and belong to nobody else. */
  lemma {:induction false} HeapStaysOwned(s: Sys, ops: seq<Op>, all: set<nat>, drift: int)
    requires Inv(s, all, drift) && LegalRun(s, ops)
    ensures var s' := Run(s, ops).0;
            s'.heap == s.heap && s'.heap !! s'.vm.free + s'.vm.tables.Values + s'.out
  {
    FlatOfAgrees(s.vm);
    RunRefines(s, ops, FlatOf(s.vm), all, drift);
    RunKeepsHeap(s, ops);
    HeapApart(all, Run(s, ops).0.vm.free, Run(s, ops).0.vm.tables.Values, s.heap, Run(s, ops).0.out);
  }

  lemma {:induction false} RunKeepsHeap(s: Sys, ops: seq<Op>)
    ensures Run(s, ops).0.heap == s.heap && Run(s, ops).0.root == s.root
    decreases |ops|
  {
    if ops != [] {
      RunKeepsHeap(Step(s, ops[0]).0, ops[1..]);
    }
  }

  lemma HeapApart(all: set<nat>, free: set<nat>, tables: set<nat>, heap: set<nat>, out: set<nat>)
    requires Split(all, free, tables, heap, out)
    ensures heap !! free + tables + out
  {
  }

  /** The reported use is the low pages and the owned frames, however far off the free counter is: the total is off by
      as much. */
  lemma UsedFrames(s: Sys, all: set<nat>, drift: int, total: nat)
    requires Inv(s, all, drift) && total == |all| + LOW_PAGES + drift
    ensures total - s.freeCount == LOW_PAGES + |s.vm.tables.Values| + |s.heap| + |s.out|
    ensures |s.vm.tables.Values| + |s.heap| + |s.out| <= |all|
  {
    var a, b, c := s.vm.free + s.vm.tables.Values, s.heap, s.out;
    assert |a| == |s.vm.free| + |s.vm.tables.Values|;
    assert |a + b| == |a| + |b| && |a + b + c| == |a + b| + |c|;
  }
}
