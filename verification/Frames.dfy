/** Physical frames: the byte-packed bitmap, the allocation order, and the firmware's memory map.

    A bitmap byte holds eight frames, bit 1 meaning free.  `FreeSet` is the set of frames that a bitmap describes;
    everything above this module speaks of that set. */
module Frames {
  import opened Bits
  import opened Options

  const PAGE_SIZE: nat := 4096
  const MAX_PAGES: nat := 0x200_0000 // 128GB of 4KB frames
  const LOW_PAGES: nat := 512 // legacy area, never handed out

  /** The address of a frame, and the frame of an address. */
  function FrameAddr(f: nat): (r: nat)
  {
    f * PAGE_SIZE
  }

  function FrameAt(phys: nat): (r: nat)
  {
    phys / PAGE_SIZE
  }

  lemma FrameAddrInverse(f: nat)
    ensures FrameAt(FrameAddr(f)) == f
    ensures FrameAddr(f) == 0 <==> f == 0
  {
  }

  // ----- the bitmap -----

  predicate TestBit(b: bv8, k: nat)
    requires k < 8
  {
    (b >> k) & 1 == 1
  }

  function SetBit(b: bv8, k: nat): (r: bv8)
    requires k < 8
  {
    b | (1 << k)
  }

  function ClearBit(b: bv8, k: nat): (r: bv8)
    requires k < 8
  {
    b & !(1 << k)
  }

  predicate IsFree(bitmap: seq<bv8>, i: nat)
    requires i < 8 * |bitmap|
  {
    TestBit(bitmap[i / 8], i % 8)
  }

  function SetFree(bitmap: seq<bv8>, i: nat): (r: seq<bv8>)
    requires i < 8 * |bitmap|
    ensures |r| == |bitmap|
  {
    bitmap[i / 8 := SetBit(bitmap[i / 8], i % 8)]
  }

  function SetUsed(bitmap: seq<bv8>, i: nat): (r: seq<bv8>)
    requires i < 8 * |bitmap|
    ensures |r| == |bitmap|
  {
    bitmap[i / 8 := ClearBit(bitmap[i / 8], i % 8)]
  }

  ghost function FreeSet(bitmap: seq<bv8>): (r: set<nat>)
    ensures forall i :: i in r <==> 0 <= i < 8 * |bitmap| && IsFree(bitmap, i)
  {
    set i: nat | i < 8 * |bitmap| && IsFree(bitmap, i)
  }

  lemma SetFreeBit(b: bv8, i: nat, j: nat)
    requires i < 8 && j < 8
    ensures TestBit(SetBit(b, i), j) <==> i == j || TestBit(b, j)
  {
    if i < 4 {
      if j < 4 {
      } else {
      }
    } else if j < 4 {
    }
  }

  lemma SetUsedBit(b: bv8, i: nat, j: nat)
    requires i < 8 && j < 8
    ensures TestBit(ClearBit(b, i), j) <==> i != j && TestBit(b, j)
  {
    if i < 4 {
      if j < 4 {
      } else {
      }
    } else if j < 4 {
    }
  }

  lemma SetFreeAt(bitmap: seq<bv8>, i: nat, j: nat)
    requires i < 8 * |bitmap| && j < 8 * |bitmap|
    ensures IsFree(SetFree(bitmap, i), j) <==> IsFree(bitmap, j) || j == i
  {
    if j / 8 == i / 8 {
      SetFreeBit(bitmap[i / 8], i % 8, j % 8);
    }
  }

  lemma SetUsedAt(bitmap: seq<bv8>, i: nat, j: nat)
    requires i < 8 * |bitmap| && j < 8 * |bitmap|
    ensures IsFree(SetUsed(bitmap, i), j) <==> IsFree(bitmap, j) && j != i
  {
    if j / 8 == i / 8 {
      SetUsedBit(bitmap[i / 8], i % 8, j % 8);
    }
  }

  /** Packing eight frames to a byte loses nothing: setting a bit adds exactly its own frame to the free set. */
  lemma SetFreeAdds(bitmap: seq<bv8>, i: nat)
    requires i < 8 * |bitmap|
    ensures FreeSet(SetFree(bitmap, i)) == FreeSet(bitmap) + {i}
  {
    var r := SetFree(bitmap, i);
    forall j: nat
      ensures j in FreeSet(r) <==> j in FreeSet(bitmap) + {i}
    {
      if j < 8 * |bitmap| {
        SetFreeAt(bitmap, i, j);
      }
    }
  }

  /** Clearing a bit removes exactly its own frame from the free set. */
  lemma SetUsedRemoves(bitmap: seq<bv8>, i: nat)
    requires i < 8 * |bitmap|
    ensures FreeSet(SetUsed(bitmap, i)) == FreeSet(bitmap) - {i}
  {
    var r := SetUsed(bitmap, i);
    forall j: nat
      ensures j in FreeSet(r) <==> j in FreeSet(bitmap) - {i}
    {
      if j < 8 * |bitmap| {
        SetUsedAt(bitmap, i, j);
      }
    }
  }

  // ----- allocation order -----

  /** The least free frame in [i, n). */
  function FirstFree(free: set<nat>, i: nat, n: nat): (r: Option<nat>)
    ensures r.Some? ==> i <= r.value < n && r.value in free && forall j :: i <= j < r.value ==> j !in free
    ensures r.None? ==> forall j :: i <= j < n ==> j !in free
    decreases n - i
  {
    if i >= n then None else if i in free then Some(i) else FirstFree(free, i + 1, n)
  }

  predicate InRange(i: nat, a: nat, n: nat)
  {
    a <= i < a + n
  }

  ghost function Range(a: nat, n: nat): (r: set<nat>)
    ensures forall i: nat :: i in r <==> InRange(i, a, n)
  {
    set i: nat | i < a + n && InRange(i, a, n)
  }

  lemma {:induction false} RangeSize(a: nat, n: nat)
    ensures |Range(a, n)| == n
  {
    if n > 0 {
      RangeSize(a, n - 1);
      assert Range(a, n) == Range(a, n - 1) + {a + n - 1};
    }
  }

  /** The frames a, ..., a + len - 1 are all free. */
  ghost predicate FreeRun(free: set<nat>, a: nat, len: nat)
  {
    Range(a, len) <= free
  }

  /** The least start in [i, n - len] of `len` consecutive free frames. */
  ghost function FirstRun(free: set<nat>, i: nat, n: nat, len: nat): (r: Option<nat>)
    ensures r.Some? ==> i <= r.value && r.value + len <= n && FreeRun(free, r.value, len)
    ensures r.Some? ==> forall j :: i <= j < r.value ==> !FreeRun(free, j, len)
    ensures r.None? ==> forall j: nat :: i <= j && j + len <= n ==> !FreeRun(free, j, len)
    decreases n - i
  {
    if i + len > n then None
    else if FreeRun(free, i, len) then Some(i)
    else if i == n then None
    else FirstRun(free, i + 1, n, len)
  }

  // ----- the memory map -----

  /** The fields of an EFI memory descriptor that the kernel reads. */
  datatype Descriptor = Descriptor(kind: nat, physStart: u64, numPages: u64)

  const EFI_CONVENTIONAL_MEMORY := 7
  const EFI_BOOT_SERVICES_CODE := 3
  const EFI_BOOT_SERVICES_DATA := 4

  predicate Usable(d: Descriptor)
  {
    d.kind == EFI_CONVENTIONAL_MEMORY || d.kind == EFI_BOOT_SERVICES_CODE || d.kind == EFI_BOOT_SERVICES_DATA
  }

  /** Page `i` is one of the first `n` pages that `d` lists; page numbers wrap as 64-bit sums do. */
  predicate ListsFirst(d: Descriptor, n: nat, i: int)
  {
    Wrap(i - FrameAt(d.physStart)) < n
  }

  predicate Covers(d: Descriptor, i: int)
  {
    Usable(d) && ListsFirst(d, d.numPages, i)
  }

  ghost function Covered(d: Descriptor): (r: set<nat>)
  {
    set i: nat | i < MAX_PAGES && Covers(d, i)
  }

  /** The tracked ones among the first `n` pages that `d` lists. */
  ghost function Listed(d: Descriptor, n: nat): (r: set<nat>)
  {
    set i: nat | i < MAX_PAGES && ListsFirst(d, n, i)
  }

  /** Page number `n` of a descriptor. */
  function ListedPage(d: Descriptor, n: nat): (r: u64)
  {
    Wrap(FrameAt(d.physStart) + n)
  }

  /** Listing one more page adds that page, if it is tracked; it has not been listed before. */
  lemma {:induction false} ListedStep(d: Descriptor, n: nat)
    requires n < d.numPages
    ensures var i := ListedPage(d, n);
            && (i < MAX_PAGES ==> i !in Listed(d, n) && Listed(d, n + 1) == Listed(d, n) + {i})
            && (i >= MAX_PAGES ==> Listed(d, n + 1) == Listed(d, n))
            && |Listed(d, n + 1)| == |Listed(d, n)| + if i < MAX_PAGES then 1 else 0
  {
    var i := ListedPage(d, n);
    forall j: nat | j < MAX_PAGES
      ensures ListsFirst(d, n + 1, j) <==> ListsFirst(d, n, j) || j == i
      ensures j == i ==> !ListsFirst(d, n, j)
    {
      WrapInverse(j, FrameAt(d.physStart), n);
    }
  }

  lemma WrapInverse(j: nat, s: nat, n: nat)
    requires j < WORD && n < WORD
    ensures Wrap(j - s) == n <==> j == Wrap(s + n)
  {
  }

  /** The tracked pages that some descriptor offers as usable memory. */
  ghost function UsablePages(mmap: seq<Descriptor>): (r: set<nat>)
  {
    if mmap == [] then {} else UsablePages(mmap[..|mmap| - 1]) + Covered(mmap[|mmap| - 1])
  }

  /** The number of pages that the descriptors offer, a page counted once for each descriptor that covers it. */
  ghost function OfferedPages(mmap: seq<Descriptor>): (r: nat)
  {
    if mmap == [] then 0 else OfferedPages(mmap[..|mmap| - 1]) + |Covered(mmap[|mmap| - 1])|
  }

  ghost predicate PairwiseDisjoint(mmap: seq<Descriptor>)
  {
    forall i, j :: 0 <= i < j < |mmap| ==> Covered(mmap[i]) !! Covered(mmap[j])
  }

  lemma {:induction false} UsablePagesMeaning(mmap: seq<Descriptor>)
    ensures forall i: nat :: i in UsablePages(mmap) <==> exists k :: 0 <= k < |mmap| && i in Covered(mmap[k])
  {
    if mmap != [] {
      var front, last := mmap[..|mmap| - 1], |mmap| - 1;
      UsablePagesMeaning(front);
      forall i: nat
        ensures i in UsablePages(mmap) <==> exists k :: 0 <= k < |mmap| && i in Covered(mmap[k])
      {
        if k :| 0 <= k < |mmap| && i in Covered(mmap[k]) {
          assert k < last ==> front[k] == mmap[k];
        }
        if i in UsablePages(front) {
          var k :| 0 <= k < |front| && i in Covered(front[k]);
          assert mmap[k] == front[k];
        }
      }
    }
  }

  /** Page `i` is page number `p` of a descriptor of a type that the firmware leaves to the kernel. */
  ghost predicate Offers(d: Descriptor, p: nat, i: nat)
  {
    (d.kind == 7 || d.kind == 3 || d.kind == 4) && p < d.numPages
    && i == (d.physStart / 4096 + p) % 0x1_0000_0000_0000_0000
  }

  lemma CoveredIsOffered(d: Descriptor, i: nat)
    ensures i in Covered(d) <==> i < 0x200_0000 && exists p :: Offers(d, p, i)
  {
    if i in Covered(d) {
      var p: nat := Wrap(i - FrameAt(d.physStart));
      WrapInverse(i, FrameAt(d.physStart), p);
      assert Offers(d, p, i);
    }
    if i < MAX_PAGES && exists p :: Offers(d, p, i) {
      var p :| Offers(d, p, i);
      WrapInverse(i, FrameAt(d.physStart), p);
    }
  }

  /** The usable pages, from the fields of the descriptors: the pages below 128GB that descriptors of types 7, 3 and 4
      name. */
  lemma {:induction false} UsablePagesAre(mmap: seq<Descriptor>, i: nat)
    ensures i in UsablePages(mmap) <==>
            i < 0x200_0000 && exists k, p :: 0 <= k < |mmap| && Offers(mmap[k], p, i)
  {
    UsablePagesMeaning(mmap);
    forall k | 0 <= k < |mmap|
      ensures i in Covered(mmap[k]) <==> i < 0x200_0000 && exists p :: Offers(mmap[k], p, i)
    {
      CoveredIsOffered(mmap[k], i);
    }
  }

  lemma DisjointLast(mmap: seq<Descriptor>)
    requires mmap != []
    ensures var front := mmap[..|mmap| - 1];
            PairwiseDisjoint(mmap) <==> PairwiseDisjoint(front) && UsablePages(front) !! Covered(mmap[|mmap| - 1])
  {
    var front, last := mmap[..|mmap| - 1], |mmap| - 1;
    UsablePagesMeaning(front);
    if PairwiseDisjoint(front) && UsablePages(front) !! Covered(mmap[last]) {
      forall i, j | 0 <= i < j < |mmap|
        ensures Covered(mmap[i]) !! Covered(mmap[j])
      {
        assert front[i] == mmap[i];
        assert j < last ==> front[j] == mmap[j];
      }
    }
    if PairwiseDisjoint(mmap) {
      forall i, j | 0 <= i < j < |front|
        ensures Covered(front[i]) !! Covered(front[j])
      {
        assert front[i] == mmap[i] && front[j] == mmap[j];
      }
      forall x | x in UsablePages(front)
        ensures x !in Covered(mmap[last])
      {
        var i :| 0 <= i < |front| && x in Covered(front[i]);
        assert front[i] == mmap[i];
      }
    }
  }

  lemma UnionSizeIff<T>(a: set<T>, b: set<T>)
    ensures |a + b| <= |a| + |b|
    ensures |a + b| == |a| + |b| <==> a !! b
  {
    assert |a + b| == |a| + |b| - |a * b|;
  }

  /** The page count is right exactly for memory maps whose usable regions do not overlap. */
  lemma {:induction false} CountExactIffDisjoint(mmap: seq<Descriptor>)
    ensures |UsablePages(mmap)| <= OfferedPages(mmap)
    ensures |UsablePages(mmap)| == OfferedPages(mmap) <==> PairwiseDisjoint(mmap)
  {
    if mmap != [] {
      var front := mmap[..|mmap| - 1];
      CountExactIffDisjoint(front);
      DisjointLast(mmap);
      UnionSizeIff(UsablePages(front), Covered(mmap[|mmap| - 1]));
    }
  }

  /** What pmm_init leaves behind for a memory map. */
  ghost function InitiallyFree(mmap: seq<Descriptor>): (r: set<nat>)
  {
    UsablePages(mmap) - Range(0, LOW_PAGES)
  }

  /** The counting theorem, for every memory map: the free counter misses the population of the bitmap by the low pages
      that were not usable, and exceeds it by the pages that were counted twice; it is exact precisely when these are
      as many. */
  lemma {:induction false} InitialCounters(mmap: seq<Descriptor>, total: u64, freePages: u64)
    requires total == Wrap(OfferedPages(mmap)) && freePages == Wrap(OfferedPages(mmap) - LOW_PAGES)
    requires OfferedPages(mmap) < WORD
    ensures var u := UsablePages(mmap);
            var k := |u * Range(0, LOW_PAGES)|;
            && total == OfferedPages(mmap) >= |u| && (total == |u| <==> PairwiseDisjoint(mmap))
            && freePages == Wrap(|InitiallyFree(mmap)| + (OfferedPages(mmap) - |u|) - (LOW_PAGES - k))
            && (freePages == |InitiallyFree(mmap)| <==> OfferedPages(mmap) + k == |u| + LOW_PAGES)
  {
    CountExactIffDisjoint(mmap);
    UsableBelowLimit(mmap);
    RangeSize(0, LOW_PAGES);
    var u, low := UsablePages(mmap), Range(0, LOW_PAGES);
    SplitSize(u, low);
    CounterArithmetic(OfferedPages(mmap), |u|, |u - low|, |u * low|);
  }

  lemma CounterArithmetic(offered: nat, usable: nat, free: nat, k: nat)
    requires usable == free + k <= MAX_PAGES && k <= LOW_PAGES && usable <= offered < WORD
    ensures Wrap(offered) == offered
    ensures Wrap(offered - LOW_PAGES) == Wrap(free + (offered - usable) - (LOW_PAGES - k))
    ensures Wrap(offered - LOW_PAGES) == free <==> offered + k == usable + LOW_PAGES
  {
  }

  /** With disjoint usable regions the page total is the number of usable pages, and the free counter is exact precisely
      when all 512 low pages were usable. */
  lemma {:induction false} DisjointCounters(mmap: seq<Descriptor>, total: u64, freePages: u64)
    requires total == Wrap(OfferedPages(mmap)) && freePages == Wrap(OfferedPages(mmap) - LOW_PAGES)
    requires PairwiseDisjoint(mmap)
    ensures var k := |UsablePages(mmap) * Range(0, LOW_PAGES)|;
            && total == |UsablePages(mmap)| <= MAX_PAGES
            && freePages == Wrap(|InitiallyFree(mmap)| - (LOW_PAGES - k))
            && (freePages == |InitiallyFree(mmap)| <==> k == LOW_PAGES)
  {
    CountExactIffDisjoint(mmap);
    UsableBelowLimit(mmap);
    InitialCounters(mmap, total, freePages);
  }

  /** Ordinary memory from 1MB on, the `n` pages after a PC's video and firmware area. */
  function FromOneMegabyte(n: nat): (r: Descriptor)
    requires n < WORD
  {
    Descriptor(EFI_CONVENTIONAL_MEMORY, 0x10_0000, n)
  }

  lemma CoveredFromOneMegabyte(n: nat)
    requires 0x100 + n <= MAX_PAGES
    ensures Covered(FromOneMegabyte(n)) == Range(0x100, n) && |Covered(FromOneMegabyte(n))| == n
  {
    forall i: nat | i < MAX_PAGES
      ensures ListsFirst(FromOneMegabyte(n), n, i) <==> InRange(i, 0x100, n)
    {
      PageBeforeMegabyte(i);
    }
    RangeSize(0x100, n);
  }

  lemma PageBeforeMegabyte(i: nat)
    requires i < MAX_PAGES
    ensures FrameAt(0x10_0000) == 0x100
    ensures if i < 0x100 then Wrap(i - 0x100) >= MAX_PAGES else Wrap(i - 0x100) == i - 0x100
  {
  }

  /** With just the memory from 1MB on, the free counter is 256 too low. */
  lemma LowHoleMiscounts(n: nat, freePages: u64)
    requires LOW_PAGES <= 0x100 + n <= MAX_PAGES && freePages == Wrap(OfferedPages([FromOneMegabyte(n)]) - LOW_PAGES)
    ensures freePages == Wrap(|InitiallyFree([FromOneMegabyte(n)])| - 0x100)
    ensures freePages != |InitiallyFree([FromOneMegabyte(n)])|
  {
    var mmap := [FromOneMegabyte(n)];
    CoveredFromOneMegabyte(n);
    OnlyDescriptor(FromOneMegabyte(n));
    assert UsablePages(mmap) * Range(0, LOW_PAGES) == Range(0x100, 0x100);
    RangeSize(0x100, 0x100);
    DisjointCounters(mmap, Wrap(OfferedPages(mmap)), freePages);
  }

  lemma OnlyDescriptor(d: Descriptor)
    ensures UsablePages([d]) == Covered(d) && OfferedPages([d]) == |Covered(d)|
  {
    assert [d][..0] == [];
  }

  /** The same region listed twice is counted twice. */
  lemma OverlapMiscounts(n: nat)
    requires 0 < n && 0x100 + n <= MAX_PAGES
    ensures var d := FromOneMegabyte(n); OfferedPages([d, d]) == 2 * n && |UsablePages([d, d])| == n
  {
    var d := FromOneMegabyte(n);
    CoveredFromOneMegabyte(n);
    OnlyDescriptor(d);
    assert [d, d][..1] == [d];
  }

  lemma {:induction false} UsableBelowLimit(mmap: seq<Descriptor>)
    ensures UsablePages(mmap) <= Range(0, MAX_PAGES)
    ensures |UsablePages(mmap)| <= MAX_PAGES
  {
    UsablePagesMeaning(mmap);
    RangeSize(0, MAX_PAGES);
    SubsetSize(UsablePages(mmap), Range(0, MAX_PAGES));
  }

  lemma SplitSize<T>(a: set<T>, b: set<T>)
    ensures |a| == |a - b| + |a * b|
    ensures |a * b| <= |b|
  {
    assert a == (a - b) + a * b;
    SubsetSize(a * b, b);
  }

  lemma {:induction false} SubsetSize<T>(a: set<T>, b: set<T>)
    requires a <= b
    ensures |a| <= |b|
    ensures |a| == |b| ==> a == b
  {
    assert b == a + (b - a);
    assert |b| == |a| + |b - a|;
    if |a| == |b| {
      assert b - a == {};
    }
  }

  lemma TakeSize(free: set<nat>, take: set<nat>)
    requires take <= free
    ensures |free - take| == |free| - |take|
  {
    SplitSize(free, take);
    assert free * take == take;
  }

  lemma RunSize(free: set<nat>, a: nat, n: nat)
    requires FreeRun(free, a, n)
    ensures |free - Range(a, n)| == |free| - n
  {
    RangeSize(a, n);
    TakeSize(free, Range(a, n));
  }
}
