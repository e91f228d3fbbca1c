/** The page tables that the kernel builds for itself: the identity map of the first 2GB, then the direct map of 4GB.

    The direct map's base has zero bits 12 to 47, so the second map rewrites the slots of the first. */
module KernelMap {
  import opened Bits
  import opened Frames
  import opened PageTables

  const PHYS_MAP_BASE: nat := 0xFFFF_0000_0000_0000
  const DIRECT_PAGES: nat := 0x10_0000 // 4GB
  const TABLE_COST: nat := 2054

  /** A run of pages to be mapped to the first frames, all with the same flags. */
  datatype Region = Region(base: nat, flags: nat, pages: nat)

  /** The first 2GB, present, writable and global.  The flags share no bits, so their sum is their union. */
  const IDENTITY: Region := Region(0, PRESENT + WRITABLE + GLOBAL, 0x8_0000)

  /** The first 4GB at the direct-map base, with the same flags and no-execute. */
  const DIRECT: Region := Region(PHYS_MAP_BASE, PRESENT + WRITABLE + NX + GLOBAL, DIRECT_PAGES)

  ghost function MapPage(s: Vm, root: nat, g: Region, k: nat): (r: Vm)
  {
    Map(s, root, PageAddr(g.base, k), PageAddr(0, k), g.flags).0
  }

  /** Maps the first `n` pages of a region to the first `n` frames; failures are ignored, as the kernel does. */
  ghost function MapPages(s: Vm, root: nat, g: Region, n: nat): (r: Vm)
  {
    if n == 0 then s else MapPage(MapPages(s, root, g, Prev(n)), root, g, Prev(n))
  }

  lemma MapPagesNext(s: Vm, root: nat, g: Region, k: nat, n: nat, before: Vm, after: Vm)
    requires n == k + 1 && before == MapPages(s, root, g, k) && after == MapPage(before, root, g, k)
    ensures after == MapPages(s, root, g, n)
  {
    assert Prev(n) == k;
  }

  ghost function MapRegion(s: Vm, root: nat, g: Region): (r: Vm)
  {
    MapPages(s, root, g, g.pages)
  }

  /** The root table alone, in frame `f`. */
  ghost function NewRoot(s: Vm, f: nat): (r: Vm)
  {
    Vm(s.free - {f}, s.total, ZeroFrame(s.ram, f), map[[] := f])
  }

  /** The tables after vmm_init with root frame `f`. */
  ghost function KernelTables(s: Vm, f: nat): (r: Vm)
  {
    MapRegion(MapRegion(NewRoot(s, f), f, IDENTITY), f, DIRECT)
  }

  // ----- the tables that 4GB need -----

  ghost function DirectoryPaths(n: nat): (r: set<seq<nat>>)
  {
    set g: nat | g < n :: [0, g]
  }

  ghost function LeafTablePaths(n: nat): (r: set<seq<nat>>)
  {
    set i: nat | i < n :: [0, i / 512, i % 512]
  }

  ghost const KERNEL_PATHS: set<seq<nat>> := {[], [0]} + DirectoryPaths(4) + LeafTablePaths(2048)

  lemma {:induction false} DirectoryCount(n: nat)
    ensures |DirectoryPaths(n)| == n
  {
    if n > 0 {
      DirectoryCount(n - 1);
      assert DirectoryPaths(n) == DirectoryPaths(n - 1) + {[0, n - 1]};
      forall g: nat | g < n - 1 ensures [0, g] != [0, n - 1] {
        assert [0, g][1] != [0, n - 1][1];
      }
    }
  }

  lemma {:induction false} LeafTableCount(n: nat)
    ensures |LeafTablePaths(n)| == n
  {
    if n > 0 {
      LeafTableCount(n - 1);
      var last := [0, (n - 1) / 512, (n - 1) % 512];
      assert LeafTablePaths(n) == LeafTablePaths(n - 1) + {last};
      forall i: nat | i < n - 1 ensures [0, i / 512, i % 512] != last {
        assert [0, i / 512, i % 512][1] == i / 512 && [0, i / 512, i % 512][2] == i % 512;
        assert last[1] == (n - 1) / 512 && last[2] == (n - 1) % 512;
      }
    }
  }

  lemma KernelPathCount()
    ensures |KERNEL_PATHS| == TABLE_COST
  {
    DirectoryCount(4);
    LeafTableCount(2048);
    var roots: set<seq<nat>> := {[], [0]};
    assert roots !! DirectoryPaths(4) by {
      forall p | p in DirectoryPaths(4) ensures |p| == 2 {}
    }
    assert roots + DirectoryPaths(4) !! LeafTablePaths(2048) by {
      forall p | p in LeafTablePaths(2048) ensures |p| == 3 {}
      forall p | p in roots + DirectoryPaths(4) ensures |p| < 3 {}
    }
    assert |roots| == 2;
  }

  /** The walk to any of the first 4GB stays within those tables. */
  lemma PathOfLowPage(v: nat)
    requires PageOf(v) < DIRECT_PAGES
    ensures Path(v) == [0, PageOf(v) / 0x4_0000, PageOf(v) / 512 % 512]
    ensures Above(v, 3) in KERNEL_PATHS && Above(v, 2) in KERNEL_PATHS && Above(v, 1) in KERNEL_PATHS
  {
    IndicesArePage(v);
    var a, b, c, d := Index(v, 4), Index(v, 3), Index(v, 2), Index(v, 1);
    LowDigits(a, b, c, d, PageOf(v));
    var i := PageOf(v) / 512;
    assert i < 2048 && i / 512 == b && i % 512 == c;
    assert Above(v, 3) == [0] && Above(v, 2) == [0, b] && Above(v, 1) == [0, i / 512, i % 512];
    assert [0, i / 512, i % 512] in LeafTablePaths(2048);
    assert [0, b] in DirectoryPaths(4);
  }

  lemma LowDigits(a: nat, b: nat, c: nat, d: nat, n: nat)
    requires b < 512 && c < 512 && d < 512 && n == ((a * 512 + b) * 512 + c) * 512 + d && n < DIRECT_PAGES
    ensures a == 0 && b < 4 && n / 512 / 512 == b && n / 512 % 512 == c && n / 0x4_0000 == b
  {
  }

  // ----- building the map -----

  ghost predicate Enough(s: Vm)
  {
    s.tables.Keys <= KERNEL_PATHS && |Available(s)| + |s.tables| >= TABLE_COST
  }

  lemma {:induction false} EnoughForOne(s: Vm, v: nat)
    requires Enough(s) && PageOf(v) < DIRECT_PAGES
    ensures Missing(s, v, 4) <= |Available(s)|
  {
    MissingCount(s, v);
    PathOfLowPage(v);
    KernelPathCount();
    var m := {Above(v, 3), Above(v, 2), Above(v, 1)} - s.tables.Keys;
    UnionSize(m, s.tables.Keys);
    SubsetSize(m + s.tables.Keys, KERNEL_PATHS);
  }

  lemma {:induction false} MapKeepsEnough(s: Vm, root: nat, v: nat, phys: nat, flags: nat)
    requires Tree(s, root) && Enough(s) && PageOf(v) < DIRECT_PAGES
    ensures Enough(Map(s, root, v, phys, flags).0)
  {
    MapRefines(s, root, v, phys, flags);
    PathOfLowPage(v);
    var r := Map(s, root, v, phys, flags).0;
    forall p | p in r.tables
      ensures p in KERNEL_PATHS
    {
      if p !in s.tables {
        WalkAddsOnPath(s, root, v, 4, true, p);
      }
    }
  }

  lemma MapPageKeepsTree(s: Vm, root: nat, g: Region, k: nat, t: Vm)
    requires Tree(t, root) && Grown(s, t)
    ensures Tree(MapPage(t, root, g, k), root) && Grown(s, MapPage(t, root, g, k))
  {
    MapRefines(t, root, PageAddr(g.base, k), PageAddr(0, k), g.flags);
    GrownTransitive(s, t, MapPage(t, root, g, k));
  }

  /** Mapping pages in order keeps the tree whether or not frames suffice. */
  lemma {:induction false} MapPagesKeepsTree(s: Vm, root: nat, g: Region, n: nat)
    requires Tree(s, root)
    ensures Tree(MapPages(s, root, g, n), root) && Grown(s, MapPages(s, root, g, n))
  {
    if n > 0 {
      MapPagesKeepsTree(s, root, g, Prev(n));
      MapPageKeepsTree(s, root, g, Prev(n), MapPages(s, root, g, Prev(n)));
    }
  }

  /** A region whose base has no bits in 12 to 47, and whose flags keep clear of the address bits. */
  ghost predicate LowRegion(g: Region)
  {
    (g.base == 0 || g.base == PHYS_MAP_BASE) && g.flags / PAGE_SIZE % FRAME_LIMIT == 0 && g.pages <= DIRECT_PAGES
  }

  lemma PageOfRegion(base: nat, k: nat)
    requires base == 0 || base == PHYS_MAP_BASE
    requires k < DIRECT_PAGES
    ensures PageOf(PageAddr(base, k)) == k
  {
  }

  /** The first `n` pages are mapped to themselves with the given flags; nothing else has changed. */
  ghost predicate MapsFirst(s: Vm, r: Vm, flags: nat, n: nat)
  {
    forall u: nat :: Leaf(r, u) == if PageOf(u) < n then LeafEntry(PageAddr(0, PageOf(u)), flags) else Leaf(s, u)
  }

  lemma MapPageMaps(s: Vm, root: nat, g: Region, k: nat, t: Vm)
    requires LowRegion(g) && Tree(t, root) && Enough(t) && k < DIRECT_PAGES && MapsFirst(s, t, g.flags, k)
    ensures var r := MapPage(t, root, g, k); Tree(r, root) && Enough(r) && MapsFirst(s, r, g.flags, k + 1)
  {
    var v := PageAddr(g.base, k);
    PageOfRegion(g.base, k);
    EnoughForOne(t, v);
    MapRefines(t, root, v, PageAddr(0, k), g.flags);
    MapKeepsEnough(t, root, v, PageAddr(0, k), g.flags);
  }

  lemma {:induction false} MapPagesMaps(s: Vm, root: nat, g: Region, n: nat)
    requires LowRegion(g) && Tree(s, root) && Enough(s) && n <= DIRECT_PAGES
    ensures var r := MapPages(s, root, g, n); Tree(r, root) && Enough(r) && MapsFirst(s, r, g.flags, n)
  {
    if n > 0 {
      MapPagesMaps(s, root, g, Prev(n));
      MapPageMaps(s, root, g, Prev(n), MapPages(s, root, g, Prev(n)));
    }
  }

  /** Mapping a region over an earlier mapping of some of its pages leaves no trace of the earlier one. */
  lemma MapOver(t: Vm, root: nat, g: Region, h: Region)
    requires LowRegion(g) && LowRegion(h) && g.pages <= h.pages && Tree(t, root) && Enough(t)
    ensures var r := MapRegion(MapRegion(t, root, g), root, h);
            Tree(r, root) && Enough(r) && MapsFirst(t, r, h.flags, h.pages)
  {
    MapPagesMaps(t, root, g, g.pages);
    MapPagesMaps(MapRegion(t, root, g), root, h, h.pages);
  }

  // ----- vmm_init -----

  ghost predicate CanRoot(s: Vm, f: nat)
  {
    f in Available(s) && s.total <= FRAME_LIMIT && s.tables == map[]
  }

  lemma {:induction false} NewRootIsTree(s: Vm, f: nat)
    requires CanRoot(s, f)
    ensures Tree(NewRoot(s, f), f) && forall u: nat :: Leaf(NewRoot(s, f), u) == 0
  {
    var r := NewRoot(s, f);
    PresentIsOdd(0);
    assert forall i: nat :: i < 512 ==> Linked(r, [], i);
  }

  lemma {:induction false} NewRootGrows(s: Vm, f: nat)
    requires CanRoot(s, f)
    ensures Grown(s, NewRoot(s, f)) && NewRoot(s, f).tables.Keys == {[]}
  {
    var r := NewRoot(s, f);
    assert Available(s) == Available(r) + {f};
    assert r.tables[[]] == f;
    assert r.tables.Values == {f};
  }

  /** The address of physical `a` in the direct map. */
  function Alias(a: nat): (r: nat)
  {
    PHYS_MAP_BASE + a
  }

  ghost predicate MapsBoth(r: Vm, root: nat, a: nat)
  {
    Translate(r, root, a) == a && Translate(r, root, Alias(a)) == a
  }

  /** The first 4GB are mapped both identically and in the direct map. */
  ghost predicate DirectMapped(r: Vm, root: nat)
  {
    && (forall a: nat :: a < 0x1_0000_0000 ==> MapsBoth(r, root, a))
    && forall u: nat :: PageOf(u) < DIRECT_PAGES ==> Present(Leaf(r, u))
  }

  /** The entry that sends a page back to its own number, with flags clear of the address bits. */
  lemma OwnPageTarget(v: nat, flags: nat)
    requires flags / PAGE_SIZE % FRAME_LIMIT == 0 && PageOf(v) < DIRECT_PAGES
    ensures Target(LeafEntry(PageAddr(0, PageOf(v)), flags), v) == PageAddr(0, PageOf(v)) + v % PAGE_SIZE
  {
    OwnEntry(PageOf(v), flags);
  }

  lemma ClearOfAddress(flags: nat)
    requires flags / PAGE_SIZE % FRAME_LIMIT == 0
    ensures AddrOf(flags) == 0
  {
    AddrOfArithmetic(flags);
  }

  lemma OwnEntry(n: nat, flags: nat)
    requires flags / PAGE_SIZE % FRAME_LIMIT == 0 && n < DIRECT_PAGES
    ensures var w := LeafEntry(PageAddr(0, n), flags);
            w % 2 == 1 && w / PAGE_SIZE % FRAME_LIMIT * PAGE_SIZE == PageAddr(0, n)
  {
    var p := PageAddr(0, n);
    var w := LeafEntry(p, flags);
    ClearOfAddress(flags);
    LeafEntryFields(p, flags);
    PresentIsOdd(w);
    AddrOfArithmetic(w);
    OwnAddress(n);
  }

  lemma OwnAddress(n: nat)
    requires n < DIRECT_PAGES
    ensures AddrOf(PageAddr(0, n)) == PageAddr(0, n)
  {
    AddrOfArithmetic(PageAddr(0, n));
  }

  lemma PageOfAlias(a: nat)
    requires a < 0x1_0000_0000
    ensures PageOf(a) == a / PAGE_SIZE < DIRECT_PAGES
    ensures PageOf(Alias(a)) == a / PAGE_SIZE && Alias(a) % PAGE_SIZE == a % PAGE_SIZE
  {
  }

  lemma EntriesMapBoth(r: Vm, root: nat, flags: nat, a: nat)
    requires Tree(r, root) && flags / PAGE_SIZE % FRAME_LIMIT == 0 && a < 0x1_0000_0000
    requires Leaf(r, a) == LeafEntry(PageAddr(0, PageOf(a)), flags)
    requires Leaf(r, Alias(a)) == LeafEntry(PageAddr(0, PageOf(Alias(a))), flags)
    ensures MapsBoth(r, root, a)
  {
    PageOfAlias(a);
    OwnPageTarget(a, flags);
    OwnPageTarget(Alias(a), flags);
    TranslateRefines(r, root, a);
    TranslateRefines(r, root, Alias(a));
  }

  lemma {:induction false} MapsFirstIsDirect(s: Vm, r: Vm, root: nat, flags: nat)
    requires Tree(r, root) && flags / PAGE_SIZE % FRAME_LIMIT == 0 && MapsFirst(s, r, flags, DIRECT_PAGES)
    ensures DirectMapped(r, root)
  {
    forall a: nat | a < 0x1_0000_0000
      ensures MapsBoth(r, root, a)
    {
      PageOfAlias(a);
      EntriesMapBoth(r, root, flags, a);
    }
    forall u: nat | PageOf(u) < DIRECT_PAGES
      ensures Present(Leaf(r, u))
    {
      LeafEntryFields(PageAddr(0, PageOf(u)), flags);
    }
  }

  lemma RootThenRegions(s: Vm, f: nat, g: Region, h: Region)
    requires CanRoot(s, f) && |Available(s)| >= TABLE_COST
    requires LowRegion(g) && LowRegion(h) && g.pages <= h.pages == DIRECT_PAGES
    ensures var r := MapRegion(MapRegion(NewRoot(s, f), f, g), f, h);
            Tree(r, f) && Enough(r) && DirectMapped(r, f) && MapsFirst(NewRoot(s, f), r, h.flags, DIRECT_PAGES)
  {
    NewRootIsTree(s, f);
    NewRootGrows(s, f);
    MapOver(NewRoot(s, f), f, g, h);
    MapsFirstIsDirect(NewRoot(s, f), MapRegion(MapRegion(NewRoot(s, f), f, g), f, h), f, h.flags);
  }

  /** With enough frames, vmm_init maps every page below 4GB to itself with the flags of the direct map, which has
      replaced every entry of the identity map: even the kernel's own pages are left no-execute. */
  lemma KernelTablesLeaves(s: Vm, f: nat)
    requires CanRoot(s, f) && |Available(s)| >= TABLE_COST
    ensures var r := KernelTables(s, f);
            Tree(r, f) && Enough(r) && DirectMapped(r, f) && MapsFirst(NewRoot(s, f), r, DIRECT.flags, DIRECT_PAGES)
  {
    RootThenRegions(s, f, IDENTITY, DIRECT);
  }

  lemma NoExecuteFlag()
    ensures And(DIRECT.flags, NX) == NX
  {
    WordIsPow2();
    assert Pow2(64) == 2 * Pow2(63);
    ShlOfOne(63);
    AndHigh(DIRECT.flags, 1, 63);
    ShrDivides(DIRECT.flags, 63);
    AndStep(1, 1);
  }

  lemma {:induction false} ShlOfOne(k: nat)
    ensures Shl(1, k) == Pow2(k)
  {
    if k > 0 {
      ShlOfOne(k - 1);
    }
  }

  lemma EntryKeepsFlags(phys: nat, flags: nat, bit: nat)
    ensures And(flags, bit) <= And(LeafEntry(phys, flags), bit)
  {
    AndOr(Or(AddrOf(phys), flags), PRESENT, bit);
    AndOr(AddrOf(phys), flags, bit);
  }

  lemma RegionsGrow(s: Vm, f: nat, g: Region, h: Region)
    requires CanRoot(s, f)
    ensures var r := MapRegion(MapRegion(NewRoot(s, f), f, g), f, h); Tree(r, f) && Grown(s, r)
  {
    var t := NewRoot(s, f);
    var i := MapRegion(t, f, g);
    NewRootIsTree(s, f);
    NewRootGrows(s, f);
    MapPagesKeepsTree(t, f, g, g.pages);
    MapPagesKeepsTree(i, f, h, h.pages);
    GrownTransitive(s, t, i);
    GrownTransitive(s, i, MapRegion(i, f, h));
  }

  lemma JoinLow(x: nat, y: nat, low: nat)
    requires low < 4096
    ensures Or(4096 * x, 4096 * y + low) == 4096 * Or(x, y) + low
  {
    assert Pow2(12) == 4096;
    OrAbove(x, y, low, 12);
  }

  lemma JoinTop(n: nat, top: nat, k: nat)
    requires n < Pow2(k) && top % Pow2(k) == 0
    ensures Or(n, top) == n + top
  {
    OrCommutes(n, top);
    OrDisjoint(top, n, k);
  }

  lemma JoinedTop(n: nat)
    requires n < DIRECT_PAGES
    ensures Or(n, 0x8_0000_0000_0000) == n + 0x8_0000_0000_0000
  {
    assert Pow2(10) == 1024;
    Pow2Add(10, 10);
    JoinTop(n, 0x8_0000_0000_0000, 20);
  }

  lemma OddStays(w: nat)
    requires w % 2 == 1
    ensures Or(w, PRESENT) == w
  {
    OrStep(w, PRESENT);
  }

  lemma JoinedWord(n: nat, address: nat, top: nat, flags: nat)
    requires n < DIRECT_PAGES && address == 4096 * n && top == 0x8_0000_0000_0000 && flags == 4096 * top + 0x103
    ensures Or(Or(address, flags), PRESENT) == address + flags
  {
    JoinedTop(n);
    JoinLow(n, top, 0x103);
    OddStays(address + flags);
  }

  /** The word of page `n` of the direct map: its own frame, present, writable, global and no-execute. */
  lemma DirectWord(n: nat)
    requires n < DIRECT_PAGES
    ensures LeafEntry(PageAddr(0, n), DIRECT.flags) == 4096 * n + 0x8000_0000_0000_0103
  {
    OwnAddress(n);
    JoinedWord(n, PageAddr(0, n), 0x8_0000_0000_0000, DIRECT.flags);
  }

  lemma DirectLeaf(s: Vm, r: Vm, u: nat)
    requires MapsFirst(s, r, DIRECT.flags, DIRECT_PAGES) && PageOf(u) < DIRECT_PAGES
    ensures Leaf(r, u) == 4096 * PageOf(u) + 0x8000_0000_0000_0103
  {
    DirectWord(PageOf(u));
  }

  /** With enough frames every page below 4GB holds just that word, under its own address and in the direct map. */
  lemma KernelWords(s: Vm, f: nat, u: nat)
    requires CanRoot(s, f) && |Available(s)| >= TABLE_COST && PageOf(u) < DIRECT_PAGES
    ensures Leaf(KernelTables(s, f), u) == 4096 * PageOf(u) + 0x8000_0000_0000_0103
  {
    KernelTablesLeaves(s, f);
    DirectLeaf(NewRoot(s, f), KernelTables(s, f), u);
  }

  /** Whether or not frames suffice, vmm_init keeps the tree and only takes frames for the tables that it links. */
  lemma KernelTablesGrown(s: Vm, f: nat)
    requires CanRoot(s, f)
    ensures Tree(KernelTables(s, f), f) && Grown(s, KernelTables(s, f))
  {
    RegionsGrow(s, f, IDENTITY, DIRECT);
  }

  // ----- what can be executed -----

  lemma NoneMissing(s: Vm, root: nat, v: nat)
    requires Rooted(s, root) && Path(v) in s.tables
    ensures Missing(s, v, 4) == 0
  {
    PrefixInTree(s, root, Path(v), 1);
    PrefixInTree(s, root, Path(v), 2);
    assert Path(v)[..3] == Path(v);
    MissingCount(s, v);
    assert {Above(v, 3), Above(v, 2), Above(v, 1)} - s.tables.Keys == {};
  }

  /** A present page is always mapped over: its tables are there. */
  lemma PresentIsMapped(s: Vm, root: nat, v: nat, phys: nat, flags: nat)
    requires Tree(s, root) && Present(Leaf(s, v))
    ensures Map(s, root, v, phys, flags).1 == 0
  {
    PresentIsOdd(0);
    NoneMissing(s, root, v);
    MapRefines(s, root, v, phys, flags);
  }

  /** Of the first `n` pages those that are present have `bit` set; all others are as before. */
  ghost predicate Marks(s: Vm, r: Vm, bit: nat, n: nat)
  {
    forall u: nat ::
      if PageOf(u) < n then Present(Leaf(r, u)) ==> And(Leaf(r, u), bit) == bit else Leaf(r, u) == Leaf(s, u)
  }

  lemma MapPageMarks(s: Vm, root: nat, g: Region, k: nat, t: Vm, bit: nat)
    requires (g.base == 0 || g.base == PHYS_MAP_BASE) && k < DIRECT_PAGES
    requires Tree(t, root) && Marks(s, t, bit, k) && And(g.flags, bit) == bit
    ensures var r := MapPage(t, root, g, k); Tree(r, root) && Marks(s, r, bit, k + 1)
  {
    var v := PageAddr(g.base, k);
    var r := MapPage(t, root, g, k);
    PageOfRegion(g.base, k);
    MapRefines(t, root, v, PageAddr(0, k), g.flags);
    EntryKeepsFlags(PageAddr(0, k), g.flags, bit);
    if Present(Leaf(t, v)) {
      PresentIsMapped(t, root, v, PageAddr(0, k), g.flags);
    }
    forall u: nat
      ensures if PageOf(u) < k + 1 then Present(Leaf(r, u)) ==> And(Leaf(r, u), bit) == bit
              else Leaf(r, u) == Leaf(s, u)
    {
      if PageOf(u) == k {
        SameLeafOnPage(t, u, v);
      }
    }
  }

  lemma {:induction false} MapPagesMarks(s: Vm, root: nat, g: Region, n: nat, bit: nat)
    requires (g.base == 0 || g.base == PHYS_MAP_BASE) && n <= DIRECT_PAGES
    requires Tree(s, root) && And(g.flags, bit) == bit
    ensures var r := MapPages(s, root, g, n); Tree(r, root) && Marks(s, r, bit, n)
  {
    if n > 0 {
      MapPagesMarks(s, root, g, Prev(n), bit);
      MapPageMarks(s, root, g, Prev(n), MapPages(s, root, g, Prev(n)), bit);
    }
  }

  lemma RegionsMark(s: Vm, f: nat, g: Region, h: Region, bit: nat)
    requires CanRoot(s, f) && g.base == 0 && h.base == PHYS_MAP_BASE && g.pages <= h.pages == DIRECT_PAGES
    requires And(h.flags, bit) == bit
    ensures var r := MapRegion(MapRegion(NewRoot(s, f), f, g), f, h);
            forall u: nat :: Present(Leaf(r, u)) ==> And(Leaf(r, u), bit) == bit
  {
    var t := NewRoot(s, f);
    var i := MapRegion(t, f, g);
    var r := MapRegion(i, f, h);
    NewRootIsTree(s, f);
    MapPagesMarks(t, f, g, g.pages, 0);
    MapPagesMarks(i, f, h, h.pages, bit);
    PresentIsOdd(0);
    assert forall u: nat :: PageOf(u) >= DIRECT_PAGES ==> Leaf(r, u) == Leaf(i, u) == Leaf(t, u);
  }

  /** After vmm_init no page can be executed, under any address and however few frames there were: the direct map maps
      over every page that the identity map reached. */
  lemma KernelPagesNoExecute(s: Vm, f: nat)
    requires CanRoot(s, f)
    ensures forall u: nat :: Present(Leaf(KernelTables(s, f), u)) ==> And(Leaf(KernelTables(s, f), u), NX) == NX
  {
    NoExecuteFlag();
    RegionsMark(s, f, IDENTITY, DIRECT, NX);
  }

  /** The first page below leaf table `i`. */
  function FirstPage(i: nat): (r: nat)
  {
    i * 512
  }

  lemma LeafTableReached(r: Vm, root: nat, i: nat)
    requires Tree(r, root) && DirectMapped(r, root) && i < 2048
    ensures [0, i / 512, i % 512] in r.tables
  {
    var u := PageAddr(0, FirstPage(i));
    PresentIsOdd(0);
    PageOfRegion(0, FirstPage(i));
    PathOfLowPage(u);
    assert Present(Leaf(r, u));
  }

  lemma DirectoryReached(r: Vm, root: nat, g: nat)
    requires Tree(r, root) && DirectMapped(r, root) && g < 4
    ensures [] in r.tables && [0] in r.tables && [0, g] in r.tables
  {
    var i := FirstPage(g);
    assert i / 512 == g && i % 512 == 0;
    LeafTableReached(r, root, i);
    var p := [0, g, 0];
    PrefixInTree(r, root, p, 1);
    PrefixInTree(r, root, p, 2);
    assert p[..1] == [0] && p[..2] == [0, g];
  }

  /** If every page below 4GB is present then all 2054 tables are there. */
  lemma {:induction false} AllTablesNeeded(r: Vm, root: nat)
    requires Tree(r, root) && DirectMapped(r, root)
    ensures KERNEL_PATHS <= r.tables.Keys && TABLE_COST <= |r.tables|
  {
    forall p | p in KERNEL_PATHS
      ensures p in r.tables
    {
      DirectoryReached(r, root, 0);
      if p in DirectoryPaths(4) {
        DirectoryReached(r, root, p[1]);
      } else if p in LeafTablePaths(2048) {
        var i: nat :| i < 2048 && p == [0, i / 512, i % 512];
        LeafTableReached(r, root, i);
      }
    }
    KernelPathCount();
    SubsetSize(KERNEL_PATHS, r.tables.Keys);
  }

  /** The cost of vmm_init is exactly 2054 frames: with fewer, some page below 4GB is left unmapped; with that many or
      more, everything is mapped and exactly 2054 frames are gone. */
  lemma {:induction false} KernelTablesCost(s: Vm, f: nat)
    requires CanRoot(s, f)
    ensures var r := KernelTables(s, f);
            && (DirectMapped(r, f) <==> |Available(s)| >= TABLE_COST)
            && (DirectMapped(r, f) ==> |r.tables| == TABLE_COST && |Available(r)| == |Available(s)| - TABLE_COST)
  {
    var r := KernelTables(s, f);
    KernelTablesGrown(s, f);
    if DirectMapped(r, f) {
      AllTablesNeeded(r, f);
    }
    if |Available(s)| >= TABLE_COST {
      KernelTablesLeaves(s, f);
      KernelPathCount();
      SubsetSize(r.tables.Keys, KERNEL_PATHS);
    }
  }
}
