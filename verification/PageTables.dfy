/** The four-level page-table walk over raw memory, and the flat page map that it implements.

    Memory is a total map from slots, a frame number and one of its 512 words, to words.  `tables` records which
    frame was linked at which path of table indices, the root at the empty path.  Reading `base + p` through the
    direct physical map is reading physical `p`. */
module PageTables {
  import opened Bits
  import opened Options
  import opened Frames

  const PRESENT: nat := 0x1
  const WRITABLE: nat := 0x2
  const GLOBAL: nat := 0x100
  const SWAPPED: nat := 0x200
  const NX: nat := 0x8000_0000_0000_0000
  const ADDR_MASK: nat := 0x000F_FFFF_FFFF_F000
  const FRAME_LIMIT: nat := 0x100_0000_0000 // frame numbers that fit an entry's address bits
  const PAGE_LIMIT: nat := 0x10_0000_0000 // page numbers, bits 12 to 47 of an address

  datatype Slot = Slot(frame: nat, index: nat)

  type Ram = m: imap<Slot, nat> | forall s: Slot :: s in m ghost witness imap s: Slot | true :: 0

  datatype Vm = Vm(free: set<nat>, total: nat, ram: Ram, tables: map<seq<nat>, nat>)

  datatype Walked = Walked(vm: Vm, slot: Option<Slot>)

  // ----- entries and addresses -----

  predicate Present(w: nat)
  {
    And(w, PRESENT) != 0
  }

  function AddrOf(w: nat): (r: nat)
  {
    And(w, ADDR_MASK)
  }

  function FrameOf(w: nat): (r: nat)
  {
    AddrOf(w) / PAGE_SIZE
  }

  /** The entry that links a table, and that the swap-in step installs. */
  function TableEntry(f: nat): (r: nat)
  {
    Or(Or(f * PAGE_SIZE, PRESENT), WRITABLE)
  }

  /** The index of `v` into a table of level `l`: 4 is the root, 1 holds the leaves. */
  function Index(v: nat, l: nat): (r: nat)
    requires 1 <= l <= 4
  {
    And(Shr(v, match l case 4 => 39 case 3 => 30 case 2 => 21 case _ => 12), 0x1FF)
  }

  /** The path of the leaf table for `v`. */
  function Path(v: nat): (r: seq<nat>)
  {
    [Index(v, 4), Index(v, 3), Index(v, 2)]
  }

  /** The path of the table of level `l` that the walk for `v` passes. */
  function Above(v: nat, l: nat): (r: seq<nat>)
    requires 1 <= l <= 4
  {
    Path(v)[..4 - l]
  }

  function PageOf(v: nat): (r: nat)
  {
    v / PAGE_SIZE % PAGE_LIMIT
  }

  /** The address of page `k` of a region. */
  function PageAddr(base: nat, k: nat): (r: nat)
  {
    base + k * PAGE_SIZE
  }

  lemma PresentIsOdd(w: nat)
    ensures Present(w) <==> w % 2 == 1
  {
    AndStep(w, PRESENT);
  }

  lemma AddrOfArithmetic(w: nat)
    ensures AddrOf(w) == w / PAGE_SIZE % FRAME_LIMIT * PAGE_SIZE
    ensures FrameOf(w) == w / PAGE_SIZE % FRAME_LIMIT
  {
    assert Pow2(12) == PAGE_SIZE && Pow2(20) == 0x10_0000 && Pow2(30) == 0x4000_0000 && Pow2(40) == FRAME_LIMIT;
    assert Shl(FRAME_LIMIT - 1, 12) == ADDR_MASK;
    AndHigh(w, FRAME_LIMIT - 1, 12);
    ShrDivides(w, 12);
    AndLow(w / PAGE_SIZE, 40);
    ShlTwelve(w / PAGE_SIZE % FRAME_LIMIT);
  }

  lemma ShlTwelve(a: nat)
    ensures Shl(a, 12) == a * PAGE_SIZE
  {
  }

  lemma OrThree(x: nat, y: nat)
    requires x == 4 * y
    ensures Or(Or(x, PRESENT), WRITABLE) == x + 3
  {
    var h := 2 * y;
    OrDisjoint(x, 1, 1);
    OrStep(x + 1, 2);
    assert (x + 1) / 2 == h;
    OrDisjoint(h, 1, 1);
  }

  lemma TableEntryValue(f: nat)
    ensures TableEntry(f) == f * PAGE_SIZE + 3
  {
    OrThree(f * PAGE_SIZE, f * 1024);
  }

  lemma SwappedArithmetic(w: nat)
    ensures And(w, SWAPPED) != 0 <==> w / 512 % 2 == 1
  {
    assert Shl(1, 9) == SWAPPED && Pow2(9) == 512;
    AndHigh(w, 1, 9);
    ShrDivides(w, 9);
    AndStep(w / 512, 1);
  }

  lemma TableEntryFields(f: nat)
    requires f < FRAME_LIMIT
    ensures Present(TableEntry(f)) && FrameOf(TableEntry(f)) == f && And(TableEntry(f), SWAPPED) == 0
  {
    TableEntryValue(f);
    PresentIsOdd(TableEntry(f));
    AddrOfArithmetic(TableEntry(f));
    SwappedArithmetic(TableEntry(f));
  }

  lemma IndexArithmetic(v: nat)
    ensures Index(v, 4) == v / 0x80_0000_0000 % 512
    ensures Index(v, 3) == v / 0x4000_0000 % 512
    ensures Index(v, 2) == v / 0x20_0000 % 512
    ensures Index(v, 1) == v / 0x1000 % 512
  {
    assert Pow2(9) == 512 && Pow2(12) == 0x1000 && Pow2(21) == 0x20_0000;
    assert Pow2(30) == 0x4000_0000 && Pow2(39) == 0x80_0000_0000;
    ShrDivides(v, 39);
    ShrDivides(v, 30);
    ShrDivides(v, 21);
    ShrDivides(v, 12);
    AndLow(Shr(v, 39), 9);
    AndLow(Shr(v, 30), 9);
    AndLow(Shr(v, 21), 9);
    AndLow(Shr(v, 12), 9);
  }

  /** The four indices of an address are exactly its bits 12 to 47. */
  lemma IndicesArePage(v: nat)
    ensures PageOf(v) == ((Index(v, 4) * 512 + Index(v, 3)) * 512 + Index(v, 2)) * 512 + Index(v, 1)
  {
    IndexArithmetic(v);
    var n := v / 0x1000;
    assert v / 0x20_0000 == n / 512;
    assert v / 0x4000_0000 == n / 512 / 512;
    assert v / 0x80_0000_0000 == n / 512 / 512 / 512;
    Digits512(n);
  }

  lemma Digits512(n: nat)
    ensures n % PAGE_LIMIT
         == ((n / 512 / 512 / 512 % 512 * 512 + n / 512 / 512 % 512) * 512 + n / 512 % 512) * 512 + n % 512
  {
    var a, b, c, d := n / 512, n / 512 / 512, n / 512 / 512 / 512, n / 512 / 512 / 512 / 512;
    assert n == 512 * a + n % 512 && a == 512 * b + a % 512 && b == 512 * c + b % 512 && c == 512 * d + c % 512;
  }

  lemma IndexBound(v: nat, l: nat)
    requires 1 <= l <= 4
    ensures Index(v, l) < 512
  {
  }

  /** Two addresses share their walk exactly when they are on the same page. */
  lemma SamePage(u: nat, v: nat)
    ensures PageOf(u) == PageOf(v) <==> Path(u) == Path(v) && Index(u, 1) == Index(v, 1)
  {
    IndicesArePage(u);
    IndicesArePage(v);
    var p, q := Path(u), Path(v);
    assert p == q <==> p[0] == q[0] && p[1] == q[1] && p[2] == q[2];
    SameDigits(p[0], p[1], p[2], Index(u, 1), q[0], q[1], q[2], Index(v, 1));
  }

  lemma SameDigits(a: nat, b: nat, c: nat, d: nat, a': nat, b': nat, c': nat, d': nat)
    requires b < 512 && c < 512 && d < 512 && b' < 512 && c' < 512 && d' < 512
    ensures ((a * 512 + b) * 512 + c) * 512 + d == ((a' * 512 + b') * 512 + c') * 512 + d'
       <==> a == a' && b == b' && c == c' && d == d'
  {
  }

  // ----- the walk -----

  ghost function ZeroFrame(ram: Ram, f: nat): (r: Ram)
    ensures forall s: Slot :: r[s] == if s.frame == f && s.index < 512 then 0 else ram[s]
  {
    imap s: Slot | true :: if s.frame == f && s.index < 512 then 0 else ram[s]
  }

  /** Takes frame `f`, clears it, and links it at `slot` as the table at `path`. */
  ghost function Link(s: Vm, slot: Slot, path: seq<nat>, f: nat): (r: Vm)
  {
    Vm(s.free - {f}, s.total, ZeroFrame(s.ram, f)[slot := TableEntry(f)], s.tables[path := f])
  }

  /** The walk from `table`, of level `l`, to the leaf slot for `v`; it allocates missing tables if `create` is set. */
  ghost function Walk(s: Vm, table: nat, v: nat, l: nat, create: bool): (r: Walked)
    requires 1 <= l <= 4
    decreases l, v
  {
    var slot := Slot(table, Index(v, l));
    if l == 1 then Walked(s, Some(slot))
    else if Present(s.ram[slot]) then Walk(s, FrameOf(s.ram[slot]), v, Prev(l), create)
    else if !create then Walked(s, None)
    else match FirstFree(s.free, LOW_PAGES, s.total)
      case None => Walked(s, None)
      case Some(f) =>
        var s' := Link(s, slot, Above(v, Prev(l)), f);
        Walk(s', FrameOf(s'.ram[slot]), v, Prev(l), create)
  }

  ghost function LeafEntry(phys: nat, flags: nat): (r: nat)
  {
    Or(Or(And(phys, ADDR_MASK), flags), PRESENT)
  }

  /** Mapping a page; the second component is the C function's result. */
  ghost function Map(s: Vm, root: nat, v: nat, phys: nat, flags: nat): (r: (Vm, int))
  {
    var w := Walk(s, root, v, 4, true);
    match w.slot
    case None => (w.vm, -1)
    case Some(slot) => (w.vm.(ram := w.vm.ram[slot := LeafEntry(phys, flags)]), 0)
  }

  ghost function Unmap(s: Vm, root: nat, v: nat): (r: Vm)
  {
    match Walk(s, root, v, 4, false).slot
    case None => s
    case Some(slot) => if Present(s.ram[slot]) then s.(ram := s.ram[slot := 0]) else s
  }

  ghost function Translate(s: Vm, root: nat, v: nat): (r: nat)
  {
    match Walk(s, root, v, 4, false).slot
    case None => 0
    case Some(slot) => if Present(s.ram[slot]) then Or(AddrOf(s.ram[slot]), And(v, 0xFFF)) else 0
  }

  /** How the page-fault handler ends: the first and third outcomes halt or only log. */
  datatype Fault = NoEntry | Unexpected | NoFrame | SwappedIn(frame: nat)

  ghost function PageFault(s: Vm, root: nat, v: nat): (r: (Vm, Fault))
  {
    match Walk(s, root, v, 4, false).slot
    case None => (s, NoEntry)
    case Some(slot) =>
      if And(s.ram[slot], SWAPPED) == 0 then (s, Unexpected)
      else match FirstFree(s.free, LOW_PAGES, s.total)
        case None => (s, NoFrame)
        case Some(f) => (s.(free := s.free - {f}, ram := s.ram[slot := TableEntry(f)]), SwappedIn(f))
  }

  // ----- the table tree -----

  ghost predicate ShortPath(p: seq<nat>)
  {
    |p| <= 3 && forall k :: 0 <= k < |p| ==> p[k] < 512
  }

  ghost predicate NoSharing(tables: map<seq<nat>, nat>)
  {
    forall p, q :: p in tables && q in tables && tables[p] == tables[q] ==> p == q
  }

  /** Slot `i` of the table at `p` holds a present entry exactly if there is a table below; the entry points to it, and
      is writable besides, with no other bit set. */
  ghost predicate Linked(s: Vm, p: seq<nat>, i: nat)
    requires p in s.tables
  {
    var w := s.ram[Slot(s.tables[p], i)];
    && (Present(w) <==> p + [i] in s.tables)
    && (Present(w) ==> FrameOf(w) == s.tables[p + [i]] && w == 4096 * s.tables[p + [i]] + 3)
  }

  ghost predicate Rooted(s: Vm, root: nat)
  {
    && [] in s.tables && s.tables[[]] == root
    && (forall p :: p in s.tables ==> ShortPath(p))
    && forall p, i: nat :: p + [i] in s.tables ==> p in s.tables
  }

  ghost predicate Owned(s: Vm)
  {
    forall p :: p in s.tables ==> s.tables[p] !in s.free && s.tables[p] < FRAME_LIMIT
  }

  ghost predicate AllLinked(s: Vm)
  {
    forall p, i: nat :: p in s.tables && |p| < 3 && i < 512 ==> Linked(s, p, i)
  }

  /** The tree invariant: present non-leaf entries point to table frames one level down, no two slots share a child,
      and table frames are never free. */
  ghost predicate Tree(s: Vm, root: nat)
  {
    Rooted(s, root) && NoSharing(s.tables) && Owned(s) && AllLinked(s) && s.total <= FRAME_LIMIT
  }

  /** What the tree says of address `v`: its leaf word, or 0 where there is no leaf table. */
  ghost function Leaf(s: Vm, v: nat): (r: nat)
  {
    if Path(v) in s.tables then s.ram[Slot(s.tables[Path(v)], Index(v, 1))] else 0
  }

  lemma {:induction false} PrefixInTree(s: Vm, root: nat, p: seq<nat>, k: nat)
    requires Rooted(s, root) && p in s.tables && k <= |p|
    ensures p[..k] in s.tables
    decreases |p| - k
  {
    if k < |p| {
      PrefixInTree(s, root, p, k + 1);
      assert p[..k + 1] == p[..k] + [p[k]];
    } else {
      assert p[..k] == p;
    }
  }

  lemma PathStep(v: nat, l: nat)
    requires 2 <= l <= 4
    ensures Above(v, l) + [Index(v, l)] == Above(v, Prev(l))
  {
  }

  /** Without `create` the walk ends at the leaf slot if there is a leaf table for `v`, and nowhere otherwise. */
  lemma {:induction false} WalkFollows(s: Vm, root: nat, v: nat, l: nat)
    requires Tree(s, root) && 1 <= l <= 4 && Above(v, l) in s.tables
    ensures Walk(s, s.tables[Above(v, l)], v, l, false)
         == Walked(s, if Path(v) in s.tables then Some(Slot(s.tables[Path(v)], Index(v, 1))) else None)
    decreases l
  {
    if l == 1 {
      assert Path(v)[..3] == Path(v);
    } else {
      PathStep(v, l);
      assert Linked(s, Above(v, l), Index(v, l));
      if Above(v, Prev(l)) in s.tables {
        WalkFollows(s, root, v, Prev(l));
      } else if Path(v) in s.tables {
        PrefixInTree(s, root, Path(v), 5 - l);
      }
    }
  }

  // ----- growing the tree -----

  /** A new table may be linked at path q + [i]. */
  ghost predicate CanLink(s: Vm, root: nat, q: seq<nat>, i: nat, f: nat)
  {
    && Tree(s, root) && q in s.tables && |q| < 3 && i < 512 && q + [i] !in s.tables
    && f in s.free && f < FRAME_LIMIT
  }

  ghost function LinkAt(s: Vm, q: seq<nat>, i: nat, f: nat): (r: Vm)
    requires q in s.tables
  {
    Link(s, Slot(s.tables[q], i), q + [i], f)
  }

  lemma {:induction false} LinkKeepsRooted(s: Vm, root: nat, q: seq<nat>, i: nat, f: nat)
    requires CanLink(s, root, q, i, f)
    ensures var r := LinkAt(s, q, i, f); Rooted(r, root) && NoSharing(r.tables) && Owned(r)
  {
    var r := LinkAt(s, q, i, f);
    forall p, j: nat | p + [j] in r.tables
      ensures p in r.tables
    {
      assert p + [j] == q + [i] ==> p == (q + [i])[..|p|];
    }
  }

  lemma {:induction false} LinkKeepsLinked(s: Vm, root: nat, q: seq<nat>, i: nat, f: nat, p: seq<nat>, j: nat)
    requires CanLink(s, root, q, i, f)
    requires p in LinkAt(s, q, i, f).tables && |p| < 3 && j < 512
    ensures Linked(LinkAt(s, q, i, f), p, j)
  {
    var r := LinkAt(s, q, i, f);
    if p == q + [i] {
      assert Rooted(s, root);
      PresentIsOdd(0);
    } else {
      assert Linked(s, p, j);
      assert p + [j] == q + [i] ==> p == (q + [i])[..|p|] && j == (q + [i])[|p|];
      if p == q && j == i {
        TableEntryFields(f);
        TableEntryValue(f);
      } else {
        assert Slot(s.tables[p], j) != Slot(s.tables[q], i);
      }
    }
  }

  lemma {:induction false} LinkKeepsTree(s: Vm, root: nat, q: seq<nat>, i: nat, f: nat)
    requires CanLink(s, root, q, i, f)
    ensures Tree(LinkAt(s, q, i, f), root)
  {
    LinkKeepsRooted(s, root, q, i, f);
    forall p, j: nat | p in LinkAt(s, q, i, f).tables && |p| < 3 && j < 512
      ensures Linked(LinkAt(s, q, i, f), p, j)
    {
      LinkKeepsLinked(s, root, q, i, f, p, j);
    }
  }

  /** A cleared new table changes no leaf. */
  lemma {:induction false} LinkKeepsLeaf(s: Vm, root: nat, q: seq<nat>, i: nat, f: nat, u: nat)
    requires CanLink(s, root, q, i, f)
    ensures Leaf(LinkAt(s, q, i, f), u) == Leaf(s, u)
  {
    IndexBound(u, 1);
    assert Path(u) in s.tables ==> s.tables[Path(u)] != f && (s.tables[Path(u)] == s.tables[q] ==> Path(u) == q);
  }

  // ----- the creating walk -----

  /** Frames that the allocator's scan can still find. */
  ghost function Available(s: Vm): (r: set<nat>)
  {
    set f | f in s.free && LOW_PAGES <= f < s.total
  }

  ghost predicate SameLeaves(s: Vm, r: Vm)
  {
    forall u: nat :: Leaf(r, u) == Leaf(s, u)
  }

  /** `r` has more tables than `s`: their frames come out of the free set, and nothing else has changed. */
  ghost predicate Grown(s: Vm, r: Vm)
  {
    && r.total == s.total
    && (forall p :: p in s.tables ==> p in r.tables && r.tables[p] == s.tables[p])
    && r.free <= s.free
    && r.free + r.tables.Values == s.free + s.tables.Values
    && |Available(r)| + |r.tables| == |Available(s)| + |s.tables|
    && forall slot: Slot :: slot.frame !in r.tables.Values ==> r.ram[slot] == s.ram[slot]
  }

  lemma {:induction false} LinkGrows(s: Vm, root: nat, q: seq<nat>, i: nat, f: nat)
    requires CanLink(s, root, q, i, f) && LOW_PAGES <= f < s.total
    ensures Grown(s, LinkAt(s, q, i, f))
  {
    var r := LinkAt(s, q, i, f);
    assert Available(s) == Available(r) + {f};
    assert r.tables.Values == s.tables.Values + {f} by {
      assert q + [i] in r.tables;
      forall x | x in s.tables.Values ensures x in r.tables.Values {
        var p :| p in s.tables && s.tables[p] == x;
        assert p in r.tables && r.tables[p] == x;
      }
    }
    assert s.tables[q] in r.tables.Values by { assert q in r.tables; }
  }

  lemma TablesOnlyAdded(a: Vm, b: Vm)
    requires Grown(a, b)
    ensures a.tables.Values <= b.tables.Values
  {
    forall x | x in a.tables.Values
      ensures x in b.tables.Values
    {
      var p :| p in a.tables && a.tables[p] == x;
      assert p in b.tables && b.tables[p] == x;
    }
  }

  lemma GrownTransitive(a: Vm, b: Vm, c: Vm)
    requires Grown(a, b) && Grown(b, c)
    ensures Grown(a, c)
  {
    TablesOnlyAdded(b, c);
  }

  /** The walk lacks `Missing` tables below level l. */
  ghost function Missing(s: Vm, v: nat, l: nat): (r: nat)
    requires 1 <= l <= 4
    decreases l, v
  {
    if l == 1 then 0 else (if Above(v, Prev(l)) in s.tables then 0 else 1) + Missing(s, v, Prev(l))
  }

  lemma NoTableBelow(s: Vm, root: nat, p: seq<nat>, k: nat)
    requires Rooted(s, root) && k <= |p| && p[..k] !in s.tables
    ensures p !in s.tables
  {
    if p in s.tables {
      PrefixInTree(s, root, p, k);
    }
  }

  lemma {:induction false} MissingAll(s: Vm, root: nat, v: nat, l: nat)
    requires Rooted(s, root) && 2 <= l <= 4 && Above(v, Prev(l)) !in s.tables
    ensures Missing(s, v, l) == l - 1
    decreases l
  {
    if l > 2 {
      assert Above(v, Prev(Prev(l)))[..5 - l] == Above(v, Prev(l));
      NoTableBelow(s, root, Above(v, Prev(Prev(l))), 5 - l);
      MissingAll(s, root, v, Prev(l));
    }
  }

  /** One step of a creating walk: what linking the missing table below level l does. */
  lemma {:induction false} LinkOnWalk(s: Vm, root: nat, v: nat, l: nat, f: nat)
    requires Tree(s, root) && 2 <= l <= 4 && Above(v, l) in s.tables && Above(v, Prev(l)) !in s.tables
    requires FirstFree(s.free, LOW_PAGES, s.total) == Some(f)
    ensures var q := Above(v, l);
            var r := LinkAt(s, q, Index(v, l), f);
            && Tree(r, root) && Grown(s, r) && SameLeaves(s, r)
            && Above(v, Prev(l)) in r.tables && r.tables[Above(v, Prev(l))] == f
            && Walk(s, s.tables[q], v, l, true) == Walk(r, f, v, Prev(l), true)
  {
    var q, i := Above(v, l), Index(v, l);
    PathStep(v, l);
    var r := LinkAt(s, q, i, f);
    LinkKeepsTree(s, root, q, i, f);
    LinkGrows(s, root, q, i, f);
    forall u: nat
      ensures Leaf(r, u) == Leaf(s, u)
    {
      LinkKeepsLeaf(s, root, q, i, f, u);
    }
    TableEntryFields(f);
    assert Linked(s, q, i);
  }

  lemma {:induction false} LinkLeavesOneLess(s: Vm, root: nat, v: nat, l: nat, f: nat)
    requires Rooted(s, root) && 2 <= l <= 4 && Above(v, l) in s.tables && Above(v, Prev(l)) !in s.tables
    requires Rooted(LinkAt(s, Above(v, l), Index(v, l), f), root)
    ensures Missing(s, v, l) == Missing(LinkAt(s, Above(v, l), Index(v, l), f), v, Prev(l)) + 1
  {
    MissingAll(s, root, v, l);
    if l > 2 {
      PathStep(v, l);
      assert Above(v, Prev(Prev(l)))[..5 - l] == Above(v, Prev(l));
      NoTableBelow(s, root, Above(v, Prev(Prev(l))), 5 - l);
      MissingAll(LinkAt(s, Above(v, l), Index(v, l), f), root, v, Prev(l));
    }
  }

  /** The creating walk keeps the tree and every leaf.  It reaches the leaf slot of `v` exactly if the allocator still
      has a frame for each missing table. */
  lemma {:induction false} WalkCreates(s: Vm, root: nat, v: nat, l: nat)
    requires Tree(s, root) && 1 <= l <= 4 && Above(v, l) in s.tables
    ensures var w := Walk(s, s.tables[Above(v, l)], v, l, true);
            && Tree(w.vm, root) && Grown(s, w.vm) && SameLeaves(s, w.vm)
            && (w.slot.Some? <==> Missing(s, v, l) <= |Available(s)|)
            && (w.slot.Some? ==> Path(v) in w.vm.tables && w.slot == Some(Slot(w.vm.tables[Path(v)], Index(v, 1))))
    decreases l
  {
    if l == 1 {
      assert Path(v)[..3] == Path(v);
    } else {
      var q, i := Above(v, l), Index(v, l);
      PathStep(v, l);
      assert Linked(s, q, i);
      if q + [i] in s.tables {
        WalkCreates(s, root, v, Prev(l));
      } else {
        match FirstFree(s.free, LOW_PAGES, s.total)
        case None =>
          MissingAll(s, root, v, l);
          assert Available(s) == {};
        case Some(f) =>
          var r := LinkAt(s, q, i, f);
          LinkOnWalk(s, root, v, l, f);
          LinkLeavesOneLess(s, root, v, l, f);
          WalkCreates(r, root, v, Prev(l));
          GrownTransitive(s, r, Walk(r, f, v, Prev(l), true).vm);
      }
    }
  }

  // ----- entries -----

  lemma {:induction false} AndTwice(a: nat, m: nat)
    ensures And(And(a, m), m) == And(a, m)
    decreases a
  {
    if a != 0 {
      AndStep(a, m);
      AndStep(And(a, m), m);
      AndTwice(a / 2, m / 2);
    }
  }

  /** A leaf entry is present, and its address is the requested frame joined with the address bits of the flags; so
      it is the requested frame for every request exactly if the flags keep clear of the address bits. */
  lemma LeafEntryFields(phys: nat, flags: nat)
    ensures Present(LeafEntry(phys, flags))
    ensures AddrOf(LeafEntry(phys, flags)) == Or(AddrOf(phys), AddrOf(flags))
    ensures AddrOf(flags) == 0 ==> AddrOf(LeafEntry(phys, flags)) == AddrOf(phys)
  {
    var a := Or(AddrOf(phys), flags);
    OrParity(a, PRESENT);
    PresentIsOdd(Or(a, PRESENT));
    AndOr(a, PRESENT, ADDR_MASK);
    AndOr(AddrOf(phys), flags, ADDR_MASK);
    AndTwice(phys, ADDR_MASK);
    AddrOfArithmetic(PRESENT);
  }

  lemma FlagsMustAvoidAddress(flags: nat)
    ensures AddrOf(flags) == 0 <==> forall phys: nat :: AddrOf(LeafEntry(phys, flags)) == AddrOf(phys)
  {
    if AddrOf(flags) == 0 {
      forall phys: nat
        ensures AddrOf(LeafEntry(phys, flags)) == AddrOf(phys)
      {
        LeafEntryFields(phys, flags);
      }
    } else {
      LeafEntryFields(0, flags);
      assert AddrOf(LeafEntry(0, flags)) != AddrOf(0);
    }
  }

  lemma AddressMask()
    ensures ADDR_MASK == Mask(12, 52)
  {
    assert Pow2(12) == 0x1000 && Pow2(26) == 0x400_0000;
    Pow2Add(26, 26);
  }

  /** Every bit of a leaf entry: present, the flags as given, and the frame's bits in the address; nothing else. */
  lemma LeafEntryBits(phys: nat, flags: nat, k: nat)
    ensures Bit(LeafEntry(phys, flags), k) <==> k == 0 || Bit(flags, k) || (12 <= k < 52 && Bit(phys, k))
  {
    BitOfOr(Or(AddrOf(phys), flags), PRESENT, k);
    BitOfOr(AddrOf(phys), flags, k);
    BitOfAnd(phys, ADDR_MASK, k);
    AddressMask();
    BitOfMask(12, 52, k);
    BitOfMask(0, 1, k);
    assert Mask(0, 1) == PRESENT;
  }

  // ----- the operations on the flat map -----

  ghost function WriteLeaf(s: Vm, v: nat, w: nat): (r: Vm)
    requires Path(v) in s.tables
  {
    s.(ram := s.ram[Slot(s.tables[Path(v)], Index(v, 1)) := w])
  }

  /** The leaf word is `w` all over the page of `v`, and as before everywhere else. */
  ghost predicate OnlyPage(s: Vm, r: Vm, v: nat, w: nat)
  {
    forall u: nat :: Leaf(r, u) == if PageOf(u) == PageOf(v) then w else Leaf(s, u)
  }

  /** Writing a leaf changes the leaf of exactly one page. */
  lemma {:induction false} WriteLeafLocal(s: Vm, root: nat, v: nat, w: nat)
    requires Tree(s, root) && Path(v) in s.tables
    ensures Tree(WriteLeaf(s, v, w), root)
    ensures OnlyPage(s, WriteLeaf(s, v, w), v, w)
  {
    var r := WriteLeaf(s, v, w);
    forall p, i: nat | p in r.tables && |p| < 3 && i < 512
      ensures Linked(r, p, i)
    {
      assert Linked(s, p, i);
      assert s.tables[p] != s.tables[Path(v)];
    }
    forall u: nat
      ensures Leaf(r, u) == if PageOf(u) == PageOf(v) then w else Leaf(s, u)
    {
      SamePage(u, v);
    }
  }

  lemma WriteLeafGrows(s: Vm, v: nat, w: nat)
    requires Path(v) in s.tables
    ensures Grown(s, WriteLeaf(s, v, w))
  {
    assert s.tables[Path(v)] in s.tables.Values;
  }

  /** Mapping either succeeds, and then changes exactly the page of `v`, or runs out of frames, and then changes no
      page at all, whatever tables it has linked by then.  It succeeds exactly if every missing table gets a frame. */
  lemma {:induction false} MapRefines(s: Vm, root: nat, v: nat, phys: nat, flags: nat)
    requires Tree(s, root)
    ensures var (r, result) := Map(s, root, v, phys, flags);
            && Tree(r, root) && Grown(s, r)
            && result == (if Missing(s, v, 4) <= |Available(s)| then 0 else -1)
            && (if result == 0 then OnlyPage(s, r, v, LeafEntry(phys, flags)) else SameLeaves(s, r))
  {
    assert Path(v)[..0] == [];
    WalkCreates(s, root, v, 4);
    var w := Walk(s, root, v, 4, true);
    if w.slot.Some? {
      WriteLeafLocal(w.vm, root, v, LeafEntry(phys, flags));
      WriteLeafGrows(w.vm, v, LeafEntry(phys, flags));
      GrownTransitive(s, w.vm, WriteLeaf(w.vm, v, LeafEntry(phys, flags)));
    }
  }

  /** What a successful vmm_map leaves in the entry, bit by bit. */
  lemma MappedBits(s: Vm, root: nat, v: nat, phys: nat, flags: nat, k: nat)
    requires Tree(s, root) && Map(s, root, v, phys, flags).1 == 0
    ensures var w := Leaf(Map(s, root, v, phys, flags).0, v);
            w / Pow2(k) % 2 == 1 <==>
            k == 0 || flags / Pow2(k) % 2 == 1 || (12 <= k < 52 && phys / Pow2(k) % 2 == 1)
  {
    MapRefines(s, root, v, phys, flags);
    LeafEntryBits(phys, flags, k);
  }

  lemma WalkFromRoot(s: Vm, root: nat, v: nat)
    requires Tree(s, root)
    ensures Walk(s, root, v, 4, false)
         == Walked(s, if Path(v) in s.tables then Some(Slot(s.tables[Path(v)], Index(v, 1))) else None)
  {
    assert Path(v)[..0] == [];
    WalkFollows(s, root, v, 4);
  }

  /** Unmapping clears the page of `v` if it is present, and otherwise does nothing. */
  lemma {:induction false} UnmapRefines(s: Vm, root: nat, v: nat)
    requires Tree(s, root)
    ensures var r := Unmap(s, root, v);
            && Tree(r, root) && Grown(s, r)
            && (if Present(Leaf(s, v)) then OnlyPage(s, r, v, 0) else r == s)
  {
    WalkFromRoot(s, root, v);
    if Path(v) in s.tables {
      WriteLeafLocal(s, root, v, 0);
      WriteLeafGrows(s, v, 0);
    }
    PresentIsOdd(0);
  }

  /** The address that word `w` gives for `v`. */
  function Target(w: nat, v: nat): (r: nat)
  {
    if w % 2 == 1 then w / PAGE_SIZE % FRAME_LIMIT * PAGE_SIZE + v % PAGE_SIZE else 0
  }

  lemma {:induction false} TranslateRefines(s: Vm, root: nat, v: nat)
    requires Tree(s, root)
    ensures Translate(s, root, v) == Target(Leaf(s, v), v)
  {
    WalkFromRoot(s, root, v);
    var w := Leaf(s, v);
    PresentIsOdd(w);
    AddrOfArithmetic(w);
    assert Pow2(12) == PAGE_SIZE;
    AndLow(v, 12);
    OrDisjoint(AddrOf(w), v % PAGE_SIZE, 12);
  }

  lemma TakeKeepsTree(s: Vm, root: nat, f: nat)
    requires Tree(s, root)
    ensures Tree(s.(free := s.free - {f}), root)
    ensures SameLeaves(s, s.(free := s.free - {f}))
  {
    var r := s.(free := s.free - {f});
    forall p, i: nat | p in r.tables && |p| < 3 && i < 512
      ensures Linked(r, p, i)
    {
      assert Linked(s, p, i);
    }
  }

  /** The swap-in step: it replaces exactly the swapped entry of the faulting page by a present one that is backed by
      a frame that was free, and does nothing in every other case. */
  lemma {:induction false} PageFaultRefines(s: Vm, root: nat, v: nat)
    requires Tree(s, root)
    ensures var (r, fault) := PageFault(s, root, v);
            && Tree(r, root)
            && (!fault.SwappedIn? ==> r == s)
            && (fault.SwappedIn? <==> And(Leaf(s, v), SWAPPED) != 0 && Available(s) != {})
            && (fault.SwappedIn? ==>
                  var f := fault.frame;
                  && f in Available(s) && r.free == s.free - {f} && r.tables == s.tables && r.total == s.total
                  && TableEntry(f) == 4096 * f + 3
                  && Present(TableEntry(f)) && FrameOf(TableEntry(f)) == f && And(TableEntry(f), SWAPPED) == 0
                  && (forall slot: Slot :: slot.frame !in s.tables.Values ==> r.ram[slot] == s.ram[slot])
                  && OnlyPage(s, r, v, TableEntry(f)))
  {
    WalkFromRoot(s, root, v);
    if Path(v) in s.tables {
      match FirstFree(s.free, LOW_PAGES, s.total)
      case None =>
        assert Available(s) == {};
      case Some(f) =>
        TableEntryFields(f);
        TableEntryValue(f);
        assert f in Available(s);
        assert s.tables[Path(v)] in s.tables.Values;
        var r := s.(free := s.free - {f});
        TakeKeepsTree(s, root, f);
        WriteLeafLocal(r, root, v, TableEntry(f));
    } else {
      SwappedArithmetic(0);
    }
  }

  /** How a page fault ends: no leaf table; an entry whose bit 9 is clear; no frame left; or a swap-in with the least
      frame that is available. */
  lemma {:induction false} PageFaultEnds(s: Vm, root: nat, v: nat)
    requires Tree(s, root)
    ensures match PageFault(s, root, v).1
            case NoEntry => Path(v) !in s.tables
            case Unexpected => Path(v) in s.tables && Leaf(s, v) / 512 % 2 == 0
            case NoFrame =>
              && Path(v) in s.tables && Leaf(s, v) / 512 % 2 == 1
              && forall g :: g in s.free ==> g < 512 || s.total <= g
            case SwappedIn(f) =>
              && Path(v) in s.tables && Leaf(s, v) / 512 % 2 == 1
              && f in s.free && 512 <= f < s.total
              && forall g :: g in s.free ==> g < 512 || s.total <= g || f <= g
  {
    WalkFromRoot(s, root, v);
    SwappedArithmetic(Leaf(s, v));
  }

  /** A page mapped with bit 9 of its flags clear is never taken for a swapped one. */
  lemma MappedNeverSwapsIn(s: Vm, root: nat, v: nat, phys: nat, flags: nat)
    requires Tree(s, root) && Map(s, root, v, phys, flags).1 == 0 && flags / 512 % 2 == 0
    ensures PageFault(Map(s, root, v, phys, flags).0, root, v).1 == Unexpected
  {
    var t := Map(s, root, v, phys, flags).0;
    MapRefines(s, root, v, phys, flags);
    assert Pow2(9) == 512;
    MappedBits(s, root, v, phys, flags, 9);
    PresentIsOdd(0);
    LeafEntryFields(phys, flags);
    PageFaultEnds(t, root, v);
  }

  /** A walk for `v` only ever adds tables on the path of `v`. */
  lemma {:induction false} WalkAddsOnPath(s: Vm, table: nat, v: nat, l: nat, create: bool, p: seq<nat>)
    requires 1 <= l <= 4 && p in Walk(s, table, v, l, create).vm.tables && p !in s.tables
    ensures p == Above(v, 3) || p == Above(v, 2) || p == Above(v, 1)
    decreases l
  {
    var slot := Slot(table, Index(v, l));
    if l > 1 {
      if Present(s.ram[slot]) {
        WalkAddsOnPath(s, FrameOf(s.ram[slot]), v, Prev(l), create, p);
      } else if create && FirstFree(s.free, LOW_PAGES, s.total).Some? {
        var s' := Link(s, slot, Above(v, Prev(l)), FirstFree(s.free, LOW_PAGES, s.total).value);
        if p !in s'.tables {
          WalkAddsOnPath(s', FrameOf(s'.ram[slot]), v, Prev(l), create, p);
        }
      }
    }
  }

  /** The missing tables of a walk, as a set of paths. */
  lemma {:induction false} MissingCount(s: Vm, v: nat)
    ensures Missing(s, v, 4) == |{Above(v, 3), Above(v, 2), Above(v, 1)} - s.tables.Keys|
  {
    DistinctMissing(s.tables.Keys, Above(v, 3), Above(v, 2), Above(v, 1));
    assert Missing(s, v, 2) == if Above(v, 1) in s.tables then 0 else 1;
    assert Missing(s, v, 3) == (if Above(v, 2) in s.tables then 0 else 1) + Missing(s, v, 2);
  }

  lemma DistinctMissing<T>(have: set<T>, a: T, b: T, c: T)
    requires a != b && b != c && a != c
    ensures |{a, b, c} - have|
         == (if a in have then 0 else 1) + (if b in have then 0 else 1) + if c in have then 0 else 1
  {
    OneMissing(have, a);
    OneMissing(have, b);
    OneMissing(have, c);
    var A, B, C := {a} - have, {b} - have, {c} - have;
    UnionSize(B, C);
    UnionSize(A, B + C);
    assert {a, b, c} - have == A + (B + C);
  }

  lemma UnionSize<T>(a: set<T>, b: set<T>)
    requires a !! b
    ensures |a + b| == |a| + |b|
  {
  }

  lemma OneMissing<T>(have: set<T>, a: T)
    ensures |{a} - have| == if a in have then 0 else 1
  {
    assert {a} - have == if a in have then {} else {a};
  }

  // ----- swapped pages -----

  ghost predicate SwappedOut(s: Vm, n: nat)
  {
    And(Leaf(s, PageAddr(0, n)), SWAPPED) != 0
  }

  /** The pages whose entries are marked as swapped out. */
  ghost function SwappedPages(s: Vm): (r: set<nat>)
  {
    set n: nat | n < PAGE_LIMIT && SwappedOut(s, n)
  }

  lemma PageOfPageAddr(n: nat)
    requires n < PAGE_LIMIT
    ensures PageOf(PageAddr(0, n)) == n
  {
  }

  /** A swap-in takes exactly the faulting page off the swapped pages. */
  lemma {:induction false} SwapInBalance(s: Vm, root: nat, v: nat)
    requires Tree(s, root) && PageFault(s, root, v).1.SwappedIn?
    ensures var r := PageFault(s, root, v).0;
            && PageOf(v) in SwappedPages(s)
            && SwappedPages(r) == SwappedPages(s) - {PageOf(v)}
            && |SwappedPages(r)| == |SwappedPages(s)| - 1
  {
    var r := PageFault(s, root, v).0;
    PageFaultRefines(s, root, v);
    SameLeafOnPage(s, v, PageAddr(0, PageOf(v)));
    PageOfPageAddr(PageOf(v));
    forall n: nat | n < PAGE_LIMIT
      ensures SwappedOut(r, n) <==> SwappedOut(s, n) && n != PageOf(v)
    {
      PageOfPageAddr(n);
    }
  }

  lemma SameLeafOnPage(s: Vm, u: nat, v: nat)
    ensures PageOf(u) == PageOf(v) ==> Leaf(s, u) == Leaf(s, v)
  {
    SamePage(u, v);
  }
}
