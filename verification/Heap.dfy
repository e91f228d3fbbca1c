/** The bump heap: a pointer that moves up through 16MB and never comes back.

    Addresses are 64-bit words, so a request near the top of the address space can wrap; the lemmas say exactly when
    a returned block really is inside the heap. */
module Heap {
  import opened Bits
  import opened Options

  const HEAP_SIZE: nat := 0x100_0000

  datatype Heap = Heap(ptr: u64, end: u64)

  /** Rounding up to 16 bytes, on words. */
  function RoundUp(size: u64): (r: u64)
  {
    And(Wrap(size + 15), WORD - 16)
  }

  function Kmalloc(h: Heap, size: u64): (r: (Heap, Option<u64>))
  {
    var next := Wrap(h.ptr + RoundUp(size));
    if next > h.end then (h, None) else (h.(ptr := next), Some(h.ptr))
  }

  /** Rounding the pointer up; `align` is meant to be a power of two, and 0 makes the mask empty. */
  function AlignPtr(ptr: u64, align: u64): (r: u64)
  {
    And(Wrap(ptr + align - 1), WORD - 1 - Wrap(align - 1))
  }

  /** The pointer moves even when the request then fails. */
  function KmallocAligned(h: Heap, size: u64, align: u64): (r: (Heap, Option<u64>))
  {
    Kmalloc(h.(ptr := AlignPtr(h.ptr, align)), size)
  }

  // ----- rounding -----

  lemma {:induction false} ComplementSplits(x: nat, m: nat, k: nat)
    requires x < Pow2(k) && m < Pow2(k)
    ensures And(x, m) + And(x, Pow2(k) - 1 - m) == x
    decreases k
  {
    if k > 0 {
      var c := Pow2(k) - 1 - m;
      AndStep(x, m);
      AndStep(x, c);
      ComplementSplits(x / 2, m / 2, k - 1);
      assert c / 2 == Pow2(k - 1) - 1 - m / 2;
    }
  }

  /** A word is the sum of what a mask and its complement keep of it. */
  lemma MaskSplits(x: u64, m: u64)
    ensures And(x, m) + And(x, WORD - 1 - m) == x
  {
    WordIsPow2();
    ComplementSplits(x, m, 64);
  }

  lemma RoundUpArithmetic(size: u64)
    requires size + 15 < WORD
    ensures size <= RoundUp(size) < size + 16 && RoundUp(size) % 16 == 0
  {
    var x: u64 := size + 15;
    WrapOfWord(x);
    RoundDown(x);
  }

  lemma RoundDown(x: u64)
    ensures x - 15 <= And(x, WORD - 16) <= x && And(x, WORD - 16) % 16 == 0
  {
    MaskSplits(x, 15);
    LowFour(x);
    RemainderOff(x, 16);
  }

  lemma LowFour(x: nat)
    ensures And(x, 15) == x % 16
  {
    assert Pow2(4) == 16;
    AndLow(x, 4);
  }

  lemma AlignPtrValue(ptr: u64, align: u64, x: u64, m: u64)
    requires align >= 1 && x == ptr + align - 1 && m == align - 1
    ensures AlignPtr(ptr, align) == x - And(x, m)
  {
    WrapOfWord(x);
    WrapOfWord(m);
    MaskSplits(x, m);
  }

  /** For any alignment, power of two or not, the pointer moves up by less than the alignment. */
  lemma AlignPtrMovesUp(ptr: u64, align: u64)
    requires align >= 1 && ptr + align - 1 < WORD
    ensures ptr <= AlignPtr(ptr, align) <= ptr + align - 1
  {
    AlignPtrValue(ptr, align, ptr + align - 1, align - 1);
  }

  lemma AlignPtrToPow2(ptr: u64, k: nat, a: u64)
    requires a == Pow2(k) && ptr + a - 1 < WORD
    ensures AlignPtr(ptr, a) % a == 0
  {
    var x: u64 := ptr + a - 1;
    AlignPtrValue(ptr, a, x, a - 1);
    AndLow(x, k);
    RemainderOff(x, a);
  }

  lemma RemainderOff(x: nat, a: nat)
    requires a > 0
    ensures (x - x % a) % a == 0
  {
    DivModUnique(x - x % a, a, x / a, 0);
  }

  /** 16-byte alignment survives any alignment request. */
  lemma AlignPtrKeeps16(ptr: u64, align: u64)
    requires align >= 1 && ptr + align - 1 < WORD && ptr % 16 == 0
    ensures AlignPtr(ptr, align) % 16 == 0
  {
    var x: u64, m: u64 := ptr + align - 1, align - 1;
    AlignPtrValue(ptr, align, x, m);
    LowFourAgree(x, m);
    DifferenceOf16(x, And(x, m));
  }

  lemma DifferenceOf16(x: nat, y: nat)
    requires x % 16 == y % 16
    ensures (x - y) % 16 == 0
  {
  }

  lemma LowFourAgree(x: nat, m: nat)
    requires m <= x && (x - m) % 16 == 0
    ensures And(x, m) % 16 == x % 16
  {
    SameRemainder(x, m);
    assert Pow2(4) == 16;
    LowBitsAgree(x, m, 4);
  }

  lemma SameRemainder(x: nat, m: nat)
    requires m <= x && (x - m) % 16 == 0
    ensures x % 16 == m % 16
  {
  }

  /** If `x` and `m` agree in their k low bits, masking `x` by `m` keeps those bits. */
  lemma {:induction false} LowBitsAgree(x: nat, m: nat, k: nat)
    requires x % Pow2(k) == m % Pow2(k)
    ensures And(x, m) % Pow2(k) == x % Pow2(k)
    decreases k
  {
    if k > 0 {
      AndStep(x, m);
      DivModPow2Step(x, k);
      DivModPow2Step(m, k);
      DivModPow2Step(And(x, m), k);
      LowBitsAgree(x / 2, m / 2, k - 1);
    }
  }

  // ----- one request -----

  /** No word wraps while `size` bytes are taken at the pointer. */
  predicate NoWrap(h: Heap, size: u64)
  {
    h.ptr + size + 15 < WORD
  }

  /** A granted block lies inside the heap exactly when nothing wrapped. */
  lemma KmallocFits(h: Heap, size: u64)
    requires h.end % 16 == 0 && Kmalloc(h, size).1.Some?
    ensures h.ptr + size <= h.end <==> NoWrap(h, size)
  {
    if NoWrap(h, size) {
      RoundUpArithmetic(size);
      WrapsTo(h.ptr + RoundUp(size), h.ptr, size);
    }
  }

  lemma WrapsTo(x: nat, ptr: nat, size: nat)
    requires x <= ptr + size + 15 < WORD
    ensures Wrap(x) == x
  {
  }

  /** When the alignment is 0 or its sum wraps, the pointer moves down. */
  lemma AlignPtrMovesDown(ptr: u64, align: u64)
    requires ptr > 0 && (align == 0 || ptr + align - 1 >= WORD)
    ensures AlignPtr(ptr, align) < ptr
  {
    if align == 0 {
      ZeroAlignment(ptr);
    } else {
      WrapsOnce(ptr + align - 1);
    }
  }

  lemma WrapsOnce(x: nat)
    requires WORD <= x < 2 * WORD
    ensures Wrap(x) == x - WORD
  {
  }

  /** An alignment of 0 sends the pointer to address 0, wherever it was. */
  lemma ZeroAlignment(ptr: u64)
    ensures AlignPtr(ptr, 0) == 0
  {
    assert Wrap(-1) == WORD - 1;
  }

  /** The next block is granted at address 0 then, outside every heap. */
  lemma ZeroAlignmentRequest(h: Heap)
    requires 16 <= h.end
    ensures KmallocAligned(h, 16, 0) == (h.(ptr := 16), Some(0))
  {
    ZeroAlignment(h.ptr);
    RoundUpOfMultiple(16);
  }

  /** Neither the alignment nor the request wraps. */
  predicate NoWrapAligned(h: Heap, size: u64, align: u64)
  {
    align >= 1 && h.ptr + align - 1 < WORD && NoWrap(h.(ptr := AlignPtr(h.ptr, align)), size)
  }

  /** A granted aligned block lies in what was left of the heap exactly when nothing wrapped. */
  lemma KmallocAlignedFits(h: Heap, size: u64, align: u64)
    requires h.ptr > 0 && h.end % 16 == 0 && KmallocAligned(h, size, align).1.Some?
    ensures var p := KmallocAligned(h, size, align).1.value;
            h.ptr <= p && p + size <= h.end <==> NoWrapAligned(h, size, align)
  {
    if align == 0 || h.ptr + align - 1 >= WORD {
      AlignPtrMovesDown(h.ptr, align);
    } else {
      AlignPtrMovesUp(h.ptr, align);
      KmallocFits(h.(ptr := AlignPtr(h.ptr, align)), size);
    }
  }

  /** A request that wraps is granted, and moves the pointer back onto blocks handed out before. */
  lemma WrappingRequest()
    ensures var h := Heap(0xFFFF_0000_0100_0010, 0xFFFF_0000_0200_0000);
            var size: u64 := WORD - 16;
            var (h', p) := Kmalloc(h, size);
            !NoWrap(h, size) && p == Some(h.ptr) && h'.ptr == h.ptr - 16
  {
    WordIsPow2();
    var size: u64 := WORD - 16;
    RoundUpOfMultiple(size);
  }

  lemma RoundUpOfMultiple(size: u64)
    requires size % 16 == 0 && size + 15 < WORD
    ensures RoundUp(size) == size
  {
    RoundUpArithmetic(size);
  }

  /** A size rounded up to 16 bytes. */
  function Padded(size: nat): (r: nat)
  {
    (size + 15) / 16 * 16
  }

  lemma RoundUpIsPadded(size: u64)
    requires size + 15 < WORD
    ensures RoundUp(size) == Padded(size)
  {
    RoundUpArithmetic(size);
  }

  /** When a request is granted, and what it leaves: exactly if the padded size still fits, and then just that much is
      taken; a refused one changes nothing. */
  lemma KmallocGrants(h: Heap, size: u64)
    requires NoWrap(h, size)
    ensures Kmalloc(h, size) ==
            if h.ptr + Padded(size) <= h.end then (Heap(h.ptr + Padded(size), h.end), Some(h.ptr)) else (h, None)
  {
    RoundUpIsPadded(size);
    WrapsTo(h.ptr + RoundUp(size), h.ptr, size);
  }

  lemma MultipleBetween(x: nat, a: nat, q: nat)
    requires a > 0 && x % a == 0 && q <= x < q + a
    ensures x == (q + a - 1) / a * a
  {
    var k := x / a;
    assert x == a * k;
    DivModUnique(q + a - 1, a, k, q + a - 1 - x);
  }

  /** For a power of two the pointer is rounded up to the next multiple. */
  lemma AlignPtrIs(ptr: u64, k: nat, a: u64)
    requires a == Pow2(k) && ptr + a - 1 < WORD
    ensures AlignPtr(ptr, a) == (ptr + a - 1) / a * a
  {
    AlignPtrMovesUp(ptr, a);
    AlignPtrToPow2(ptr, k, a);
    MultipleBetween(AlignPtr(ptr, a), a, ptr);
  }

  /** The same for aligned requests, after the pointer has been rounded up; it stays so if the request is refused. */
  lemma KmallocAlignedGrants(h: Heap, size: u64, k: nat, align: u64, q: u64)
    requires align == Pow2(k) && h.ptr + align - 1 < WORD && q == (h.ptr + align - 1) / align * align
    requires q + size + 15 < WORD
    ensures KmallocAligned(h, size, align) ==
            if q + Padded(size) <= h.end then (Heap(q + Padded(size), h.end), Some(q)) else (Heap(q, h.end), None)
  {
    AlignPtrIs(h.ptr, k, align);
    KmallocGrants(h.(ptr := q), size);
  }

  // ----- runs -----

  datatype Request = Plain(size: u64) | Aligned(size: u64, align: u64)

  function Serve(h: Heap, q: Request): (r: (Heap, Option<u64>))
  {
    match q
    case Plain(size) => Kmalloc(h, size)
    case Aligned(size, align) => KmallocAligned(h, size, align)
  }

  /** The request is refused, or nothing wraps in granting it; the alignment never wraps. */
  predicate Wrapless(h: Heap, q: Request)
  {
    match q
    case Plain(size) => Kmalloc(h, size).1.None? || NoWrap(h, size)
    case Aligned(size, align) =>
      && align >= 1 && h.ptr + align - 1 < WORD
      && (KmallocAligned(h, size, align).1.None? || NoWrapAligned(h, size, align))
  }

  /** The pointer does not move down, and what is granted lies in what was left of the heap. */
  predicate StaysInside(h: Heap, q: Request)
  {
    var (h', p) := Serve(h, q);
    h.ptr <= h'.ptr && (p.Some? ==> h.ptr <= p.value && p.value + q.size <= h.end)
  }

  /** The pointers returned for a list of requests, and the heap after them. */
  function ServeAll(h: Heap, qs: seq<Request>): (r: (Heap, seq<Option<u64>>))
    ensures |r.1| == |qs|
    decreases |qs|
  {
    if qs == [] then (h, [])
    else
      var (h1, p) := Serve(h, qs[0]);
      var (h2, ps) := ServeAll(h1, qs[1..]);
      (h2, [p] + ps)
  }

  predicate AllWrapless(h: Heap, qs: seq<Request>)
    decreases |qs|
  {
    qs == [] || (Wrapless(h, qs[0]) && AllWrapless(Serve(h, qs[0]).0, qs[1..]))
  }

  /** The block granted for `q` at `p` lies between `lo` and `hi`, and is aligned as promised. */
  ghost predicate Good(q: Request, p: u64, lo: nat, hi: nat)
  {
    lo <= p && p + q.size <= hi && p % 16 == 0 && (q.Aligned? && IsPow2(q.align) ==> p % q.align == 0)
  }

  ghost predicate IsPow2(a: nat)
  {
    exists k: nat :: a == Pow2(k)
  }

  lemma KmallocMovesUp(h: Heap, size: u64)
    requires h.ptr % 16 == 0 && h.end % 16 == 0 && (Kmalloc(h, size).1.None? || NoWrap(h, size))
    ensures var (h', p) := Kmalloc(h, size);
            && h'.end == h.end && h'.ptr % 16 == 0 && h.ptr <= h'.ptr
            && (p.None? ==> h' == h)
            && (p.Some? ==> p.value == h.ptr && p.value + size <= h'.ptr <= h.end)
  {
    if NoWrap(h, size) {
      RoundUpArithmetic(size);
      WrapsTo(h.ptr + RoundUp(size), h.ptr, size);
    }
  }

  lemma {:induction false} ServeOne(h: Heap, q: Request)
    requires h.ptr % 16 == 0 && h.end % 16 == 0 && Wrapless(h, q)
    ensures var (h', p) := Serve(h, q);
            && h'.end == h.end && h'.ptr % 16 == 0 && h.ptr <= h'.ptr
            && (p.Some? ==> p.value + q.size <= h'.ptr && Good(q, p.value, h.ptr, h.end))
  {
    match q
    case Plain(size) =>
      KmallocMovesUp(h, size);
    case Aligned(size, align) =>
      AlignPtrMovesUp(h.ptr, align);
      AlignPtrKeeps16(h.ptr, align);
      if IsPow2(align) {
        var k: nat :| align == Pow2(k);
        AlignPtrToPow2(h.ptr, k, align);
      }
      KmallocMovesUp(h.(ptr := AlignPtr(h.ptr, align)), size);
  }

  /** The guard is exact: any other request leaves what was left of the heap. */
  lemma WraplessIff(h: Heap, q: Request)
    requires h.ptr > 0 && h.ptr % 16 == 0 && h.end % 16 == 0
    ensures StaysInside(h, q) <==> Wrapless(h, q)
  {
    if Wrapless(h, q) {
      ServeOne(h, q);
    } else {
      match q
      case Plain(size) => KmallocFits(h, size);
      case Aligned(size, align) => AlignedLeaves(h, size, align);
    }
  }

  lemma AlignedLeaves(h: Heap, size: u64, align: u64)
    requires h.ptr > 0 && h.end % 16 == 0 && !Wrapless(h, Aligned(size, align))
    ensures !StaysInside(h, Aligned(size, align))
  {
    if align == 0 || h.ptr + align - 1 >= WORD {
      AlignPtrMovesDown(h.ptr, align);
    } else {
      KmallocAlignedFits(h, size, align);
    }
  }

  /** The blocks of a run, in order: each good, and each ending before any later one begins. */
  ghost predicate Ordered(qs: seq<Request>, ps: seq<Option<u64>>, lo: nat, hi: nat)
    requires |qs| == |ps|
  {
    && (forall i :: 0 <= i < |qs| && ps[i].Some? ==> Good(qs[i], ps[i].value, lo, hi))
    && forall i, j :: 0 <= i < j < |qs| && ps[i].Some? && ps[j].Some? ==> ps[i].value + qs[i].size <= ps[j].value
  }

  lemma OrderedCons(q: Request, p: Option<u64>, qs: seq<Request>, ps: seq<Option<u64>>, lo: nat, mid: nat, hi: nat)
    requires |qs| == |ps| && Ordered(qs, ps, mid, hi) && lo <= mid
    requires p.Some? ==> p.value + q.size <= mid && Good(q, p.value, lo, hi)
    ensures Ordered([q] + qs, [p] + ps, lo, hi)
  {
  }

  /** Over any run in which each request stays inside, granted blocks come in increasing order without overlap, inside
      the heap and aligned, also after a failed aligned request has moved the pointer past the end. */
  lemma {:induction false} BlocksDisjoint(h: Heap, qs: seq<Request>)
    requires h.ptr % 16 == 0 && h.end % 16 == 0 && AllWrapless(h, qs)
    ensures Ordered(qs, ServeAll(h, qs).1, h.ptr, h.end)
    decreases |qs|
  {
    if qs != [] {
      var (h1, p) := Serve(h, qs[0]);
      ServeOne(h, qs[0]);
      BlocksDisjoint(h1, qs[1..]);
      OrderedCons(qs[0], p, qs[1..], ServeAll(h1, qs[1..]).1, h.ptr, h1.ptr, h.end);
      assert qs == [qs[0]] + qs[1..];
    }
  }
}
