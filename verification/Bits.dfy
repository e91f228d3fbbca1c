/** Bitwise operations on unsigned machine words, modelled as natural numbers.

    The kernel masks, joins and shifts 64-bit words.  Here `And` and `Or` are defined bit by bit, and the lemmas
    turn the masks that the kernel uses into division and remainder, which is what the other modules reason with. */
module Bits {

  const WORD: nat := 0x1_0000_0000_0000_0000

  /** An unsigned 64-bit word. */
  type u64 = x: int | 0 <= x < WORD

  /** The value that a 64-bit register holds after an operation whose exact result is `x`. */
  function Wrap(x: int): (r: u64)
  {
    x % WORD
  }

  lemma WrapOfWord(x: u64)
    ensures Wrap(x) == x
  {
  }

  lemma WrapAdds(x: int, y: int)
    ensures Wrap(Wrap(x) + y) == Wrap(x + y)
  {
  }

  /** The number before `n`, given a name because arithmetic inside function arguments is slow to reason about. */
  function Prev(n: nat): (r: nat)
    requires n > 0
    ensures r + 1 == n
  {
    n - 1
  }

  function Pow2(k: nat): (r: nat)
    ensures r > 0
  {
    if k == 0 then 1 else 2 * Pow2(k - 1)
  }

  function And(a: nat, b: nat): (r: nat)
    ensures r <= a && r <= b
  {
    if a == 0 || b == 0 then 0
    else (if a % 2 == 1 && b % 2 == 1 then 1 else 0) + 2 * And(a / 2, b / 2)
  }

  function Or(a: nat, b: nat): (r: nat)
    ensures a <= r && b <= r
    decreases a + b
  {
    if a == 0 then b else if b == 0 then a
    else (if a % 2 == 1 || b % 2 == 1 then 1 else 0) + 2 * Or(a / 2, b / 2)
  }

  function Shr(a: nat, k: nat): (r: nat)
    decreases k, a
  {
    if k == 0 then a else Shr(a / 2, k - 1)
  }

  function Shl(a: nat, k: nat): (r: nat)
    decreases k
  {
    if k == 0 then a else 2 * Shl(a, k - 1)
  }

  // One step of each operation, for use where automatic unfolding stops.

  lemma {:induction false} AndStep(a: nat, b: nat)
    ensures And(a, b) == (if a % 2 == 1 && b % 2 == 1 then 1 else 0) + 2 * And(a / 2, b / 2)
    ensures And(a, b) % 2 == 1 <==> a % 2 == 1 && b % 2 == 1
    ensures And(a, b) / 2 == And(a / 2, b / 2)
  {
  }

  lemma {:induction false} OrStep(a: nat, b: nat)
    ensures Or(a, b) == (if a % 2 == 1 || b % 2 == 1 then 1 else 0) + 2 * Or(a / 2, b / 2)
    ensures Or(a, b) % 2 == 1 <==> a % 2 == 1 || b % 2 == 1
    ensures Or(a, b) / 2 == Or(a / 2, b / 2)
  {
    if a == 0 {
    } else if b == 0 {
    } else {
    }
  }

  lemma MulMonotone(m: int, d: int, e: int)
    requires 0 <= m && d <= e
    ensures m * d <= m * e
  {
  }

  lemma {:induction false} MultipleInside(m: int, d: int)
    requires -m < m * d < m
    ensures d == 0
  {
    if d >= 1 {
      MulMonotone(m, 1, d);
    } else if d <= -1 {
      MulMonotone(m, d, -1);
    }
  }

  /** Quotient and remainder are determined by the equation that defines them. */
  lemma {:induction false} DivModUnique(x: int, m: int, q: int, r: int)
    requires m > 0 && 0 <= r < m && x == m * q + r
    ensures x / m == q && x % m == r
  {
    var q', r' := x / m, x % m;
    var d := q - q';
    assert m * d == r' - r by {
      assert x == m * q' + r';
      assert m * d == m * q - m * q';
    }
    MultipleInside(m, d);
  }

  /** Remainders and quotients by a power of two, one bit at a time. */
  lemma {:induction false} DivModPow2Step(x: nat, k: nat)
    requires k > 0
    ensures x % Pow2(k) == x % 2 + 2 * ((x / 2) % Pow2(k - 1))
    ensures x / Pow2(k) == (x / 2) / Pow2(k - 1)
  {
    var m := Pow2(k - 1);
    var h := x / 2;
    assert h == m * (h / m) + h % m;
    assert x == (2 * m) * (h / m) + (2 * (h % m) + x % 2);
    DivModUnique(x, 2 * m, h / m, 2 * (h % m) + x % 2);
  }

  lemma AndOdd(x: nat, mask: nat, half: nat)
    requires mask == 2 * half + 1
    ensures And(x, mask) == x % 2 + 2 * And(x / 2, half)
  {
    AndStep(x, mask);
  }

  /** Masking with the k lowest bits is the remainder by 2^k. */
  lemma {:induction false} AndLow(x: nat, k: nat)
    ensures And(x, Pow2(k) - 1) == x % Pow2(k)
  {
    if k > 0 {
      AndOdd(x, Pow2(k) - 1, Pow2(k - 1) - 1);
      AndLow(x / 2, k - 1);
      DivModPow2Step(x, k);
    }
  }

  /** Shifting right divides. */
  lemma {:induction false} ShrDivides(a: nat, k: nat)
    ensures Shr(a, k) == a / Pow2(k)
    decreases k
  {
    if k > 0 {
      ShrDivides(a / 2, k - 1);
      DivModPow2Step(a, k);
    }
  }

  /** A mask whose k lowest bits are clear only sees the word shifted right by k. */
  lemma {:induction false} AndHigh(x: nat, m: nat, k: nat)
    ensures And(x, Shl(m, k)) == Shl(And(Shr(x, k), m), k)
    decreases k
  {
    if k > 0 {
      AndStep(x, Shl(m, k));
      AndHigh(x / 2, m, k - 1);
    }
  }

  /** Joining words that share no bits is addition. */
  lemma {:induction false} OrDisjoint(a: nat, b: nat, k: nat)
    requires a % Pow2(k) == 0 && b < Pow2(k)
    ensures Or(a, b) == a + b
    decreases k
  {
    if k > 0 {
      OrStep(a, b);
      DivModPow2Step(a, k);
      OrDisjoint(a / 2, b / 2, k - 1);
    }
  }

  /** A mask distributes over joining. */
  lemma {:induction false} AndOr(a: nat, b: nat, m: nat)
    ensures And(Or(a, b), m) == Or(And(a, m), And(b, m))
    decreases a + b
  {
    if a != 0 && b != 0 {
      var l, r := And(Or(a, b), m), Or(And(a, m), And(b, m));
      assert l % 2 == r % 2 by {
        OrStep(a, b); AndStep(Or(a, b), m); AndStep(a, m); AndStep(b, m); OrStep(And(a, m), And(b, m));
      }
      assert l / 2 == r / 2 by {
        OrStep(a, b); AndStep(Or(a, b), m); AndStep(a, m); AndStep(b, m); OrStep(And(a, m), And(b, m));
        AndOr(a / 2, b / 2, m / 2);
      }
    }
  }

  lemma {:induction false} OrBound(a: nat, b: nat, k: nat)
    requires a < Pow2(k) && b < Pow2(k)
    ensures Or(a, b) < Pow2(k)
    decreases k
  {
    if k > 0 {
      OrStep(a, b);
      OrBound(a / 2, b / 2, k - 1);
    }
  }

  lemma {:induction false} OrParity(a: nat, b: nat)
    ensures Or(a, b) % 2 == 1 <==> a % 2 == 1 || b % 2 == 1
  {
    OrStep(a, b);
  }

  /** Powers of two split: the value of a literal exponent is then found by evaluation. */
  lemma {:induction false} Pow2Add(j: nat, k: nat)
    ensures Pow2(j + k) == Pow2(j) * Pow2(k)
    decreases j
  {
    if j > 0 {
      Pow2Add(j - 1, k);
      assert Pow2(j + k) == 2 * Pow2(j - 1 + k);
    }
  }

  lemma WordIsPow2()
    ensures Pow2(64) == WORD
  {
    assert Pow2(8) == 256;
    Pow2Add(8, 8);
    Pow2Add(16, 16);
    Pow2Add(32, 32);
  }

  // ----- single bits -----

  /** Bit `k` of a word, by division. */
  predicate Bit(w: nat, k: nat)
  {
    w / Pow2(k) % 2 == 1
  }

  lemma BitStep(w: nat, k: nat)
    ensures if k == 0 then Bit(w, k) <==> w % 2 == 1 else Bit(w, k) <==> Bit(w / 2, k - 1)
  {
    if k > 0 {
      DivModPow2Step(w, k);
    }
  }

  lemma {:induction false} BitOfOr(a: nat, b: nat, k: nat)
    ensures Bit(Or(a, b), k) <==> Bit(a, k) || Bit(b, k)
    decreases k
  {
    OrStep(a, b);
    BitStep(a, k);
    BitStep(b, k);
    BitStep(Or(a, b), k);
    if k > 0 {
      BitOfOr(a / 2, b / 2, k - 1);
    }
  }

  lemma {:induction false} BitOfAnd(a: nat, b: nat, k: nat)
    ensures Bit(And(a, b), k) <==> Bit(a, k) && Bit(b, k)
    decreases k
  {
    AndStep(a, b);
    BitStep(a, k);
    BitStep(b, k);
    BitStep(And(a, b), k);
    if k > 0 {
      BitOfAnd(a / 2, b / 2, k - 1);
    }
  }

  lemma {:induction false} OrCommutes(a: nat, b: nat)
    ensures Or(a, b) == Or(b, a)
    decreases a + b
  {
    if a != 0 && b != 0 {
      OrCommutes(a / 2, b / 2);
    }
  }

  /** Joining on top of `k` low bits that only one of the two words has. */
  lemma {:induction false} OrAbove(x: nat, y: nat, low: nat, k: nat)
    requires low < Pow2(k)
    ensures Or(Pow2(k) * x, Pow2(k) * y + low) == Pow2(k) * Or(x, y) + low
    decreases k
  {
    if k > 0 {
      var a, b := Pow2(k) * x, Pow2(k) * y + low;
      OrStep(a, b);
      HalfOf(x, 0, k);
      HalfOf(y, low, k);
      OrAbove(x, y, low / 2, k - 1);
      HalfOf(Or(x, y), low, k);
      assert Or(a, b) / 2 == (Pow2(k) * Or(x, y) + low) / 2;
    }
  }

  lemma HalfOf(x: nat, low: nat, k: nat)
    requires k > 0
    ensures (Pow2(k) * x + low) / 2 == Pow2(k - 1) * x + low / 2
    ensures (Pow2(k) * x + low) % 2 == low % 2
  {
    var h := Pow2(k - 1) * x;
    assert Pow2(k) * x == 2 * h;
  }

  lemma {:induction false} Pow2Order(j: nat, k: nat)
    requires j <= k
    ensures Pow2(j) <= Pow2(k)
  {
    if j < k {
      Pow2Order(j, k - 1);
    }
  }

  lemma {:induction false} NoBits(k: nat)
    ensures !Bit(0, k)
  {
    BitStep(0, k);
    if k > 0 {
      NoBits(k - 1);
    }
  }

  /** The bits from `low` up to `high`. */
  function Mask(low: nat, high: nat): (r: nat)
    requires low <= high
  {
    Pow2Order(low, high);
    Pow2(high) - Pow2(low)
  }

  lemma MaskHalf(low: nat, high: nat)
    requires low <= high && high > 0
    ensures Mask(low, high) / 2 == Mask(if low == 0 then 0 else low - 1, high - 1)
    ensures Mask(low, high) % 2 == 1 <==> low == 0
  {
  }

  lemma {:induction false} BitOfMask(low: nat, high: nat, k: nat)
    requires low <= high
    ensures Bit(Mask(low, high), k) <==> low <= k < high
    decreases high, k
  {
    if high == 0 {
      NoBits(k);
    } else {
      MaskHalf(low, high);
      BitStep(Mask(low, high), k);
      if k > 0 {
        BitOfMask(if low == 0 then 0 else low - 1, high - 1, k - 1);
      }
    }
  }
}
