/** The loudness of the microphone frame: a sum of squares, its mean, and a shift-and-subtract square root. */
module Senses {
  type Sample = x: int | -32768 <= x < 32768

  const MAX_SAMPLES: nat := 4096
  const SILENCE: nat := 100

  function Square(x: int): (r: nat)
  {
    Squares(x);
    x * x
  }

  lemma Squares(x: int)
    ensures x * x >= 0
  {
  }

  function SumSq(s: seq<Sample>): (r: nat)
  {
    if s == [] then 0 else SumSq(s[..|s| - 1]) + Square(s[|s| - 1])
  }

  lemma SquareOrder(x: int, y: int)
    requires 0 <= x <= y
    ensures Square(x) <= Square(y)
  {
    assert y * y - x * x == (y - x) * (y + x);
  }

  function Abs(x: int): (r: nat)
  {
    if x < 0 then -x else x
  }

  lemma SquareOfAbs(x: int)
    ensures Square(Abs(x)) == Square(x)
  {
  }

  lemma TimesOrder(x: nat, y: nat, n: nat)
    requires x <= y
    ensures x * n <= y * n
  {
  }

  /** No sum of squares in the loop leaves the width of its accumulator, and no product that of an int. */
  lemma {:induction false} SumSqFits(s: seq<Sample>)
    requires |s| <= MAX_SAMPLES
    ensures SumSq(s) <= |s| * 0x4000_0000 < 0x1_0000_0000_0000_0000
    ensures forall i :: 0 <= i < |s| ==> Square(s[i]) < 0x8000_0000
  {
    if s != [] {
      SumSqFits(s[..|s| - 1]);
    }
    forall i | 0 <= i < |s|
      ensures Square(s[i]) <= 0x4000_0000
    {
      SquareOfAbs(s[i]);
      SquareOrder(Abs(s[i]), 32768);
    }
  }

  // ----- the square root -----

  function Pow4(k: nat): (r: nat)
    ensures r > 0
  {
    if k == 0 then 1 else 4 * Pow4(k - 1)
  }

  ghost predicate IsRoot(x: nat, r: nat)
  {
    Square(r) <= x < Square(r + 1)
  }

  lemma RootUnique(x: nat, r: nat, q: nat)
    requires IsRoot(x, r) && IsRoot(x, q)
    ensures r == q
  {
    if r < q {
      SquareOrder(r + 1, q);
    } else if q < r {
      SquareOrder(q + 1, r);
    }
  }

  /** What the second loop keeps: with `step` four times the bit that is tried next, the root found so far is a multiple
      `p` of the square root of `step`, its square has been taken off, and the next multiple is too large. */
  ghost predicate Tried(mean: nat, x: nat, r: nat, p: nat, step: nat)
  {
    r == p * step && x + Square(p) * step == mean && mean < Square(p + 1) * step
  }

  lemma Odd(p: nat, bit: nat)
    ensures Square(2 * p + 1) * bit == Square(p) * (4 * bit) + 4 * (p * bit) + bit
    ensures (2 * p + 1) * bit == 2 * (p * bit) + bit
  {
    assert Square(2 * p + 1) == 4 * Square(p) + 4 * p + 1;
    assert (4 * Square(p) + 4 * p + 1) * bit == Square(p) * (4 * bit) + 4 * (p * bit) + bit;
  }

  lemma Even(p: nat, bit: nat)
    ensures Square(2 * p) * bit == Square(p) * (4 * bit) && (2 * p) * bit == 2 * (p * bit)
  {
    assert Square(2 * p) == 4 * Square(p);
    assert (4 * Square(p)) * bit == Square(p) * (4 * bit);
  }

  lemma TryTakes(mean: nat, x: nat, r: nat, p: nat, bit: nat)
    requires Tried(mean, x, r, p, 4 * bit) && x >= r + bit
    ensures r / 2 == 2 * (p * bit) && Tried(mean, x - (r + bit), r / 2 + bit, 2 * p + 1, bit)
  {
    assert r == 4 * (p * bit);
    Odd(p, bit);
    Even(p + 1, bit);
  }

  lemma TryLeaves(mean: nat, x: nat, r: nat, p: nat, bit: nat)
    requires Tried(mean, x, r, p, 4 * bit) && x < r + bit
    ensures Tried(mean, x, r / 2, 2 * p, bit)
  {
    assert r == 4 * (p * bit);
    Odd(p, bit);
    Even(p, bit);
  }

  /** The partial root is no larger than the number: no addition in the loop overflows. */
  lemma PartialSmall(mean: nat, x: nat, r: nat, p: nat, step: nat)
    requires Tried(mean, x, r, p, step)
    ensures r <= mean
  {
    if p > 0 {
      var product: nat := p * step;
      SquareTimes(p, step, product);
      TimesOrder(1, p, product);
    }
  }

  lemma SquareTimes(p: nat, step: nat, product: nat)
    requires product == p * step
    ensures Square(p) * step == p * product
  {
  }

  /** `bit` is tried after `step`: it is a quarter of it, and nothing is tried after 1. */
  ghost predicate Follows(bit: nat, step: nat, k: nat)
  {
    step == Pow4(k) && if k == 0 then bit == 0 else step == 4 * bit
  }

  lemma FollowsFirst()
    ensures Follows(0x4000_0000, 0x1_0000_0000, 16)
  {
    assert Pow4(2) == 16 && Pow4(4) == 0x100 && Pow4(6) == 0x1000 && Pow4(8) == 0x1_0000;
    assert Pow4(10) == 0x10_0000 && Pow4(12) == 0x100_0000 && Pow4(14) == 0x1000_0000;
  }

  lemma FollowsNext(bit: nat, step: nat, k: nat)
    requires Follows(bit, step, k) && bit != 0
    ensures k > 0 && step == 4 * bit && Follows(bit / 4, bit, k - 1)
  {
  }

  /** One round of the second loop; its sum stays within its width. */
  method TryBit(x: nat, r: nat, bit: nat, ghost mean: nat, ghost p: nat) returns (x': nat, r': nat, ghost p': nat)
    requires Tried(mean, x, r, p, 4 * bit) && mean < 0x1_0000_0000 && bit <= 0x4000_0000
    ensures Tried(mean, x', r', p', bit)
  {
    PartialSmall(mean, x, r, p, 4 * bit);
    assert r + bit < 0x1_0000_0000_0000_0000;
    if x >= r + bit {
      TryTakes(mean, x, r, p, bit);
      x', r', p' := x - (r + bit), r / 2 + bit, 2 * p + 1;
    } else {
      TryLeaves(mean, x, r, p, bit);
      x', r', p' := x, r / 2, 2 * p;
    }
  }

  /** The floor of the square root, for every number below 2^32. */
  method IntegerSqrt(mean: nat) returns (r: nat)
    requires mean < 0x1_0000_0000
    ensures IsRoot(mean, r)
  {
    var x: nat := mean;
    r := 0;
    var bit: nat := 0x4000_0000;
    ghost var k: nat, step: nat := 16, 0x1_0000_0000;
    FollowsFirst();
    while bit > x
      invariant Follows(bit, step, k) && bit <= 0x4000_0000 && mean < step && x == mean
      decreases bit
    {
      FollowsNext(bit, step, k);
      k, step, bit := k - 1, bit, bit / 4;
    }
    ghost var p: nat := 0;
    while bit != 0
      invariant Follows(bit, step, k) && bit <= 0x4000_0000 && Tried(mean, x, r, p, step)
      decreases bit
    {
      FollowsNext(bit, step, k);
      x, r, p := TryBit(x, r, bit, mean, p);
      k, step, bit := k - 1, bit, bit / 4;
    }
  }

  // ----- the loudness -----

  /** `r` is the root of the mean square of `s`, rounded down. */
  ghost predicate IsRms(s: seq<Sample>, r: nat)
  {
    Square(r) * |s| <= SumSq(s) < Square(r + 1) * |s|
  }

  lemma MeanTimes(sum: nat, n: nat)
    requires n > 0
    ensures (sum / n) * n <= sum < (sum / n + 1) * n
  {
  }

  /** The mean is itself rounded down; the root of it is still exact for the sum. */
  lemma RootOfMean(sum: nat, n: nat, r: nat)
    requires n > 0 && IsRoot(sum / n, r)
    ensures Square(r) * n <= sum < Square(r + 1) * n
  {
    var mean := sum / n;
    MeanTimes(sum, n);
    TimesOrder(Square(r), mean, n);
    TimesOrder(mean + 1, Square(r + 1), n);
  }

  lemma {:induction false} SumSqAtMost(s: seq<Sample>, a: nat)
    requires forall i :: 0 <= i < |s| ==> Abs(s[i]) <= a
    ensures SumSq(s) <= Square(a) * |s|
  {
    if s != [] {
      var n := |s| - 1;
      SumSqAtMost(s[..n], a);
      SquareOfAbs(s[n]);
      SquareOrder(Abs(s[n]), a);
      assert Square(a) * (n + 1) == Square(a) * n + Square(a);
    }
  }

  lemma {:induction false} SumSqAtLeast(s: seq<Sample>, a: nat)
    requires forall i :: 0 <= i < |s| ==> a <= Abs(s[i])
    ensures SumSq(s) >= Square(a) * |s|
  {
    if s != [] {
      var n := |s| - 1;
      SumSqAtLeast(s[..n], a);
      SquareOfAbs(s[n]);
      SquareOrder(a, Abs(s[n]));
      assert Square(a) * (n + 1) == Square(a) * n + Square(a);
    }
  }

  lemma SquareNext(a: nat)
    ensures Square(a) + 1 <= Square(a + 1)
  {
  }

  /** The loudness lies between the smallest and the largest amplitude; of a signal of constant amplitude it is just
      that amplitude. */
  lemma {:induction false} RmsBetween(s: seq<Sample>, r: nat, low: nat, high: nat)
    requires IsRms(s, r)
    requires forall i :: 0 <= i < |s| ==> low <= Abs(s[i]) <= high
    ensures low <= r <= high
  {
    SumSqAtMost(s, high);
    SumSqAtLeast(s, low);
    if r < low {
      SquareOrder(r + 1, low);
      TimesOrder(Square(r + 1), Square(low), |s|);
    }
    if r > high {
      SquareOrder(high + 1, r);
      SquareNext(high);
      TimesOrder(Square(high) + 1, Square(r), |s|);
    }
  }

  /** A frame is silent exactly when its mean square is below the square of the threshold. */
  lemma SilentIff(s: seq<Sample>, r: nat, level: nat)
    requires IsRms(s, r)
    ensures r < level <==> SumSq(s) < Square(level) * |s|
  {
    if r < level {
      SquareOrder(r + 1, level);
      TimesOrder(Square(r + 1), Square(level), |s|);
    } else {
      SquareOrder(level, r);
      TimesOrder(Square(level), Square(r), |s|);
    }
  }

  /** How many samples of a frame are looked at. */
  function Heard(count: nat): (r: nat)
  {
    if count > MAX_SAMPLES then MAX_SAMPLES else count
  }

  method SumSquares(data: seq<Sample>, n: nat) returns (sum: nat)
    requires n <= |data|
    ensures sum == SumSq(data[..n])
  {
    sum := 0;
    var i: nat := 0;
    while i < n
      invariant i <= n && sum == SumSq(data[..i])
    {
      assert data[..i + 1][..i] == data[..i];
      sum := sum + Square(data[i]);
      i := i + 1;
    }
  }

  /** The root of the mean of `n` squares. */
  method RootMeanSquare(sum: nat, n: nat, ghost s: seq<Sample>) returns (rms: nat)
    requires 0 < n == |s| <= MAX_SAMPLES && sum == SumSq(s)
    ensures rms * rms * n <= sum < (rms + 1) * (rms + 1) * n && rms <= 32768 && (rms < 100 <==> sum < 10000 * n)
  {
    MeanFits(s, sum);
    rms := IntegerSqrt(sum / n);
    LoudnessOfRoot(s, n, sum, rms);
  }

  /** The loudness of a frame, and whether it is silent. */
  method Loudness(data: seq<Sample>, count: nat) returns (rms: nat, silence: bool)
    requires Heard(count) <= |data|
    ensures var n := if count <= 4096 then count else 4096;
            && (if n == 0 then rms == 0 else rms * rms * n <= SumSq(data[..n]) < (rms + 1) * (rms + 1) * n)
            && (silence <==> n == 0 || SumSq(data[..n]) < 10000 * n)
    ensures rms <= 32768
  {
    var n := Heard(count);
    var sum := SumSquares(data, n);
    rms := 0;
    if n > 0 {
      rms := RootMeanSquare(sum, n, data[..n]);
    }
    silence := rms < SILENCE;
  }

  lemma MeanFits(s: seq<Sample>, sum: nat)
    requires 0 < |s| <= MAX_SAMPLES && sum == SumSq(s)
    ensures sum / |s| < 0x1_0000_0000
  {
    SumSqFits(s);
    MeanTimes(sum, |s|);
    if sum / |s| > 0x4000_0000 {
      TimesOrder(0x4000_0001, sum / |s|, |s|);
    }
  }

  lemma LoudnessOfRoot(s: seq<Sample>, n: nat, sum: nat, r: nat)
    requires 0 < n == |s| && sum == SumSq(s) && IsRoot(sum / n, r)
    ensures r * r * n <= sum < (r + 1) * (r + 1) * n && r <= 32768 && (r < 100 <==> sum < 10000 * n)
  {
    RootOfMean(sum, n, r);
    RmsBetween(s, r, 0, 32768);
    SilentIff(s, r, 100);
  }
}
