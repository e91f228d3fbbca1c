/** Positional digits: what print_uint emits, and the parsing that inverts it. */
module Digits {
  import opened Bits

  const DIGITS: string := "0123456789abcdef"

  function Quotient(v: nat, base: nat): (r: nat)
    requires 2 <= base
    ensures v > 0 ==> r < v
    ensures r > 0 ==> 2 * r <= v
  {
    QuotientShrinks(v, base);
    v / base
  }

  lemma QuotientShrinks(v: nat, base: nat)
    requires 2 <= base
    ensures v > 0 ==> v / base < v
    ensures 2 * (v / base) <= v
  {
    MulMonotone(v / base, 2, base);
    assert base * (v / base) <= v;
  }

  /** The digits of `v`, most significant first; zero has one digit. */
  function Digits(v: nat, base: nat): (r: string)
    requires 2 <= base <= 16
    ensures r != []
    decreases v
  {
    if v < base then [DIGITS[v]] else Digits(Quotient(v, base), base) + [DIGITS[v % base]]
  }

  function Decimal(v: nat): (r: string)
    ensures r != []
  {
    Digits(v, 10)
  }

  predicate IsDigit(c: char)
  {
    '0' <= c <= '9'
  }

  /** The number that the leading decimal digits of `s` continue from `acc`, as the parsers compute it. */
  function ParseFrom(s: string, acc: nat): (r: nat)
    decreases |s|
  {
    if s == [] || !IsDigit(s[0]) then acc else ParseFrom(s[1..], acc * 10 + (s[0] as int - '0' as int))
  }

  /** No step of the parser exceeds its result: a number below 2^63 is parsed without overflow. */
  lemma {:induction false} ParseGrows(s: string, acc: nat)
    ensures acc <= ParseFrom(s, acc)
    decreases |s|
  {
    if s != [] && IsDigit(s[0]) {
      ParseGrows(s[1..], acc * 10 + (s[0] as int - '0' as int));
    }
  }

  lemma DigitChars(v: nat)
    requires v < 10
    ensures IsDigit(DIGITS[v]) && DIGITS[v] as int - '0' as int == v
  {
  }

  lemma {:induction false} ParseAppend(s: string, c: char, acc: nat, rest: string)
    requires (forall k :: 0 <= k < |s| ==> IsDigit(s[k])) && IsDigit(c)
    ensures ParseFrom(s + [c] + rest, acc) == ParseFrom(rest, ParseFrom(s, acc) * 10 + (c as int - '0' as int))
    decreases |s|
  {
    if s == [] {
      assert s + [c] + rest == [c] + rest;
      assert ([c] + rest)[1..] == rest;
    } else {
      assert (s + [c] + rest)[1..] == s[1..] + [c] + rest;
      ParseAppend(s[1..], c, acc * 10 + (s[0] as int - '0' as int), rest);
    }
  }

  /** Decimal digits read back as the number, whatever follows them, if it is not another digit. */
  lemma {:induction false} DecimalParses(v: nat, rest: string)
    requires rest == [] || !IsDigit(rest[0])
    ensures forall k :: 0 <= k < |Decimal(v)| ==> IsDigit(Decimal(v)[k])
    ensures ParseFrom(Decimal(v) + rest, 0) == v
  {
    DecimalContinues(v, rest);
    assert ParseFrom(rest, v) == v;
  }

  lemma DecimalSplit(v: nat, q: nat, c: char)
    requires v >= 10 && q == v / 10 && c == DIGITS[v % 10]
    ensures Decimal(v) == Decimal(q) + [c] && q < v && IsDigit(c) && q * 10 + (c as int - '0' as int) == v
  {
    DigitChars(v % 10);
  }

  lemma {:induction false} DecimalContinues(v: nat, rest: string)
    ensures forall k :: 0 <= k < |Decimal(v)| ==> IsDigit(Decimal(v)[k])
    ensures ParseFrom(Decimal(v) + rest, 0) == ParseFrom(rest, v)
    ensures ParseFrom(Decimal(v), 0) == v
    decreases v
  {
    if v < 10 {
      DigitChars(v);
      assert ([DIGITS[v]] + rest)[1..] == rest;
    } else {
      var q, c := v / 10, DIGITS[v % 10];
      DecimalSplit(v, q, c);
      DecimalContinues(q, [c] + rest);
      ParseAppend(Decimal(q), c, 0, rest);
      ParseAppend(Decimal(q), c, 0, []);
      assert Decimal(v) + rest == Decimal(q) + [c] + rest && Decimal(v) == Decimal(q) + [c] + [];
    }
  }

  /** Different numbers have different decimals. */
  lemma DecimalInjective(v: nat, w: nat)
    ensures Decimal(v) == Decimal(w) ==> v == w
  {
    DecimalContinues(v, []);
    DecimalContinues(w, []);
  }

  // ----- what digits stand for -----

  /** The value of a digit, in lower case above nine. */
  function DigitValue(c: char): (r: nat)
  {
    if '0' <= c <= '9' then c as int - 48 else if 'a' <= c <= 'f' then c as int - 87 else 0
  }

  predicate IsDigitOf(c: char, base: nat)
  {
    ('0' <= c <= '9' || 'a' <= c <= 'f') && DigitValue(c) < base
  }

  /** The number that digits stand for by their places. */
  function Value(s: string, base: nat): (r: nat)
  {
    if s == [] then 0 else Value(s[..|s| - 1], base) * base + DigitValue(s[|s| - 1])
  }

  lemma DigitCharOf(v: nat, base: nat)
    requires v < base <= 16
    ensures IsDigitOf(DIGITS[v], base) && DigitValue(DIGITS[v]) == v && (v > 0 ==> DIGITS[v] != '0')
  {
  }

  lemma ValueAppend(s: string, c: char, base: nat)
    ensures Value(s + [c], base) == Value(s, base) * base + DigitValue(c)
  {
    assert (s + [c])[..|s|] == s;
  }

  lemma SplitNumber(v: nat, base: nat)
    requires 2 <= base
    ensures Quotient(v, base) * base + v % base == v
  {
  }

  /** These are the digits of `v`, and none is superfluous. */
  ghost predicate StandFor(s: string, v: nat, base: nat)
  {
    && Value(s, base) == v && (forall i :: 0 <= i < |s| ==> IsDigitOf(s[i], base))
    && if v == 0 then s == ['0'] else s != [] && s[0] != '0'
  }

  lemma StandForOne(v: nat, base: nat)
    requires v < base <= 16
    ensures StandFor([DIGITS[v]], v, base)
  {
    DigitCharOf(v, base);
    ValueAppend([], DIGITS[v], base);
    assert [] + [DIGITS[v]] == [DIGITS[v]];
  }

  lemma StandForMore(s: string, q: nat, d: nat, base: nat)
    requires 2 <= base <= 16 && StandFor(s, q, base) && q > 0 && d < base
    ensures StandFor(s + [DIGITS[d]], q * base + d, base)
  {
    DigitCharOf(d, base);
    ValueAppend(s, DIGITS[d], base);
    MulMonotone(q, 1, base);
  }

  /** In every base the digits of a number stand for it. */
  lemma {:induction false} DigitsStandFor(v: nat, base: nat)
    requires 2 <= base <= 16
    ensures StandFor(Digits(v, base), v, base)
    decreases v
  {
    if v < base {
      StandForOne(v, base);
    } else {
      var q := Quotient(v, base);
      SmallQuotient(v, base);
      DigitsStandFor(q, base);
      SplitNumber(v, base);
      StandForMore(Digits(q, base), q, v % base, base);
    }
  }

  /** The parser reads any run of decimal digits by their places, leading zeros included, and stops after it. */
  lemma {:induction false} ParseIsValue(s: string, rest: string)
    requires (forall i :: 0 <= i < |s| ==> IsDigit(s[i])) && (rest == [] || !IsDigit(rest[0]))
    ensures ParseFrom(s + rest, 0) == Value(s, 10)
    decreases |s|
  {
    if s == [] {
      assert s + rest == rest;
    } else {
      var front, c := s[..|s| - 1], s[|s| - 1];
      ParseAppend(front, c, 0, rest);
      assert front + [c] + rest == s + rest;
      ParseIsValue(front, []);
      assert front + [] == front;
    }
  }

  ghost function Backwards(s: string): (r: string)
  {
    seq(|s|, k requires 0 <= k < |s| => s[|s| - 1 - k])
  }

  lemma BackwardsAppend(s: string, c: char)
    ensures Backwards(s + [c]) == [c] + Backwards(s)
  {
  }

  /** All digits, when `buf` holds the low ones backwards and `x` is still to be divided. */
  ghost function Emitted(buf: string, x: nat, base: nat): (r: string)
    requires 2 <= base <= 16
  {
    (if x == 0 then [] else Digits(x, base)) + Backwards(buf)
  }

  lemma EmitOne(buf: string, x: nat, base: nat)
    requires 2 <= base <= 16 && x > 0
    ensures Emitted(buf + [DIGITS[x % base]], Quotient(x, base), base) == Emitted(buf, x, base)
  {
    BackwardsAppend(buf, DIGITS[x % base]);
    SmallQuotient(x, base);
  }

  lemma SmallQuotient(x: nat, base: nat)
    requires 2 <= base
    ensures x < base ==> Quotient(x, base) == 0 && x % base == x
    ensures x >= base ==> Quotient(x, base) > 0
  {
    if x < base {
      DivModUnique(x, base, 0, x);
    }
  }

  /** The characters that the serial driver sends for a number: digits are collected backwards in a 64-byte buffer,
      which is never too short, and then sent from its end. */
  method PrintUint(v: u64, base: nat) returns (sent: string)
    requires 2 <= base <= 16
    ensures sent == Digits(v, base)
  {
    if v == 0 {
      return "0";
    }
    var buf := new char[64];
    var x: nat, i := v, 0;
    DigitsOfWord(v, base);
    assert Emitted(buf[..0], x, base) == Digits(v, base);
    while x != 0
      invariant 0 <= i <= 64
      invariant Emitted(buf[..i], x, base) == Digits(v, base)
      decreases x
    {
      i := EmitDigit(buf, i, x, base);
      x := Quotient(x, base);
    }
    sent := SendBackwards(buf[..i]);
  }

  method EmitDigit(buf: array<char>, i: nat, x: nat, base: nat) returns (next: nat)
    requires 2 <= base <= 16 && x > 0 && buf.Length == 64 && i <= 64 && |Emitted(buf[..i], x, base)| <= 64
    modifies buf
    ensures next == i + 1 <= 64
    ensures Emitted(buf[..next], Quotient(x, base), base) == old(Emitted(buf[..i], x, base))
  {
    EmitOne(buf[..i], x, base);
    buf[i] := DIGITS[x % base];
    next := i + 1;
    assert buf[..next] == old(buf[..i]) + [DIGITS[x % base]];
  }

  method SendBackwards(s: string) returns (sent: string)
    ensures sent == Backwards(s)
  {
    sent := [];
    var i := |s|;
    while i > 0
      invariant 0 <= i <= |s| && sent == Backwards(s)[..|s| - i]
    {
      i := i - 1;
      sent := sent + [s[i]];
    }
  }

  lemma {:induction false} DigitsFit(v: nat, base: nat, k: nat)
    requires 2 <= base <= 16 && v < Pow2(k) && k > 0
    ensures |Digits(v, base)| <= k
    decreases k
  {
    if v >= base {
      DigitsFit(Quotient(v, base), base, k - 1);
    }
  }

  lemma DigitsOfWord(v: u64, base: nat)
    requires 2 <= base <= 16
    ensures |Digits(v, base)| <= 64
  {
    WordIsPow2();
    DigitsFit(v, base, 64);
  }
}
