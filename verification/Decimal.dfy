/**
 Printing 128-bit integers in decimal where the compiler has no 128-bit
 division (deps/googletest/googletest/src/gtest-printers.cc).
 */
module Decimal {

  const TWO_TO_64: nat := 0x1_0000_0000_0000_0000
  const TWO_TO_127: nat := 0x8000_0000_0000_0000_0000_0000_0000_0000
  const TWO_TO_128: nat := 0x1_0000_0000_0000_0000_0000_0000_0000_0000

  /** Arithmetic on uint64_t */
  function Wrap(x: nat): nat { x % TWO_TO_64 }

  predicate IsDigit(c: char) { '0' <= c <= '9' }

  function DigitOf(d: nat): char
    requires d < 10
  {
    '0' + d as char
  }

  // ---------------------------------------------------------------- decimal numerals

  /** The number a string of digits denotes. */
  function ValueOf(s: seq<char>): nat
    requires forall c :: c in s ==> IsDigit(c)
  {
    if s == [] then 0 else
      assert IsDigit(s[|s| - 1]);
      10 * ValueOf(s[..|s| - 1]) + (s[|s| - 1] as int - '0' as int)
  }

  /** Digits, at least one, and no zero in front of others. */
  predicate Canonical(s: seq<char>) {
    s != [] && (forall c :: c in s ==> IsDigit(c)) && (s[0] == '0' ==> |s| == 1)
  }

  function Numeral(n: nat): seq<char> {
    if n < 10 then [DigitOf(n)] else Numeral(n / 10) + [DigitOf(n % 10)]
  }

  lemma {:induction false} NumeralDenotes(n: nat)
    ensures Canonical(Numeral(n)) && ValueOf(Numeral(n)) == n
    ensures n > 0 ==> Numeral(n)[0] != '0'
  {
    if n >= 10 {
      NumeralDenotes(n / 10);
      assert Numeral(n)[..|Numeral(n)| - 1] == Numeral(n / 10);
    } else {
      assert Numeral(n)[..0] == [];
    }
  }

  lemma {:induction false} CanonicalPositive(s: seq<char>)
    requires Canonical(s) && s[0] != '0'
    ensures ValueOf(s) > 0
    decreases |s|
  {
    assert IsDigit(s[|s| - 1]);
    if |s| > 1 {
      CanonicalPositive(s[..|s| - 1]);
    }
  }

  /** There is one canonical numeral for each number. */
  lemma {:induction false} NumeralUnique(s: seq<char>)
    requires Canonical(s)
    ensures s == Numeral(ValueOf(s))
    decreases |s|
  {
    var front, last := s[..|s| - 1], s[|s| - 1] as int - '0' as int;
    assert IsDigit(s[|s| - 1]);
    if |s| == 1 {
      assert ValueOf(front) == 0;
    } else {
      NumeralUnique(front);
      CanonicalPositive(front);
      assert s == front + [s[|s| - 1]];
    }
  }

  lemma {:induction false} NumeralLength(n: nat, k: nat)
    requires n < Pow10(k) && k > 0
    ensures |Numeral(n)| <= k
  {
    if n >= 10 {
      NumeralLength(n / 10, k - 1);
    }
  }

  function Pow10(k: nat): nat { if k == 0 then 1 else 10 * Pow10(k - 1) }

  lemma FitsBuffer()
    ensures TWO_TO_128 < Pow10(39)
  {
    assert Pow10(10) == 1_0000_0000_00;
    assert Pow10(20) == 1_0000_0000_0000_0000_0000;
    assert Pow10(30) == 1_0000_0000_0000_0000_0000_0000_0000_00;
  }

  // ---------------------------------------------------------------- one division by ten

  /** The two halves of the quotient, and the digit that comes out. */
  function DivideBy10(high: nat, low: nat): (r: (nat, nat, nat))
    requires high < TWO_TO_64 && low < TWO_TO_64
  {
    var highMod := high % 10;
    var carry := Wrap(Wrap(6 * highMod) + low % 10);
    (high / 10, Wrap(Wrap(low / 10 + Wrap(highMod * 1844674407370955161)) + carry / 10), carry % 10)
  }

  /** With low = 10 * lq + lm and 6 * hm + lm = 10 * cq + cm: */
  lemma LongDivision(low: nat, hm: nat, lq: nat, lm: nat, cq: nat, cm: nat)
    requires low < TWO_TO_64 && hm < 10 && lm < 10 && cm < 10
    requires low == 10 * lq + lm && 6 * hm + lm == 10 * cq + cm
    ensures lq + hm * 1844674407370955161 + cq < TWO_TO_64
    ensures 10 * (lq + hm * 1844674407370955161 + cq) + cm == hm * TWO_TO_64 + low
  {
  }

  lemma SmallStaysItself(x: nat)
    requires x < TWO_TO_64
    ensures Wrap(x) == x
  {
  }

  /** No intermediate result overflows, and the division is exact. */
  lemma DivideBy10IsExact(high: nat, low: nat)
    requires high < TWO_TO_64 && low < TWO_TO_64
    ensures var (h, l, d) := DivideBy10(high, low);
      && 6 * (high % 10) + low % 10 < TWO_TO_64
      && low / 10 + (high % 10) * 1844674407370955161 + (6 * (high % 10) + low % 10) / 10 < TWO_TO_64
      && h < TWO_TO_64 && l < TWO_TO_64 && d < 10
      && high * TWO_TO_64 + low == 10 * (h * TWO_TO_64 + l) + d
  {
    var hm, lq, lm := high % 10, low / 10, low % 10;
    var carry := 6 * hm + lm;
    LongDivision(low, hm, lq, lm, carry / 10, carry % 10);
    SmallStaysItself(6 * hm);
    SmallStaysItself(carry);
    SmallStaysItself(hm * 1844674407370955161);
    SmallStaysItself(lq + hm * 1844674407370955161);
    SmallStaysItself(lq + hm * 1844674407370955161 + carry / 10);
    assert high == 10 * (high / 10) + hm;
  }

  // ---------------------------------------------------------------- printing

  /** `tail` is what is left of the numeral of `v` when `rest` is still to be printed. */
  predicate Printed(v: nat, rest: nat, tail: seq<char>) {
    Numeral(v) == (if rest == 0 then [] else Numeral(rest)) + tail
  }

  lemma OneDigit(v: nat, rest: nat, quotient: nat, d: nat, tail: seq<char>)
    requires Printed(v, rest, tail) && rest > 0 && d < 10 && rest == 10 * quotient + d
    ensures Printed(v, quotient, [DigitOf(d)] + tail)
    ensures |Numeral(v)| > |tail|
  {
    assert rest / 10 == quotient && rest % 10 == d;
    if rest >= 10 {
      assert Numeral(rest) + tail == Numeral(quotient) + ([DigitOf(d)] + tail);
    }
  }

  function Whole(high: nat, low: nat): nat { high * TWO_TO_64 + low }

  /** The loop body: writes one digit in front of those already there. */
  method PrintDigit(buf: array<char>, p: nat, high: nat, low: nat, ghost v: nat)
    returns (h: nat, l: nat)
    requires buf.Length == 40 && p <= 39 && |Numeral(v)| <= 39
    requires high < TWO_TO_64 && low < TWO_TO_64 && Whole(high, low) > 0 && Printed(v, Whole(high, low), buf[p..39])
    modifies buf
    ensures p > 0 && h < TWO_TO_64 && l < TWO_TO_64 && Printed(v, Whole(h, l), buf[p - 1..39])
    ensures Whole(h, l) < Whole(high, low)
  {
    DivideBy10IsExact(high, low);
    var d;
    var q := DivideBy10(high, low);
    h, l, d := q.0, q.1, q.2;
    OneDigit(v, Whole(high, low), Whole(h, l), d, buf[p..39]);
    ghost var before := buf[p..39];
    buf[p - 1] := DigitOf(d);
    assert buf[p - 1..39] == [DigitOf(d)] + before;
  }

  method PrintUnsigned(v: nat) returns (s: seq<char>)
    requires v < TWO_TO_128
    ensures s == Numeral(v)
    ensures |s| <= 39
  {
    FitsBuffer();
    NumeralLength(v, 39);
    if v == 0 {
      return "0";
    }
    var buf := new char[40];
    var p: nat := 39;
    buf[p] := '\0';
    var high: nat, low: nat := v / TWO_TO_64, v % TWO_TO_64;
    while high != 0 || low != 0
      invariant high < TWO_TO_64 && low < TWO_TO_64 && p <= 39
      invariant Printed(v, Whole(high, low), buf[p..39])
      decreases Whole(high, low)
    {
      high, low := PrintDigit(buf, p, high, low, v);
      p := p - 1;
    }
    s := buf[p..39];
  }

  /** Conversion to the unsigned type, and negation there. */
  function AsUnsigned(v: int): nat { v % TWO_TO_128 }

  function Negated(uv: nat): nat
    requires uv < TWO_TO_128
  {
    (TWO_TO_128 - uv) % TWO_TO_128
  }

  lemma Remainder(v: int, m: nat)
    requires -(m as int) < v < m
    ensures v % m == if v < 0 then v + m else v
  {
  }

  lemma NegatedIsMagnitude(v: int)
    requires -(TWO_TO_127 as int) <= v < 0
    ensures Negated(AsUnsigned(v)) == -v
  {
    Remainder(v, TWO_TO_128);
    Remainder(-v, TWO_TO_128);
  }

  /** The most negative number included. */
  method PrintSigned(v: int) returns (s: seq<char>)
    requires -(TWO_TO_127 as int) <= v < TWO_TO_127
    ensures s == if v < 0 then "-" + Numeral(-v) else Numeral(v)
  {
    var uv := AsUnsigned(v);
    s := "";
    if v < 0 {
      NegatedIsMagnitude(v);
      s := "-";
      uv := Negated(uv);
    } else {
      Remainder(v, TWO_TO_128);
    }
    var digits := PrintUnsigned(uv);
    s := s + digits;
  }
}
