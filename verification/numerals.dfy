/** Numerals as vsnprintf prints them (klibc.c), and reading them back. */
module Numerals {
  import opened CArithmetic
  import opened Products

  type Digit = d: nat | d < 16

  function DigitChar(d: Digit): char {
    if d < 10 then '0' + d as char else 'a' + (d - 10) as char
  }

  function DigitValue(c: char): nat {
    if '0' <= c <= '9' then (c - '0') as nat else if 'a' <= c <= 'f' then (c - 'a') as nat + 10 else 0
  }

  lemma DigitReadsBack(d: Digit)
    ensures DigitValue(DigitChar(d)) == d
  {}

  const DIGITS: string := "0123456789abcdef"

  lemma DigitIs(d: Digit)
    ensures DigitChar(d) == DIGITS[d]
  {}

  /** The numeral of a number, without leading zeros. */
  function Digits(n: nat, base: nat): (s: string)
    requires 2 <= base <= 16
    ensures |s| > 0
  {
    if n < base then [DigitChar(n)]
    else
      Shrinks(n, base);
      Digits(n / base, base) + [DigitChar(n % base)]
  }

  lemma Shrinks(n: nat, base: nat)
    requires 2 <= base <= n
    ensures 0 <= n / base < n && 0 <= n % base < base
  {
    Divided(n, base);
    if n / base >= n {
      Times(n, n / base, base);
      Times(2, base, n);
      SwapFactors(base, n);
      SwapFactors(base, n / base);
    }
  }

  /** The number a numeral stands for. */
  function Value(s: string, base: nat): nat {
    if s == "" then 0 else Value(s[..|s| - 1], base) * base + DigitValue(s[|s| - 1])
  }

  /** What is printed reads back. */
  lemma {:induction false} DigitsReadBack(n: nat, base: nat)
    requires 2 <= base <= 16
    ensures Value(Digits(n, base), base) == n
  {
    if n < base {
      DigitReadsBack(n);
      assert Value("", base) == 0;
      assert Digits(n, base)[..0] == "";
    } else {
      Shrinks(n, base);
      DigitsReadBack(n / base, base);
      DigitReadsBack(n % base);
      var s := Digits(n / base, base);
      assert Digits(n, base)[..|s|] == s;
      Divided(n, base);
      SwapFactors(base, n / base);
    }
  }

  /** A numeral in the ordinary sense: lower-case digits of the base, no leading zero, and the right value. */
  ghost predicate IsNumeral(s: string, base: nat, n: nat)
    requires base <= 16
  {
    && s != "" && (forall c :: c in s ==> c in DIGITS[..base])
    && (s[0] == '0' ==> s == "0") && Value(s, base) == n
  }

  lemma {:induction false} DigitsAreNumeral(n: nat, base: nat)
    requires 2 <= base <= 16
    ensures IsNumeral(Digits(n, base), base, n)
  {
    DigitsReadBack(n, base);
    if n < base {
      DigitIs(n);
      assert Digits(n, base) == [DIGITS[..base][n]];
      assert DigitValue(DigitChar(n)) == n;
    } else {
      Shrinks(n, base);
      DigitsAreNumeral(n / base, base);
      DigitIs(n % base);
      var d := n % base;
      assert DIGITS[..base][d] == DigitChar(d);
      var s := Digits(n / base, base);
      assert Digits(n, base) == s + [DigitChar(d)] && s[0] == Digits(n, base)[0];
      QuotientIsPositive(n, base);
      ZeroValue(base);
    }
  }

  lemma QuotientIsPositive(n: nat, base: nat)
    requires 2 <= base <= n
    ensures n / base > 0
  {
    Divided(n, base);
    var q := n / base;
    if q <= 0 { Times(q, 0, base); }
  }

  lemma ZeroValue(base: nat)
    ensures Value("0", base) == 0
  {
    assert "0"[..0] == "";
  }

  function Abs(i: int): nat { if i < 0 then -i else i }

  /** A signed number: a minus sign, then its size. */
  function Signed(i: int): string {
    (if i < 0 then "-" else "") + Digits(Abs(i), 10)
  }

  lemma SignedIsNumeral(i: int)
    ensures i >= 0 ==> IsNumeral(Signed(i), 10, i)
    ensures i < 0 ==> Signed(i) != "" && Signed(i)[0] == '-' && IsNumeral(Signed(i)[1..], 10, -i)
  {
    DigitsAreNumeral(Abs(i), 10);
    hide Digits;
    if i < 0 {
      assert Signed(i)[1..] == Digits(Abs(i), 10);
    } else {
      assert Signed(i) == Digits(i, 10);
    }
  }

  function SignedValue(s: string): int {
    if s != "" && s[0] == '-' then -(Value(s[1..], 10) as int) else Value(s, 10)
  }

  lemma {:induction false} FirstIsDigit(n: nat, base: nat)
    requires 2 <= base <= 16
    ensures Digits(n, base)[0] != '-'
  {
    if n >= base {
      Shrinks(n, base);
      FirstIsDigit(n / base, base);
    }
  }

  /** Signed numerals read back too, the smallest number included. */
  lemma SignedReadsBack(i: int)
    ensures SignedValue(Signed(i)) == i
  {
    DigitsReadBack(Abs(i), 10);
    FirstIsDigit(Abs(i), 10);
    if i < 0 {
      assert Signed(i)[1..] == Digits(Abs(i), 10);
    } else {
      assert Signed(i) == Digits(i, 10);
    }
  }

  /** C quotients and remainders of a negative number are those of its size. */
  lemma SizeOfQuotient(i: int)
    ensures Abs(Quot(i, 10)) == Abs(i) / 10 && Abs(Rem(i, 10)) == Abs(i) % 10
  {}

  function Power(base: nat, k: nat): nat {
    if k == 0 then 1 else base * Power(base, k - 1)
  }

  /** Numbers below a power of ten have no more digits than its exponent. */
  lemma {:induction false} FewDigits(n: nat, k: nat)
    requires k > 0 && n < Power(10, k)
    ensures |Digits(n, 10)| <= k
  {
    if n >= 10 {
      assert k > 1 && Power(10, k) == 10 * Power(10, k - 1);
      FewDigits(n / 10, k - 1);
    }
  }

  lemma Fits()
    ensures 0x1_0000_0000 <= Power(10, 10) && 0x1_0000_0000_0000_0000 <= Power(10, 20)
  {
    assert Power(10, 2) == 100;
    assert Power(10, 4) == 10000;
    assert Power(10, 6) == 1000000;
    assert Power(10, 8) == 100000000;
    assert Power(10, 10) == 10000000000;
    assert Power(10, 12) == 1000000000000;
    assert Power(10, 14) == 100000000000000;
    assert Power(10, 16) == 10000000000000000;
    assert Power(10, 18) == 1000000000000000000;
    assert Power(10, 20) == 100000000000000000000;
  }

  const W64: nat := 0x1_0000_0000_0000_0000
  const TOP_NIBBLE: nat := 0x1000_0000_0000_0000

  /** ((h << (4 * x)) >> 60) & 0xf, in 64 bits. */
  function Nibble(h: nat, x: nat): (d: nat)
    ensures d < 16
  {
    h * Power(16, x) % W64 / TOP_NIBBLE % 16
  }

  /** The nibbles from the top are the digits from the left: what is above the next one, then the next one. */
  lemma NibbleIsDigit(h: nat, x: nat)
    requires h < W64 && x < 16
    ensures Power(16, 15 - x) > 0 && Power(16, 16 - x) > 0
    ensures h / Power(16, 15 - x) == h / Power(16, 16 - x) * 16 + Nibble(h, x)
  {
    var u, v, w := Power(16, x), Power(16, 15 - x), Power(16, 16 - x);
    PowerPositive(15 - x);
    PowerPositive(x);
    assert w == 16 * v;
    PowerSplits(x, 15 - x);
    PowerSplits(x, 16 - x);
    SixteenPowers();
    var a, b := h / w, h % w;
    Divided(h, w);
    var d, c := b / v, b % v;
    Divided(b, v);
    NextDigit(h, v, a, d, c);
    ShiftedOut(h, u, v, a, d, c);
    assert Nibble(h, x) == d;
  }

  lemma {:induction false} PowerPositive(k: nat)
    ensures Power(16, k) > 0
  {
    if k > 0 {
      PowerPositive(k - 1);
    }
  }

  lemma {:induction false} PowerSplits(j: nat, k: nat)
    ensures Power(16, j) * Power(16, k) == Power(16, j + k)
  {
    if j > 0 {
      PowerSplits(j - 1, k);
      Regroup(16, Power(16, j - 1), Power(16, k));
    }
  }

  lemma Regroup(a: int, b: int, c: int)
    ensures a * b * c == a * (b * c)
  {}

  lemma SixteenPowers()
    ensures Power(16, 15) == TOP_NIBBLE && Power(16, 16) == W64
  {
    assert Power(16, 2) == 0x100;
    assert Power(16, 4) == 0x1_0000;
    assert Power(16, 6) == 0x100_0000;
    assert Power(16, 8) == 0x1_0000_0000;
    assert Power(16, 10) == 0x100_0000_0000;
    assert Power(16, 12) == 0x1_0000_0000_0000;
    assert Power(16, 14) == 0x100_0000_0000_0000;
  }

  lemma NextDigit(h: nat, v: nat, a: nat, d: nat, c: nat)
    requires v > 0 && h == 16 * v * a + (v * d + c) && c < v && v * d + c < 16 * v
    ensures h / v == a * 16 + d && d < 16
  {
    if d >= 16 { Times(16, d, v); }
    assert h == v * (16 * a + d) + c;
    QuotientIs(h, v, 16 * a + d, c);
  }

  lemma ShiftedOut(h: nat, u: nat, v: nat, a: nat, d: nat, c: nat)
    requires u > 0 && v > 0 && u * v == TOP_NIBBLE && u * (16 * v) == W64 && d < 16 && c < v
    requires h == 16 * v * a + (v * d + c)
    ensures h * u % W64 / TOP_NIBBLE % 16 == d
  {
    var low := TOP_NIBBLE * d + u * c;
    Expanded(h, u, v, a, d, c);
    Times(c + 1, v, u);
    Plus(c, u);
    SwapFactors(u, v);
    SwapFactors(u, c);
    QuotientIs(h * u, W64, a, low);
    Divided(h * u, W64);
    QuotientIs(low, TOP_NIBBLE, d, u * c);
  }

  lemma Expanded(h: nat, u: nat, v: nat, a: nat, d: nat, c: nat)
    requires h == 16 * v * a + (v * d + c)
    ensures h * u == u * (16 * v) * a + (u * v * d + u * c)
  {
    assert u * (16 * v * a) == u * (16 * v) * a;
    assert u * (v * d) == u * v * d;
    Distributes(16 * v * a, v * d + c, u);
    Distributes(v * d, c, u);
  }
}
