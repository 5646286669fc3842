// Decimal numerals: strconv.FormatUint, fmt's %0nd and the digit part of strconv.ParseInt,
// with the laws that connect a digit string to the number it denotes.
module Decimal {
  import opened Basics
  import opened GoInt
  import opened Arithmetic
  import opened Permutations

  predicate IsDigit(c: char) { '0' <= c <= '9' }

  predicate AllDigits(s: string) { forall i | 0 <= i < |s| :: IsDigit(s[i]) }

  function DigitOf(d: int): (c: char)
    requires 0 <= d < 10
    ensures IsDigit(c)
  {
    ('0' as int + d) as char
  }

  function ValueOf(c: char): (d: int)
    requires IsDigit(c)
    ensures 0 <= d < 10 && DigitOf(d) == c
  {
    c as int - '0' as int
  }

  function Pow10(k: nat): (p: nat)
    ensures p > 0
  {
    if k == 0 then 1 else 10 * Pow10(k - 1)
  }

  /** The number a digit string denotes. */
  function Value(s: string): (v: nat)
    requires AllDigits(s)
  {
    if s == [] then 0 else 10 * Value(s[..|s| - 1]) + ValueOf(s[|s| - 1])
  }

  /** strconv.FormatUint(n, 10). */
  function Numeral(n: nat): (s: string)
    ensures AllDigits(s) && |s| > 0
  {
    if n < 10 then [DigitOf(n)] else Numeral(n / 10) + [DigitOf(n % 10)]
  }

  function Zeros(k: nat): (s: string)
    ensures |s| == k && AllDigits(s)
    ensures forall i | 0 <= i < k :: s[i] == '0'
  {
    seq(k, _ => '0')
  }

  /** fmt's %0wd for a non-negative operand. */
  function ZeroPadded(n: nat, w: nat): (s: string)
    ensures AllDigits(s) && |s| >= w && |s| > 0
  {
    var s := Numeral(n);
    if |s| < w then Zeros(w - |s|) + s else s
  }

  /** The ten digits in order, and their places. */
  lemma DigitsInOrder(c: char)
    ensures IsDigit(c) <==> '0' <= c <= '9'
    ensures forall d | 0 <= d < 10 :: DigitOf(d) == "0123456789"[d]
    ensures forall d | 0 <= d < 10 :: IsDigit("0123456789"[d]) && ValueOf("0123456789"[d]) == d
  {
    forall d | 0 <= d < 10 ensures DigitOf(d) == "0123456789"[d] { }
  }

  /** The first digit of a numeral counts most. */
  lemma Places()
    ensures AllDigits("120") && Value("120") == 120
  {
    var s := "120";
    assert s[..2] == "12" && s[..2][..1] == "1" && s[..2][..1][..0] == "";
    assert Value(s[..2][..1]) == 1 && Value(s[..2]) == 12;
  }

  /** A numeral has no superfluous leading zero. */
  lemma {:induction false} NoLeadingZero(n: nat)
    ensures |Numeral(n)| > 1 ==> Numeral(n)[0] != '0'
    ensures Numeral(n) == "0" <==> n == 0
  {
    if n >= 10 { NoLeadingZero(n / 10); }
  }

  // ----- what numerals denote

  lemma {:induction false} ValueNumeral(n: nat)
    ensures Value(Numeral(n)) == n
  {
    if n >= 10 {
      ValueNumeral(n / 10);
      var s := Numeral(n);
      assert s[..|s| - 1] == Numeral(n / 10);
    } else {
      assert Numeral(n)[..0] == [];
    }
  }

  lemma {:induction false} ValueConcat(a: string, b: string)
    requires AllDigits(a) && AllDigits(b)
    ensures AllDigits(a + b)
    ensures Value(a + b) == Value(a) * Pow10(|b|) + Value(b)
  {
    if b == [] {
      assert a + b == a;
    } else {
      var b' := b[..|b| - 1];
      ValueConcat(a, b');
      assert (a + b)[..|a + b| - 1] == a + b';
      assert (a + b)[|a + b| - 1] == b[|b| - 1];
      MulAssociates(10, Value(a), Pow10(|b'|));
    }
  }

  lemma {:induction false} ValueBound(s: string)
    requires AllDigits(s)
    ensures Value(s) < Pow10(|s|)
  {
    if s != [] { ValueBound(s[..|s| - 1]); }
  }

  lemma {:induction false} ValueZeros(k: nat)
    ensures Value(Zeros(k)) == 0
  {
    if k > 0 {
      ValueZeros(k - 1);
      assert Zeros(k)[..k - 1] == Zeros(k - 1);
    }
  }

  lemma {:induction false} LeadingZeros(k: nat, s: string)
    requires AllDigits(s)
    ensures AllDigits(Zeros(k) + s) && Value(Zeros(k) + s) == Value(s)
  {
    if s == [] {
      assert Zeros(k) + s == Zeros(k);
      ValueZeros(k);
    } else {
      LeadingZeros(k, s[..|s| - 1]);
      assert (Zeros(k) + s)[..k + |s| - 1] == Zeros(k) + s[..|s| - 1];
    }
  }

  lemma ValueZeroPadded(n: nat, w: nat)
    ensures Value(ZeroPadded(n, w)) == n
  {
    ValueNumeral(n);
    if |Numeral(n)| < w { LeadingZeros(w - |Numeral(n)|, Numeral(n)); }
  }

  // ----- lengths

  lemma {:induction false} NumeralLength(n: nat, k: nat)
    requires k > 0
    ensures |Numeral(n)| <= k <==> n < Pow10(k)
  {
    if n < 10 {
      Pow10Monotone(1, k);
    } else if k == 1 {
    } else {
      NumeralLength(n / 10, k - 1);
    }
  }

  lemma {:induction false} Pow10Monotone(i: nat, j: nat)
    requires i <= j
    ensures Pow10(i) <= Pow10(j)
  {
    if i < j { Pow10Monotone(i, j - 1); }
  }

  /** Padding that was enough stays exact: the width is w precisely when n has at most w digits. */
  lemma ZeroPaddedWidth(n: nat, w: nat)
    requires w > 0 && n < Pow10(w)
    ensures |ZeroPadded(n, w)| == w
  {
    NumeralLength(n, w);
  }

  /** A padded numeral ends in its last digit, preceded by the padded numeral of the rest. */
  lemma ZeroPaddedStep(n: nat, w: nat)
    requires w > 0
    ensures ZeroPadded(n, w + 1) == ZeroPadded(n / 10, w) + [DigitOf(n % 10)]
  {
    var s := Numeral(n);
    var t := Numeral(n / 10);
    if n < 10 {
      assert t == [DigitOf(0)] && s == [DigitOf(n)];
      assert Zeros(w) == Zeros(w - 1) + ['0'];
    } else {
      assert s == t + [DigitOf(n % 10)];
      if |t| < w {
        assert ZeroPadded(n, w + 1) == Zeros(w - |t|) + s;
      }
    }
  }

  lemma DivModTen(q: nat, p: nat)
    requires p > 0
    ensures 10 * p > 0
    ensures q / (10 * p) == (q / 10) / p
    ensures (q % (10 * p)) / 10 == (q / 10) % p
    ensures (q % (10 * p)) % 10 == q % 10
  {
    var k, r := q / (10 * p), q % (10 * p);
    assert q == 10 * (p * k) + r;
    assert q / 10 == p * k + r / 10 && q % 10 == r % 10;
    DivModUnique(q / 10, p, k, r / 10);
  }

  /** The digits before and after the decimal point when u counts units of 10^-d. */
  function WholePart(u: nat, d: nat): (s: string)
    ensures AllDigits(s)
  {
    QuotientIsNat(u, Pow10(d));
    Numeral(u / Pow10(d))
  }

  function FractionPart(u: nat, d: nat): (s: string)
    ensures AllDigits(s)
  {
    if d == 0 then "" else ZeroPadded(u % Pow10(d), d)
  }

  /**
   * Cutting a number at a power of ten cuts its numeral: the quotient's numeral followed by the
   * d-digit remainder is the whole number's numeral, padded so that one digit precedes the cut.
   */
  lemma {:induction false} CutNumeral(q: nat, d: nat)
    ensures WholePart(q, d) + FractionPart(q, d) == ZeroPadded(q, d + 1)
  {
    if d == 0 {
      assert Numeral(q) + [] == Numeral(q);
    } else {
      CutNumeral(q / 10, d - 1);
      CutStep(q, d);
      ZeroPaddedStep(q, d);
      LongerCut(WholePart(q / 10, d - 1), FractionPart(q / 10, d - 1), [DigitOf(q % 10)], ZeroPadded(q / 10, d));
    }
  }

  lemma LongerCut(whole: string, frac: string, last: string, all: string)
    requires whole + frac == all
    ensures whole + (frac + last) == all + last
  {
    Associate(whole, frac, last);
  }

  lemma CutStep(q: nat, d: nat)
    requires d > 0
    ensures WholePart(q, d) == WholePart(q / 10, d - 1)
    ensures FractionPart(q, d) == FractionPart(q / 10, d - 1) + [DigitOf(q % 10)]
  {
    DivModTen(q, Pow10(d - 1));
    if d == 1 {
      assert Pow10(1) == 10;
    } else {
      ZeroPaddedStep(q % Pow10(d), d - 1);
    }
  }

  // ----- strconv.ParseInt(s, 10, 64)

  /** The sign byte ParseInt accepts, if s starts with one. */
  function SignLength(s: string): (n: nat)
    ensures n <= |s|
  {
    if |s| > 0 && (s[0] == '+' || s[0] == '-') then 1 else 0
  }

  /** strconv.ParseInt(s, 10, 64): optional sign, at least one digit, value in range. */
  function ParseInt(s: string): (r: Option<int64>) {
    var digits := s[SignLength(s)..];
    if digits == [] || !AllDigits(digits) then None
    else
      var v := (if s[0] == '-' then -1 else 1) * Value(digits);
      if Fits64(v) then Some(v) else None
  }
}
