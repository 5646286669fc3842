// milliunits.go: amounts in thousandths of a currency unit, carried as int64. Parsing,
// printing and the even split.
module Milliunits {
  import opened Basics
  import opened GoInt
  import opened Decimal
  import opened Permutations

  /** Milliunits.Add; wraps on overflow as Go's + does. */
  function Add(m: int64, o: int64): int64 { Wrap(m + o) }

  /** Milliunits.Abs; -m wraps for the minimum. */
  function Abs(m: int64): int64 { if m < 0 then Wrap(0 - m) else m }

  /** The absolute value as a uint64, by the source's three cases. */
  function Magnitude(m: int64): (u: uint64)
    ensures m < 0 ==> u == 0 - m
    ensures m >= 0 ==> u == m
  {
    if m >= 0 then WrapU(m)
    else if m == -TWO63 then TWO63
    else WrapU(Wrap(0 - m))
  }

  /** Milliunits.String: exactly three decimals. */
  function Text(m: int64): string {
    var u := Magnitude(m);
    var s := Numeral(u / 1000) + "." + ZeroPadded(u % 1000, 3);
    if m < 0 then "-" + s else s
  }

  /** The position of the first c, or |s| when there is none (strings.Cut's split point). */
  function IndexOf(s: string, c: char): (i: nat)
    ensures i <= |s| && c !in s[..i]
    ensures i < |s| ==> s[i] == c
  {
    if s == [] || s[0] == c then 0
    else
      var j := IndexOf(s[1..], c);
      assert s[..j + 1] == [s[0]] + s[1..][..j];
      j + 1
  }

  /** The plain milliunit digits: the fraction filled up to three places, the point gone. */
  function Normalized(intPart: string, frac: string): string
    requires |frac| <= 3
  {
    intPart + frac + Zeros(3 - |frac|)
  }

  function SignOf(s: string): string { s[..SignLength(s)] }

  function NumberOf(s: string): string { s[SignLength(s)..] }

  function HasFraction(num: string): bool { IndexOf(num, '.') < |num| }

  function IntegerOf(num: string): string { num[..IndexOf(num, '.')] }

  function FractionOf(num: string): string {
    if HasFraction(num) then num[IndexOf(num, '.') + 1..] else ""
  }

  /** ParseMilliunits; None stands for the parse error. */
  function Parse(s: string): (r: Option<int64>) {
    var num := NumberOf(s);
    var frac := FractionOf(num);
    if IntegerOf(num) == "" || (HasFraction(num) && (frac == "" || |frac| > 3)) then None
    else ParseInt(SignOf(s) + Normalized(IntegerOf(num), frac))
  }

  // ----- what Parse accepts

  /** s is an optional sign, digits, and optionally a point with one to three digits. */
  ghost predicate AmountText(s: string, sign: string, intPart: string, frac: string) {
    && (sign == "" || sign == "+" || sign == "-")
    && intPart != "" && AllDigits(intPart) && AllDigits(frac) && |frac| <= 3
    && s == sign + intPart + (if frac == "" then "" else "." + frac)
  }

  /** The exact number of thousandths such a text denotes. */
  ghost function Thousandths(sign: string, intPart: string, frac: string): int
    requires AllDigits(intPart) && AllDigits(frac) && |frac| <= 3
  {
    (if sign == "-" then -1 else 1) * (1000 * Value(intPart) + Value(frac) * Pow10(3 - |frac|))
  }

  lemma {:induction false} IndexOfAppend(a: string, b: string, c: char)
    requires c !in a && (b == [] || b[0] == c)
    ensures IndexOf(a + b, c) == |a|
  {
    if a != [] {
      assert (a + b)[1..] == a[1..] + b;
      IndexOfAppend(a[1..], b, c);
    }
  }

  lemma ParseSigned(sign: string, digits: string)
    requires sign == "" || sign == "+" || sign == "-"
    requires digits != "" && AllDigits(digits)
    ensures var v := (if sign == "-" then -1 else 1) * Value(digits);
            ParseInt(sign + digits) == if Fits64(v) then Some(v) else None
  {
    assert IsDigit(digits[0]);
    var t := sign + digits;
    assert t[0] == if sign == "" then digits[0] else sign[0];
    assert t[SignLength(t)..] == digits;
  }

  lemma ValueNormalized(intPart: string, frac: string)
    requires AllDigits(intPart) && AllDigits(frac) && |frac| <= 3
    ensures var digits := Normalized(intPart, frac);
            && AllDigits(digits)
            && Value(digits) == 1000 * Value(intPart) + Value(frac) * Pow10(3 - |frac|)
  {
    var k := 3 - |frac|;
    ValueConcat(intPart, frac);
    ValueFilled(intPart + frac, k);
    ScaleToThousand(Value(intPart + frac), Value(intPart), Value(frac), |frac|);
  }

  lemma ValueFilled(s: string, k: nat)
    requires AllDigits(s)
    ensures AllDigits(s + Zeros(k)) && Value(s + Zeros(k)) == Value(s) * Pow10(k)
  {
    ValueConcat(s, Zeros(k));
    ValueZeros(k);
  }

  lemma ScaleToThousand(v: nat, i: nat, f: nat, k: nat)
    requires k <= 3 && v == i * Pow10(k) + f
    ensures v * Pow10(3 - k) == 1000 * i + f * Pow10(3 - k)
  {
    PowersOfTen();
    assert k == 0 || k == 1 || k == 2 || k == 3;
  }

  /** What strconv sees once the point is dropped and the fraction filled up. */
  lemma ParseNormalized(sign: string, intPart: string, frac: string)
    requires sign == "" || sign == "+" || sign == "-"
    requires intPart != "" && AllDigits(intPart) && AllDigits(frac) && |frac| <= 3
    ensures var v := Thousandths(sign, intPart, frac);
            ParseInt(sign + Normalized(intPart, frac)) == if Fits64(v) then Some(v) else None
  {
    ValueNormalized(intPart, frac);
    ParseSigned(sign, Normalized(intPart, frac));
  }

  lemma PowersOfTen()
    ensures Pow10(0) == 1 && Pow10(1) == 10 && Pow10(2) == 100 && Pow10(3) == 1000
  {
  }

  /** Cutting an amount text gives back its pieces. */
  lemma PiecesOfText(s: string, sign: string, intPart: string, frac: string)
    requires AmountText(s, sign, intPart, frac)
    ensures SignOf(s) == sign
    ensures var num := NumberOf(s);
            IntegerOf(num) == intPart && FractionOf(num) == frac && (HasFraction(num) <==> frac != "")
  {
    var tail := if frac == "" then "" else "." + frac;
    SignSplits(s, sign, intPart + tail);
    NumberSplits(intPart, frac);
  }

  lemma SignSplits(s: string, sign: string, num: string)
    requires sign == "" || sign == "+" || sign == "-"
    requires num != "" && IsDigit(num[0]) && s == sign + num
    ensures SignOf(s) == sign && NumberOf(s) == num
  {
    assert s[0] == if sign == "" then num[0] else sign[0];
  }

  lemma NumberSplits(intPart: string, frac: string)
    requires AllDigits(intPart)
    ensures var num := intPart + if frac == "" then "" else "." + frac;
            IntegerOf(num) == intPart && FractionOf(num) == frac && (HasFraction(num) <==> frac != "")
  {
    var tail := if frac == "" then "" else "." + frac;
    var num := intPart + tail;
    NoPointInDigits(intPart);
    IndexOfAppend(intPart, tail, '.');
    if frac != "" { assert num[|intPart| + 1..] == frac; }
  }

  lemma NoPointInDigits(s: string)
    requires AllDigits(s)
    ensures '.' !in s
  {
  }

  /**
   * Every amount text is parsed, and to the exact value it denotes, unless that value needs more
   * than 63 bits; then it is refused.
   */
  lemma ParseComplete(s: string, sign: string, intPart: string, frac: string)
    requires AmountText(s, sign, intPart, frac)
    ensures var v := Thousandths(sign, intPart, frac);
            Parse(s) == if Fits64(v) then Some(v) else None
  {
    PiecesOfText(s, sign, intPart, frac);
    ParseNormalized(sign, intPart, frac);
  }

  /** Nothing else is parsed: whatever Parse accepts is an amount text with that value. */
  lemma ParseSound(s: string)
    requires Parse(s).Some?
    ensures exists sign, intPart, frac ::
              AmountText(s, sign, intPart, frac) && Parse(s) == Some(Thousandths(sign, intPart, frac))
  {
    var num := NumberOf(s);
    var sign, intPart, frac := SignOf(s), IntegerOf(num), FractionOf(num);
    Reassembled(s);
    DigitsBehindSign(s, sign, Normalized(intPart, frac));
    NormalizedDigits(intPart, frac);
    assert AmountText(s, sign, intPart, frac);
    ParseComplete(s, sign, intPart, frac);
  }

  lemma Reassembled(s: string)
    ensures var num := NumberOf(s);
            s == SignOf(s) + IntegerOf(num) + (if HasFraction(num) then "." + FractionOf(num) else "")
  {
    var num := NumberOf(s);
    var rest := if HasFraction(num) then "." + FractionOf(num) else "";
    NumberReassembled(num);
    Associate(SignOf(s), IntegerOf(num), rest);
  }

  lemma NumberReassembled(num: string)
    ensures num == IntegerOf(num) + if HasFraction(num) then "." + FractionOf(num) else ""
  {
  }

  lemma DigitsBehindSign(s: string, sign: string, digits: string)
    requires sign == SignOf(s) && ParseInt(sign + digits).Some?
    requires |sign| == 0 ==> digits != "" && |s| > 0 && digits[0] == s[0]
    ensures AllDigits(digits)
  {
    var t := sign + digits;
    assert SignLength(t) == |sign|;
    assert t[SignLength(t)..] == digits;
  }

  lemma NormalizedDigits(intPart: string, frac: string)
    requires |frac| <= 3 && AllDigits(Normalized(intPart, frac))
    ensures AllDigits(intPart) && AllDigits(frac)
  {
    var digits := Normalized(intPart, frac);
    assert forall i | 0 <= i < |intPart| :: intPart[i] == digits[i];
    assert forall i | 0 <= i < |frac| :: frac[i] == digits[|intPart| + i];
  }

  /** Printing and parsing undo each other for every int64, the minimum included. */
  lemma ParseText(m: int64)
    ensures Parse(Text(m)) == Some(m)
  {
    var u := Magnitude(m);
    var sign := if m < 0 then "-" else "";
    var intPart, frac := Numeral(u / 1000), ZeroPadded(u % 1000, 3);
    FractionWidth(u % 1000);
    TextShape(m, sign, intPart, frac);
    ParseComplete(Text(m), sign, intPart, frac);
    TextValue(u);
  }

  /** Sign for negative amounts only, whole units without superfluous zeros, and exactly three decimals. */
  lemma TextForm(m: int64) returns (sign: string, intPart: string, frac: string)
    ensures Text(m) == sign + intPart + "." + frac
    ensures sign == if m < 0 then "-" else ""
    ensures AllDigits(intPart) && intPart != "" && (|intPart| > 1 ==> intPart[0] != '0')
    ensures AllDigits(frac) && |frac| == 3
    ensures (1000 * Value(intPart) + Value(frac)) * (if m < 0 then -1 else 1) == m
  {
    var u := Magnitude(m);
    sign, intPart, frac := if m < 0 then "-" else "", Numeral(u / 1000), ZeroPadded(u % 1000, 3);
    FractionWidth(u % 1000);
    NoLeadingZero(u / 1000);
    ValueNumeral(u / 1000);
    ValueZeroPadded(u % 1000, 3);
    if m >= 0 { assert "" + Text(m) == Text(m); }
    Associate(sign, intPart, ".");
    Associate(sign, intPart + ".", frac);
  }

  lemma TextShape(m: int64, sign: string, intPart: string, frac: string)
    requires sign == if m < 0 then "-" else ""
    requires intPart == Numeral(Magnitude(m) / 1000) && frac == ZeroPadded(Magnitude(m) % 1000, 3) && |frac| == 3
    ensures AmountText(Text(m), sign, intPart, frac)
  {
    Associate(intPart, ".", frac);
    Associate(sign, intPart, "." + frac);
    assert Text(m) == sign + (intPart + "." + frac) by { if m >= 0 { assert "" + Text(m) == Text(m); } }
  }

  lemma FractionWidth(f: nat)
    requires f < 1000
    ensures |ZeroPadded(f, 3)| == 3
  {
    PowersOfTen();
    ZeroPaddedWidth(f, 3);
  }

  lemma TextValue(u: nat)
    ensures 1000 * Value(Numeral(u / 1000)) + Value(ZeroPadded(u % 1000, 3)) * Pow10(0) == u
  {
    ValueNumeral(u / 1000);
    ValueZeroPadded(u % 1000, 3);
  }
}
