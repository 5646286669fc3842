// Milliunits.Format (milliunits.go): rendering an amount in a plan's currency format.
module MoneyFormat {
  import opened Arithmetic
  import opened GoInt
  import opened Decimal
  import Milliunits

  /** The members of CurrencyFormat that Format reads. */
  datatype CurrencyFormat = CurrencyFormat(
    decimalDigits: int,
    decimalSeparator: string,
    symbolFirst: bool,
    groupSeparator: string,
    currencySymbol: string,
    displaySymbol: bool)

  /** The decimals shown: DecimalDigits, brought into 0..10. */
  function Clamped(d: int): (r: nat)
    ensures r <= 10
    ensures 0 <= d <= 10 ==> r == d
    ensures d < 0 ==> r == 0
    ensures d > 10 ==> r == 10
  {
    if d < 0 then 0 else if d > 10 then 10 else d
  }

  /** u / div rounded to the nearest integer, ties upward. */
  function HalfUp(u: nat, div: nat): nat
    requires div > 0
  {
    (u + div / 2) / div
  }

  /** The magnitude as an exact integer count of the last decimal place shown. */
  function ExactScaled(m: int64, digits: nat): nat {
    if digits <= 3 then HalfUp(Milliunits.Magnitude(m), Pow10(3 - digits))
    else Milliunits.Magnitude(m) * Pow10(digits - 3)
  }

  /** The same count in uint64 arithmetic, as Format computes it. */
  function Scaled(m: int64, digits: nat): uint64 { WrapU(ExactScaled(m, digits)) }

  /** s with sep before every third digit counted from the right. */
  function Grouped(s: string, sep: string): string {
    if |s| <= 3 then s else Grouped(s[..|s| - 3], sep) + sep + s[|s| - 3..]
  }

  /** The number part: grouped integer digits, then the fraction padded to its full width. */
  function NumberText(u: nat, digits: nat, f: CurrencyFormat): string {
    Grouped(WholePart(u, digits), f.groupSeparator)
    + if digits == 0 then "" else f.decimalSeparator + FractionPart(u, digits)
  }

  /** Sign, leading symbol, number, trailing symbol. */
  function Laid(negative: bool, number: string, f: CurrencyFormat): string {
    (if negative then "-" else "")
    + (if f.displaySymbol && f.symbolFirst then f.currencySymbol else "")
    + number
    + (if f.displaySymbol && !f.symbolFirst then f.currencySymbol else "")
  }

  /** The whole rendering. */
  function FormatText(m: int64, f: CurrencyFormat): string {
    var digits := Clamped(f.decimalDigits);
    Laid(m < 0, NumberText(Scaled(m, digits), digits, f), f)
  }

  /** pow10: ten to the n by repeated uint64 multiplication. */
  method PowerOfTen(n: nat) returns (p: uint64)
    ensures p == WrapU(Pow10(n))
  {
    p := 1;
    for i := 0 to n
      invariant p == WrapU(Pow10(i))
    {
      WrapTenfold(Pow10(i));
      p := WrapU(p * 10);
    }
  }

  /** groupDigits: a left-to-right pass that writes the short leading group, then threes. */
  method GroupDigits(s: string, sep: string) returns (r: string)
    ensures r == Grouped(s, sep)
  {
    if sep == "" || |s| <= 3 {
      if sep == "" { GroupedNoSeparator(s); }
      return s;
    }
    var b := "";
    var lead := |s| % 3;
    if lead > 0 {
      b := b + s[..lead];
    }
    var i := lead;
    ghost var groups := |s| / 3;
    while i < |s|
      invariant i <= |s| && |s| - i == 3 * groups
      invariant b == Grouped(s[..i], sep) && (b == "" <==> i == 0)
      decreases groups
    {
      if |b| > 0 {
        b := b + sep;
      }
      b := b + s[i..i + 3];
      assert s[..i + 3][..i] == s[..i] && s[..i + 3][i..] == s[i..i + 3];
      i := i + 3;
      groups := groups - 1;
    }
    assert s[..i] == s;
    return b;
  }

  /** Format's first half: the magnitude rescaled to the decimals shown. */
  method Rescale(m: int64, digits: nat) returns (u: uint64)
    requires digits <= 10
    ensures u == Scaled(m, digits)
  {
    u := Milliunits.Magnitude(m);
    if digits <= 3 {
      SmallPower(3 - digits);
      RoundedDown(m, digits);
      var div := PowerOfTen(3 - digits);
      u := WrapU(u + div / 2) / div;
    } else {
      SmallPower(digits - 3);
      var factor := PowerOfTen(digits - 3);
      u := WrapU(u * factor);
    }
  }

  /** The number part as Format builds it. */
  method NumberOf(u: uint64, digits: nat, f: CurrencyFormat) returns (number: string)
    requires digits <= 10
    ensures number == NumberText(u, digits, f)
  {
    SmallPower(digits);
    var scale := PowerOfTen(digits);
    QuotientIsNat(u, scale);
    number := GroupDigits(Numeral(u / scale), f.groupSeparator);
    if digits > 0 {
      var tail := FractionOf(u % scale, digits);
      number := number + (f.decimalSeparator + tail);
    } else {
      assert number + "" == number;
    }
  }

  /** The padding count handed to Zeros is what strings.Repeat would panic on if negative. */
  method FractionOf(rest: uint64, digits: nat) returns (tail: string)
    requires digits > 0 && rest < Pow10(digits)
    ensures tail == ZeroPadded(rest, digits)
  {
    var frac := Numeral(rest);
    NumeralLength(rest, digits);
    tail := Zeros(digits - |frac|) + frac;
  }

  /** Format's last part: sign, symbol and number written to a builder in turn. */
  method Assemble(negative: bool, number: string, f: CurrencyFormat) returns (text: string)
    ensures text == Laid(negative, number, f)
  {
    var b := "";
    if negative {
      b := b + "-";
    }
    if f.displaySymbol && f.symbolFirst {
      b := b + f.currencySymbol;
    }
    b := b + number;
    if f.displaySymbol && !f.symbolFirst {
      b := b + f.currencySymbol;
    }
    text := b;
  }

  /** Format. */
  method Format(m: int64, f: CurrencyFormat) returns (text: string)
    ensures text == FormatText(m, f)
  {
    var digits := Clamped(f.decimalDigits);
    var u := Rescale(m, digits);
    var number := NumberOf(u, digits, f);
    text := Assemble(m < 0, number, f);
  }

  lemma SmallPower(k: nat)
    requires k <= 10
    ensures Pow10(k) < TWO64
  {
    Pow10Monotone(k, 10);
    assert Pow10(5) == 100000;
    assert Pow10(10) == 10000000000;
  }

  lemma RoundedDown(m: int64, digits: nat)
    requires digits <= 3
    ensures var div := Pow10(3 - digits);
            && WrapU(Milliunits.Magnitude(m) + div / 2) / div == Scaled(m, digits)
  {
    ScaledFits(m, digits);
  }

  lemma ScaledFits(m: int64, digits: nat)
    requires digits <= 3
    ensures Milliunits.Magnitude(m) + Pow10(3 - digits) / 2 < TWO64
    ensures ExactScaled(m, digits) < TWO64
  {
    Milliunits.PowersOfTen();
    assert digits == 0 || digits == 1 || digits == 2 || digits == 3;
  }

  lemma {:induction false} GroupedNoSeparator(s: string)
    ensures Grouped(s, "") == s
  {
    if |s| > 3 { GroupedNoSeparator(s[..|s| - 3]); }
  }

  // ----- what the rendering says

  /** Rounding is to the nearest count, and away from zero on a tie. */
  lemma RoundsHalfAway(m: int64, digits: nat)
    requires digits <= 3
    ensures var unit := Pow10(3 - digits);
            var q := ExactScaled(m, digits);
            2 * q * unit - unit <= 2 * Milliunits.Magnitude(m) < 2 * q * unit + unit
  {
    Milliunits.PowersOfTen();
    assert digits == 0 || digits == 1 || digits == 2 || digits == 3;
  }

  function OnlyDigits(s: string): string {
    if s == [] then "" else OnlyDigits(s[..|s| - 1]) + if IsDigit(s[|s| - 1]) then [s[|s| - 1]] else ""
  }

  predicate DigitFree(s: string) { forall c | c in s :: !IsDigit(c) }

  lemma {:induction false} OnlyDigitsConcat(a: string, b: string)
    ensures OnlyDigits(a + b) == OnlyDigits(a) + OnlyDigits(b)
  {
    if b == [] {
      assert a + b == a;
    } else {
      var b' := b[..|b| - 1];
      OnlyDigitsConcat(a, b');
      assert (a + b)[..|a + b| - 1] == a + b';
    }
  }

  lemma {:induction false} OnlyDigitsOfDigits(s: string)
    requires AllDigits(s)
    ensures OnlyDigits(s) == s
  {
    if s != [] { OnlyDigitsOfDigits(s[..|s| - 1]); }
  }

  lemma {:induction false} OnlyDigitsOfNone(s: string)
    requires DigitFree(s)
    ensures OnlyDigits(s) == ""
  {
    if s != [] { OnlyDigitsOfNone(s[..|s| - 1]); }
  }

  lemma {:induction false} OnlyDigitsGrouped(s: string, sep: string)
    requires AllDigits(s) && DigitFree(sep)
    ensures OnlyDigits(Grouped(s, sep)) == s
  {
    if |s| <= 3 {
      OnlyDigitsOfDigits(s);
    } else {
      var front, last := s[..|s| - 3], s[|s| - 3..];
      OnlyDigitsGrouped(front, sep);
      OnlyDigitsOfNone(sep);
      OnlyDigitsOfDigits(last);
      OnlyDigitsConcat(Grouped(front, sep) + sep, last);
      OnlyDigitsConcat(Grouped(front, sep), sep);
    }
  }

  lemma OnlyDigitsJoined(whole: string, sep: string, point: string, tail: string)
    requires AllDigits(whole) && AllDigits(tail) && DigitFree(sep) && DigitFree(point)
    ensures OnlyDigits(Grouped(whole, sep) + (point + tail)) == whole + tail
  {
    OnlyDigitsGrouped(whole, sep);
    OnlyDigitsBehind(point, tail);
    OnlyDigitsOfDigits(tail);
    OnlyDigitsConcat(Grouped(whole, sep), point + tail);
  }

  lemma OnlyDigitsBehind(front: string, s: string)
    requires DigitFree(front)
    ensures OnlyDigits(front + s) == OnlyDigits(s)
  {
    OnlyDigitsOfNone(front);
    OnlyDigitsConcat(front, s);
  }

  lemma OnlyDigitsNumber(u: nat, digits: nat, f: CurrencyFormat)
    requires DigitFree(f.groupSeparator) && DigitFree(f.decimalSeparator)
    ensures OnlyDigits(NumberText(u, digits, f)) == ZeroPadded(u, digits + 1)
  {
    CutNumeral(u, digits);
    var point := if digits == 0 then "" else f.decimalSeparator;
    OnlyDigitsJoined(WholePart(u, digits), f.groupSeparator, point, FractionPart(u, digits));
  }

  /** Beyond three decimals the scaled count is the amount times a power of ten, nothing rounded. */
  lemma {:induction false} ScaledUp(m: int64, digits: nat)
    requires digits >= 3
    ensures 1000 * ExactScaled(m, digits) == Milliunits.Magnitude(m) * Pow10(digits)
  {
    Milliunits.PowersOfTen();
    if digits == 3 {
      assert HalfUp(Milliunits.Magnitude(m), 1) == Milliunits.Magnitude(m);
    } else {
      ScaledUp(m, digits - 1);
      TenTimes(Milliunits.Magnitude(m), Pow10(digits - 4));
      TenTimes(Milliunits.Magnitude(m), Pow10(digits - 1));
      assert ExactScaled(m, digits) == 10 * ExactScaled(m, digits - 1) by {
        if digits == 4 { assert HalfUp(Milliunits.Magnitude(m), 1) == Milliunits.Magnitude(m); }
      }
    }
  }

  lemma TenTimes(x: int, y: int)
    ensures x * (10 * y) == 10 * (x * y)
  {
  }

  /** What stands at place j from the right: the separator at every fourth place, a digit of s elsewhere. */
  ghost predicate PlaceFilled(s: string, c: char, g: string, j: nat)
    requires j < |g|
  {
    if j % 4 == 3 then g[|g| - 1 - j] == c
    else j - j / 4 < |s| && g[|g| - 1 - j] == s[|s| - 1 - (j - j / 4)]
  }

  /** A one-character separator cuts the digits into threes from the right, and never leads. */
  lemma {:induction false} GroupedShape(s: string, c: char)
    requires s != ""
    ensures |Grouped(s, [c])| == |s| + (|s| - 1) / 3
    ensures forall j | 0 <= j < |Grouped(s, [c])| :: PlaceFilled(s, c, Grouped(s, [c]), j)
  {
    if |s| > 3 {
      var front, last := s[..|s| - 3], s[|s| - 3..];
      GroupedShape(front, c);
      forall j | 0 <= j < |Grouped(s, [c])| ensures PlaceFilled(s, c, Grouped(s, [c]), j) {
        if j < 4 { LastGroup(Grouped(front, [c]), s, c, j); } else { EarlierGroups(Grouped(front, [c]), s, c, j); }
      }
    }
  }

  lemma LastGroup(h: string, s: string, c: char, j: nat)
    requires |s| > 3 && j < 4
    ensures PlaceFilled(s, c, h + [c] + s[|s| - 3..], j)
  {
  }

  lemma EarlierGroups(h: string, s: string, c: char, j: nat)
    requires |s| > 3 && 4 <= j < |h| + 4 && PlaceFilled(s[..|s| - 3], c, h, j - 4)
    ensures PlaceFilled(s, c, h + [c] + s[|s| - 3..], j)
  {
    var g := h + [c] + s[|s| - 3..];
    assert g[|g| - 1 - j] == h[|h| - 1 - (j - 4)];
    assert (j - 4) % 4 == j % 4 && (j - 4) / 4 == j / 4 - 1;
  }

  /** The parts of a rendering and their places. */
  lemma FormatLayout(m: int64, f: CurrencyFormat) returns (whole: string, frac: string)
    ensures var digits := Clamped(f.decimalDigits);
            && AllDigits(whole) && whole != "" && AllDigits(frac) && |frac| == digits
            && whole + frac == ZeroPadded(Scaled(m, digits), digits + 1)
    ensures FormatText(m, f) ==
            (if m < 0 then "-" else "")
            + (if f.displaySymbol && f.symbolFirst then f.currencySymbol else "")
            + (Grouped(whole, f.groupSeparator) + if frac == "" then "" else f.decimalSeparator + frac)
            + (if f.displaySymbol && !f.symbolFirst then f.currencySymbol else "")
  {
    var digits := Clamped(f.decimalDigits);
    var u := Scaled(m, digits);
    whole, frac := WholePart(u, digits), FractionPart(u, digits);
    CutNumeral(u, digits);
    QuotientIsNat(u, Pow10(digits));
    if digits > 0 { ZeroPaddedWidth(u % Pow10(digits), digits); }
  }

  /**
   * The symbol goes between the sign and the number, or behind the number; otherwise the text is that
   * of the same format without a symbol.
   */
  lemma SymbolPlaced(m: int64, f: CurrencyFormat)
    requires f.displaySymbol
    ensures var bare := FormatText(m, f.(displaySymbol := false));
            if !f.symbolFirst then FormatText(m, f) == bare + f.currencySymbol
            else if m >= 0 then FormatText(m, f) == f.currencySymbol + bare
            else bare != "" && bare[0] == '-' && FormatText(m, f) == "-" + f.currencySymbol + bare[1..]
  {
    var digits := Clamped(f.decimalDigits);
    LaidSymbol(m < 0, NumberText(Scaled(m, digits), digits, f), f);
    assert NumberText(Scaled(m, digits), digits, f) ==
           NumberText(Scaled(m, digits), digits, f.(displaySymbol := false));
  }

  lemma LaidSymbol(negative: bool, number: string, f: CurrencyFormat)
    requires f.displaySymbol
    ensures var bare := Laid(negative, number, f.(displaySymbol := false));
            if !f.symbolFirst then Laid(negative, number, f) == bare + f.currencySymbol
            else if !negative then Laid(negative, number, f) == f.currencySymbol + bare
            else bare != "" && bare[0] == '-' && Laid(negative, number, f) == "-" + f.currencySymbol + bare[1..]
  {
    var bare := Laid(negative, number, f.(displaySymbol := false));
    assert bare == if negative then "-" + number else number;
    if negative { assert bare[1..] == number; }
  }

  /** A leading '-' means a negative amount, unless the symbol brings its own. */
  lemma SignFirst(m: int64, f: CurrencyFormat)
    requires '-' !in f.currencySymbol
    ensures FormatText(m, f) != "" && (FormatText(m, f)[0] == '-' <==> m < 0)
  {
    var whole, frac := FormatLayout(m, f);
    GroupedStarts(whole, f.groupSeparator);
    var lead := if f.displaySymbol && f.symbolFirst then f.currencySymbol else "";
    if m >= 0 && lead != "" { assert FormatText(m, f)[0] == lead[0]; }
    if m >= 0 && lead == "" { assert FormatText(m, f)[0] == Grouped(whole, f.groupSeparator)[0]; }
  }

  lemma {:induction false} GroupedStarts(s: string, sep: string)
    requires s != ""
    ensures Grouped(s, sep) != "" && Grouped(s, sep)[0] == s[0]
  {
    if |s| > 3 { GroupedStarts(s[..|s| - 3], sep); }
  }

  /** The digits shown are the padded numeral of the scaled count. */
  lemma FormatDigits(m: int64, f: CurrencyFormat)
    requires DigitFree(f.groupSeparator) && DigitFree(f.decimalSeparator) && DigitFree(f.currencySymbol)
    ensures var digits := Clamped(f.decimalDigits);
            OnlyDigits(FormatText(m, f)) == ZeroPadded(Scaled(m, digits), digits + 1)
  {
    var digits := Clamped(f.decimalDigits);
    OnlyDigitsNumber(Scaled(m, digits), digits, f);
    OnlyDigitsLaid(m < 0, NumberText(Scaled(m, digits), digits, f), f);
  }

  lemma OnlyDigitsLaid(negative: bool, number: string, f: CurrencyFormat)
    requires DigitFree(f.currencySymbol)
    ensures OnlyDigits(Laid(negative, number, f)) == OnlyDigits(number)
  {
    var sign := if negative then "-" else "";
    var before := if f.displaySymbol && f.symbolFirst then f.currencySymbol else "";
    var after := if f.displaySymbol && !f.symbolFirst then f.currencySymbol else "";
    assert DigitFree(sign + before);
    OnlyDigitsBehind(sign + before, number);
    OnlyDigitsOfNone(after);
    OnlyDigitsConcat(sign + before + number, after);
  }

  /**
   * Format shows the exact rounded amount if and only if the uint64 scaling does not wrap; with
   * at most three decimals it never does.
   */
  lemma FormatExact(m: int64, f: CurrencyFormat)
    requires DigitFree(f.groupSeparator) && DigitFree(f.decimalSeparator) && DigitFree(f.currencySymbol)
    ensures var digits := Clamped(f.decimalDigits);
            OnlyDigits(FormatText(m, f)) == ZeroPadded(ExactScaled(m, digits), digits + 1)
            <==> digits <= 3 || Milliunits.Magnitude(m) * Pow10(digits - 3) < TWO64
  {
    var digits := Clamped(f.decimalDigits);
    FormatDigits(m, f);
    if digits <= 3 { ScaledFits(m, digits); }
    ValueZeroPadded(Scaled(m, digits), digits + 1);
    ValueZeroPadded(ExactScaled(m, digits), digits + 1);
  }

  /** An amount the scaling does wrap on: the maximum shown with four decimals. */
  lemma FormatWraps()
    ensures ExactScaled(MAX_INT64, 4) == 92233720368547758070
    ensures Scaled(MAX_INT64, 4) == TWO64 - 10
  {
    assert Pow10(1) == 10;
  }

  /** With three decimals, a point and nothing else, Format is String. */
  lemma PlainFormatIsText(m: int64, f: CurrencyFormat)
    requires f.decimalDigits == 3 && f.decimalSeparator == "." && f.groupSeparator == "" && !f.displaySymbol
    ensures FormatText(m, f) == Milliunits.Text(m)
  {
    ScaledPlain(m);
    PlainNumber(Milliunits.Magnitude(m), f);
    PlainLaid(m < 0, NumberText(Milliunits.Magnitude(m), 3, f), f);
  }

  lemma PlainLaid(negative: bool, number: string, f: CurrencyFormat)
    requires !f.displaySymbol
    ensures Laid(negative, number, f) == if negative then "-" + number else number
  {
  }

  lemma PlainNumber(u: nat, f: CurrencyFormat)
    requires f.decimalSeparator == "." && f.groupSeparator == ""
    ensures NumberText(u, 3, f) == Numeral(u / 1000) + "." + ZeroPadded(u % 1000, 3)
  {
    PlainParts(u);
    GroupedNoSeparator(WholePart(u, 3));
  }

  lemma ScaledPlain(m: int64)
    ensures Scaled(m, 3) == Milliunits.Magnitude(m)
  {
    assert Pow10(0) == 1;
    assert HalfUp(Milliunits.Magnitude(m), 1) == Milliunits.Magnitude(m);
  }

  lemma PlainParts(u: nat)
    ensures WholePart(u, 3) == Numeral(u / 1000) && FractionPart(u, 3) == ZeroPadded(u % 1000, 3)
  {
    Milliunits.PowersOfTen();
  }
}
