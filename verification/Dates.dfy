// date.go: calendar days in the wire form YYYY-MM-DD, with a zero value for "no date".
module Dates {
  import opened Basics
  import opened Decimal
  import opened Calendar

  const NO_DATE := Date(0, 0, 0)

  /** The values the package's constructors and parsers produce. */
  predicate Proper(d: Date) { d == NO_DATE || Real(d) }

  // ----- arithmetic and order

  /** NewDate; month and day may lie outside their ranges. */
  ghost function NewDate(y: int, m: int, d: int): Date { Normalized(y, m, d) }

  ghost function AddDays(d: Date, n: int): Date {
    if d == NO_DATE then d else Normalized(d.year, d.month, d.day + n)
  }

  ghost function AddMonths(d: Date, n: int): Date {
    if d == NO_DATE then d else Normalized(d.year, d.month + n, d.day)
  }

  /** cmp.Compare. */
  function CompareInt(a: int, b: int): int { if a < b then -1 else if a > b then 1 else 0 }

  function Compare(d: Date, o: Date): int {
    if d == o then 0
    else if d.year != o.year then CompareInt(d.year, o.year)
    else if d.month != o.month then CompareInt(d.month, o.month)
    else CompareInt(d.day, o.day)
  }

  /** NewDate always lands on a real day, the one the out-of-range values count to. */
  lemma NewDateNormalizes(y: int, m: int, d: int)
    ensures Real(NewDate(y, m, d))
    ensures DayNumber(NewDate(y, m, d)) == MonthStart(y, m) + d - 1
    ensures Real(Date(y, m, d)) ==> NewDate(y, m, d) == Date(y, m, d)
  {
    if Real(Date(y, m, d)) {
      CarryNothing(y, m);
      CountOrders(NewDate(y, m, d), Date(y, m, d));
    }
  }

  /** AddDays moves the day count, so it composes and undoes; it never leaves or reaches "no date". */
  lemma AddDaysCounts(d: Date, a: int, b: int)
    requires Real(d)
    ensures Real(AddDays(d, a)) && DayNumber(AddDays(d, a)) == DayNumber(d) + a
    ensures AddDays(AddDays(d, a), b) == AddDays(d, a + b)
    ensures AddDays(AddDays(d, a), -a) == d
    ensures AddDays(NO_DATE, a) == NO_DATE
  {
    AddDaysNumber(d, a);
    AddDaysNumber(d, a + b);
    AddDaysNumber(AddDays(d, a), b);
    AddDaysNumber(AddDays(d, a), -a);
    CountOrders(AddDays(AddDays(d, a), b), AddDays(d, a + b));
    CountOrders(AddDays(AddDays(d, a), -a), d);
  }

  lemma AddDaysNumber(d: Date, n: int)
    requires Real(d)
    ensures Real(AddDays(d, n)) && DayNumber(AddDays(d, n)) == DayNumber(d) + n
  {
    CarryNothing(d.year, d.month);
  }

  /** Documented results: December 40 is January 9, and January 31 plus one month rolls over into March. */
  lemma DocumentedArithmetic()
    ensures NewDate(2026, 12, 40) == Date(2027, 1, 9)
    ensures AddDays(Date(2026, 4, 30), 1) == Date(2026, 5, 1)
    ensures AddMonths(Date(2026, 1, 31), 1) == Date(2026, 3, 3)
    ensures AddMonths(NO_DATE, 1) == NO_DATE
  {
    MonthLengths(2026);
    NormalizedLands(2026, 12, 31);
    OneMoreDayOf(Date(2026, 4, 30), Date(2026, 5, 1));
    AddMonthsLands(Date(2026, 1, 31), 1);
    December40();
  }

  lemma OneMoreDayOf(d: Date, e: Date)
    requires Real(d) && e == NextDay(d)
    ensures AddDays(d, 1) == e
  {
    AddDaysNumber(d, 1);
    NextDayCounts(d);
    CountOrders(AddDays(d, 1), e);
  }

  lemma December40()
    ensures NewDate(2026, 12, 40) == Date(2027, 1, 9)
  {
    MonthLengths(2026);
    MonthLengths(2027);
    YearStep(2026);
    MonthTotals(2026);
    CountOrders(NewDate(2026, 12, 40), Date(2027, 1, 9));
  }

  function Iterated(d: Date, n: nat): (e: Date)
    requires Real(d)
    ensures Real(e)
  {
    if n == 0 then d else NextDay(Iterated(d, n - 1))
  }

  /** AddDays by n is n steps through the calendar, one day at a time. */
  lemma {:induction false} AddDaysIterates(d: Date, n: nat)
    requires Real(d)
    ensures AddDays(d, n) == Iterated(d, n)
  {
    if n == 0 {
      AddDaysNumber(d, 0);
      CountOrders(AddDays(d, 0), d);
    } else {
      AddDaysIterates(d, n - 1);
      OneMoreDay(d, n - 1);
    }
  }

  lemma OneMoreDay(d: Date, n: int)
    requires Real(d) && Real(AddDays(d, n))
    ensures AddDays(d, n + 1) == NextDay(AddDays(d, n))
  {
    AddDaysNumber(d, n);
    AddDaysNumber(d, n + 1);
    NextDayCounts(AddDays(d, n));
    CountOrders(AddDays(d, n + 1), NextDay(AddDays(d, n)));
  }

  /** Real dates compare as their day counts do. */
  lemma CompareIsChronological(a: Date, b: Date)
    requires Real(a) && Real(b)
    ensures Compare(a, b) == if DayNumber(a) < DayNumber(b) then -1 else if DayNumber(a) > DayNumber(b) then 1 else 0
  {
    CountOrders(a, b);
    CountOrders(b, a);
  }

  /** Compare is a total order on all values. */
  lemma CompareTotalOrder(a: Date, b: Date, c: Date)
    ensures Compare(a, b) == 0 <==> a == b
    ensures Compare(a, b) == -Compare(b, a)
    ensures Compare(a, b) <= 0 && Compare(b, c) <= 0 ==> Compare(a, c) <= 0
  {
  }

  /** "No date" comes before a real date exactly when that date's year is not negative. */
  lemma ZeroFirstIff(d: Date)
    requires Real(d)
    ensures Compare(NO_DATE, d) < 0 <==> d.year >= 0
  {
  }

  /** The day of a month, or of the month after when the month is too short. */
  function Spilled(y: int, m: int, day: int): Date
    requires 1 <= m <= 12
  {
    if day <= DaysIn(y, m) then Date(y, m, day)
    else if m < 12 then Date(y, m + 1, day - DaysIn(y, m))
    else Date(y + 1, 1, day - DaysIn(y, m))
  }

  lemma SpilledCount(y: int, m: int, day: int)
    requires 1 <= m <= 12 && 1 <= day <= 31
    ensures Real(Spilled(y, m, day))
    ensures DayNumber(Spilled(y, m, day)) == DaysBeforeYear(y) + DaysBeforeMonth(y, m) + day
  {
    if day > DaysIn(y, m) && m == 12 {
      YearStep(y);
      MonthTotals(y);
    }
  }

  /** A day the target month has is kept; a later one spills over into the month after. */
  lemma AddMonthsLands(d: Date, n: int)
    requires Real(d)
    ensures AddMonths(d, n) == Spilled(CarryYear(d.year, d.month + n), CarryMonth(d.month + n), d.day)
    ensures AddMonths(NO_DATE, n) == NO_DATE
  {
    NormalizedLands(d.year, d.month + n, d.day);
  }

  lemma NormalizedLands(y: int, m: int, day: int)
    requires 1 <= day <= 31
    ensures Normalized(y, m, day) == Spilled(CarryYear(y, m), CarryMonth(m), day)
  {
    var r := Normalized(y, m, day);
    DayOfCount(r, CarryYear(y, m), CarryMonth(m), day);
  }

  lemma DayOfCount(r: Date, y: int, m: int, day: int)
    requires 1 <= m <= 12 && 1 <= day <= 31
    requires Real(r) && DayNumber(r) == DaysBeforeYear(y) + DaysBeforeMonth(y, m) + day
    ensures r == Spilled(y, m, day)
  {
    SpilledCount(y, m, day);
    CountOrders(r, Spilled(y, m, day));
  }

  /** Going n months forward and back returns to the same day if and only if nothing spilled over. */
  lemma AddMonthsInverse(d: Date, n: int)
    requires Real(d)
    ensures AddMonths(AddMonths(d, n), -n) == d <==>
            d.day <= DaysIn(CarryYear(d.year, d.month + n), CarryMonth(d.month + n))
  {
    var y, m := CarryYear(d.year, d.month + n), CarryMonth(d.month + n);
    if d.day <= DaysIn(y, m) { UnspilledReturns(d, n, y, m); } else { SpilledStrays(d, n, y, m); }
  }

  lemma UnspilledReturns(d: Date, n: int, y: int, m: int)
    requires Real(d) && CarryYear(d.year, d.month + n) == y && CarryMonth(d.month + n) == m && d.day <= DaysIn(y, m)
    ensures AddMonths(AddMonths(d, n), -n) == d
  {
    LandsOn(d, n, y, m);
    BackUnspilled(d, n, Date(y, m, d.day));
  }

  lemma SpilledStrays(d: Date, n: int, y: int, m: int)
    requires Real(d) && CarryYear(d.year, d.month + n) == y && CarryMonth(d.month + n) == m && d.day > DaysIn(y, m)
    ensures AddMonths(AddMonths(d, n), -n) != d
  {
    LandsOn(d, n, y, m);
    SpilledStays(d, y, m, AddMonths(d, n), -n);
  }

  lemma SpilledStays(d: Date, y: int, m: int, e: Date, k: int)
    requires Real(d) && 1 <= m <= 12 && DaysIn(y, m) < d.day && e == Spilled(y, m, d.day)
    ensures AddMonths(e, k) != d
  {
    SpilledDay(y, m, d.day);
    AddMonthsKeepsShortDay(e, k);
  }

  lemma SpilledDay(y: int, m: int, day: int)
    requires 1 <= m <= 12 && DaysIn(y, m) < day <= 31
    ensures Real(Spilled(y, m, day)) && Spilled(y, m, day).day <= 3 && Spilled(y, m, day).day < day
  {
  }

  lemma BackUnspilled(d: Date, n: int, e: Date)
    requires Real(d) && Real(e) && e == Date(CarryYear(d.year, d.month + n), CarryMonth(d.month + n), d.day)
    ensures AddMonths(e, -n) == d
  {
    CarryBack(d.year, d.month, n, -n);
    LandsOn(e, -n, d.year, d.month);
  }

  lemma LandsOn(e: Date, k: int, y: int, m: int)
    requires Real(e) && CarryYear(e.year, e.month + k) == y && CarryMonth(e.month + k) == m
    ensures AddMonths(e, k) == Spilled(y, m, e.day)
  {
    AddMonthsLands(e, k);
  }

  lemma AddMonthsKeepsShortDay(e: Date, n: int)
    requires Real(e) && e.day <= 28
    ensures AddMonths(e, n).day == e.day
  {
    AddMonthsLands(e, n);
    ShortDayKept(CarryYear(e.year, e.month + n), CarryMonth(e.month + n), e.day);
  }

  lemma ShortDayKept(y: int, m: int, day: int)
    requires 1 <= m <= 12 && 1 <= day <= 28
    ensures Spilled(y, m, day).day == day
  {
  }

  // ----- text

  /** fmt's %04d: the sign counts toward the width. */
  function YearText(y: int): string { if y < 0 then "-" + ZeroPadded(-y, 3) else ZeroPadded(y, 4) }

  function DayText(d: Date): string
    requires d.month >= 0 && d.day >= 0
  {
    YearText(d.year) + "-" + ZeroPadded(d.month, 2) + "-" + ZeroPadded(d.day, 2)
  }

  function Text(d: Date): string
    requires Proper(d)
  {
    if d == NO_DATE then "" else DayText(d)
  }

  /** time.Parse with layout 2006-01-02: four, two and two digits that name a real day. */
  function TimeParse(s: string): (r: Option<Date>)
    ensures r.Some? ==> Real(r.value)
  {
    if |s| == 10 && s[4] == '-' && s[7] == '-' && AllDigits(s[..4]) && AllDigits(s[5..7]) && AllDigits(s[8..]) then
      var d := Date(Value(s[..4]), Value(s[5..7]), Value(s[8..]));
      if Real(d) then Some(d) else None
    else None
  }

  function ParseDate(s: string): Option<Date> {
    match TimeParse(s)
    case None => None
    case Some(d) => if Text(d) != s then None else Some(d)
  }

  /** The wire form, year first. */
  lemma WireForm()
    ensures Text(Date(2026, 5, 31)) == "2026-05-31"
  {
    MonthLengths(2026);
    WireParts();
    assert "2026" + "-" + "05" + "-" + "31" == "2026-05-31";
  }

  /** "No date" on the wire. */
  lemma NoDateForm()
    ensures Text(NO_DATE) == "" && MarshalDate(NO_DATE) == "null" && UnmarshalDate("null") == Some(NO_DATE)
  {
  }

  /** A negative year's sign counts toward the four places. */
  lemma NegativeYear()
    ensures YearText(-5) == "-005"
  {
    assert Numeral(5) == "5" && Zeros(2) == "00";
  }

  lemma WireParts()
    ensures YearText(2026) == "2026" && ZeroPadded(5, 2) == "05" && ZeroPadded(31, 2) == "31"
  {
    assert Numeral(20) == "20";
    assert Numeral(202) == "202";
    assert Numeral(2026) == "2026";
    assert Numeral(31) == "31" && Numeral(5) == "5" && Zeros(1) == "0";
  }

  predicate WireYear(y: int) { 0 <= y <= 9999 }

  lemma ShortWidths(d: Date)
    requires Real(d)
    ensures |ZeroPadded(d.month, 2)| == 2 && |ZeroPadded(d.day, 2)| == 2
    ensures WireYear(d.year) ==> |ZeroPadded(d.year, 4)| == 4
  {
    assert Pow10(2) == 100;
    assert Pow10(4) == 10000;
    ZeroPaddedWidth(d.month, 2);
    ZeroPaddedWidth(d.day, 2);
    if WireYear(d.year) { ZeroPaddedWidth(d.year, 4); }
  }

  lemma Cut10(a: string, b: string, c: string)
    requires |a| == 4 && |b| == 2 && |c| == 2
    ensures var s := a + "-" + b + "-" + c;
            |s| == 10 && s[4] == '-' && s[7] == '-' && s[..4] == a && s[5..7] == b && s[8..] == c
  {
  }

  lemma TimeParseText(d: Date)
    requires Real(d) && WireYear(d.year)
    ensures TimeParse(DayText(d)) == Some(d)
  {
    ShortWidths(d);
    var a, b, c := ZeroPadded(d.year, 4), ZeroPadded(d.month, 2), ZeroPadded(d.day, 2);
    Cut10(a, b, c);
    ValueZeroPadded(d.year, 4);
    ValueZeroPadded(d.month, 2);
    ValueZeroPadded(d.day, 2);
  }

  /** What is parsed is exactly the rendering of real dates with years 0 to 9999. */
  lemma ParseDateIff(s: string, d: Date)
    ensures ParseDate(s) == Some(d) <==> Real(d) && WireYear(d.year) && s == Text(d)
  {
    if Real(d) && WireYear(d.year) { TimeParseText(d); }
    if TimeParse(s) == Some(d) {
      ValueBound(s[..4]);
      assert Pow10(4) == 10000;
    }
  }

  /** Real dates of different days never render alike, whatever their years. */
  lemma TextInjective(a: Date, b: Date)
    requires Real(a) && Real(b) && Text(a) == Text(b)
    ensures a == b
  {
    TextTail(a);
    TextTail(b);
    YearTextInjective(a.year, b.year);
    ValueZeroPadded(a.month, 2);
    ValueZeroPadded(b.month, 2);
    ValueZeroPadded(a.day, 2);
    ValueZeroPadded(b.day, 2);
  }

  lemma TextTail(d: Date)
    requires Real(d)
    ensures var s := Text(d);
            && |s| >= 6 && s[..|s| - 6] == YearText(d.year)
            && s[|s| - 5..|s| - 3] == ZeroPadded(d.month, 2) && s[|s| - 2..] == ZeroPadded(d.day, 2)
  {
    ShortWidths(d);
    Tail6(YearText(d.year), ZeroPadded(d.month, 2), ZeroPadded(d.day, 2));
  }

  lemma Tail6(a: string, b: string, c: string)
    requires |b| == 2 && |c| == 2
    ensures var s := a + "-" + b + "-" + c;
            |s| >= 6 && s[..|s| - 6] == a && s[|s| - 5..|s| - 3] == b && s[|s| - 2..] == c
  {
  }

  lemma YearTextShape(y: int)
    ensures |YearText(y)| >= 4
    ensures YearText(y)[0] == '-' <==> y < 0
  {
    if y >= 0 { assert IsDigit(ZeroPadded(y, 4)[0]); }
  }

  lemma YearTextInjective(a: int, b: int)
    requires YearText(a) == YearText(b)
    ensures a == b
  {
    YearTextShape(a);
    YearTextShape(b);
    if a < 0 {
      PaddedInjective("-", -a, -b, 3);
    } else {
      assert "" + ZeroPadded(a, 4) == "" + ZeroPadded(b, 4);
      PaddedInjective("", a, b, 4);
    }
  }

  lemma PaddedInjective(sign: string, a: nat, b: nat, w: nat)
    requires sign + ZeroPadded(a, w) == sign + ZeroPadded(b, w)
    ensures a == b
  {
    assert (sign + ZeroPadded(a, w))[|sign|..] == ZeroPadded(a, w);
    assert (sign + ZeroPadded(b, w))[|sign|..] == ZeroPadded(b, w);
    ValueZeroPadded(a, w);
    ValueZeroPadded(b, w);
  }

  /** Printing and parsing undo each other exactly for the years the wire form can carry. */
  lemma DateRoundTripIff(d: Date)
    requires Real(d)
    ensures ParseDate(Text(d)) == Some(d) <==> WireYear(d.year)
  {
    ParseDateIff(Text(d), d);
  }

  // ----- JSON

  function MarshalDate(d: Date): string
    requires Proper(d)
  {
    if d == NO_DATE then "null" else "\"" + Text(d) + "\""
  }

  function Unquoted(data: string): Option<string> {
    if |data| < 2 || data[0] != '"' || data[|data| - 1] != '"' then None else Some(data[1..|data| - 1])
  }

  function UnmarshalDate(data: string): Option<Date> {
    if data == "null" then Some(NO_DATE)
    else
      match Unquoted(data)
      case None => None
      case Some(s) => ParseDate(s)
  }

  lemma QuotedIff(data: string, s: string)
    ensures Unquoted(data) == Some(s) <==> data == "\"" + s + "\""
    ensures "\"" + s + "\"" != "null"
  {
    var q := "\"" + s + "\"";
    assert q[1..|q| - 1] == s && q[0] == '"';
    if Unquoted(data) == Some(s) { assert data == [data[0]] + s + [data[|data| - 1]]; }
  }

  /** JSON text decodes to a date exactly when it is that date's encoding and the year fits the wire. */
  lemma JsonDateIff(data: string, d: Date)
    requires Proper(d)
    ensures UnmarshalDate(data) == Some(d) <==> data == MarshalDate(d) && (d == NO_DATE || WireYear(d.year))
  {
    if data != "null" {
      if Unquoted(data).Some? {
        var s := Unquoted(data).value;
        QuotedIff(data, s);
        ParseDateIff(s, d);
      }
      QuotedIff(data, Text(d));
    } else {
      QuotedIff("null", Text(d));
    }
  }
}
