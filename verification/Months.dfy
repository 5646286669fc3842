// month.go: plan months in the wire form YYYY-MM-01, with "no month" and "current" sentinels.
module Months {
  import opened Basics
  import opened Decimal
  import opened Calendar
  import D = Dates

  datatype Month = Month(year: int, month: int, current: bool)

  const NO_MONTH := Month(0, 0, false)
  const CURRENT_MONTH := Month(0, 0, true)

  predicate Concrete(m: Month) { !m.current && 1 <= m.month <= 12 }

  /** The values the package's constructors and parsers produce. */
  predicate Proper(m: Month) { m == NO_MONTH || m == CURRENT_MONTH || Concrete(m) }

  // ----- arithmetic and order

  /** NewMonth: the month time.Date lands in. */
  ghost function NewMonth(y: int, m: int): Month {
    var d := Normalized(y, m, 1);
    Month(d.year, d.month, false)
  }

  ghost function AddMonths(m: Month, n: int): Month {
    if m == NO_MONTH || m.current then m else NewMonth(m.year, m.month + n)
  }

  ghost function Next(m: Month): Month { AddMonths(m, 1) }

  ghost function Prev(m: Month): Month { AddMonths(m, -1) }

  function Compare(m: Month, o: Month): int {
    if m.year != o.year then D.CompareInt(m.year, o.year) else D.CompareInt(m.month, o.month)
  }

  function FirstDay(m: Month): Date {
    if m == NO_MONTH || m.current then D.NO_DATE else Date(m.year, m.month, 1)
  }

  /** Months counted from month 0 of year 0. */
  function Index(m: Month): int { 12 * m.year + m.month }

  lemma NewMonthCarries(y: int, m: int)
    ensures NewMonth(y, m) == Month(CarryYear(y, m), CarryMonth(m), false)
    ensures Concrete(NewMonth(y, m)) && Index(NewMonth(y, m)) == 12 * y + m
  {
    D.NormalizedLands(y, m, 1);
    CarryIndex(y, m);
  }

  lemma CarryIndex(y: int, m: int)
    ensures 12 * CarryYear(y, m) + CarryMonth(m) == 12 * y + m
  {
  }

  /** A concrete month is determined by its index. */
  lemma IndexInjective(a: Month, b: Month)
    requires Concrete(a) && Concrete(b) && Index(a) == Index(b)
    ensures a == b
  {
  }

  lemma AddMonthsIndex(m: Month, n: int)
    requires Concrete(m)
    ensures Concrete(AddMonths(m, n)) && Index(AddMonths(m, n)) == Index(m) + n
  {
    NewMonthCarries(m.year, m.month + n);
  }

  /** Month arithmetic is addition on the index: it composes, and Next and Prev undo each other. */
  lemma AddMonthsAdds(m: Month, a: int, b: int)
    requires Concrete(m)
    ensures Index(AddMonths(m, a)) == Index(m) + a
    ensures Index(Next(m)) == 12 * m.year + m.month + 1 && Index(Prev(m)) == 12 * m.year + m.month - 1
    ensures AddMonths(AddMonths(m, a), b) == AddMonths(m, a + b)
    ensures Prev(Next(m)) == m && Next(Prev(m)) == m
  {
    AddTwice(m, a, b);
    AddTwice(m, 1, -1);
    AddTwice(m, -1, 1);
    AddMonthsIndex(m, 0);
    IndexInjective(AddMonths(m, 0), m);
  }

  lemma AddTwice(m: Month, a: int, b: int)
    requires Concrete(m)
    ensures Index(AddMonths(m, a)) == Index(m) + a
    ensures AddMonths(AddMonths(m, a), b) == AddMonths(m, a + b)
  {
    AddMonthsIndex(m, a);
    AddMonthsIndex(m, a + b);
    ByIndex(AddMonths(m, a), b, AddMonths(m, a + b));
  }

  lemma ByIndex(m: Month, n: int, r: Month)
    requires Concrete(m) && Concrete(r) && Index(r) == Index(m) + n
    ensures AddMonths(m, n) == r
  {
    AddMonthsIndex(m, n);
    IndexInjective(AddMonths(m, n), r);
  }

  /** The sentinels pass through arithmetic and have no first day. */
  lemma SentinelsPass(s: Month, n: int)
    requires s == NO_MONTH || s == CURRENT_MONTH
    ensures AddMonths(s, n) == s && FirstDay(s) == D.NO_DATE
    ensures MarshalMonth(NO_MONTH) == "null" && Text(NO_MONTH) == "" && Text(CURRENT_MONTH) == "current"
  {
  }

  /** A month's first day moves as the month does. */
  lemma FirstDayFollows(m: Month, n: int)
    requires Concrete(m)
    ensures FirstDay(m) == Date(m.year, m.month, 1)
    ensures FirstDay(AddMonths(m, n)) == D.AddMonths(FirstDay(m), n)
  {
    NewMonthCarries(m.year, m.month + n);
    D.AddMonthsLands(FirstDay(m), n);
  }

  /** Concrete months compare as their indices do. */
  lemma CompareIsIndexOrder(a: Month, b: Month)
    requires Concrete(a) && Concrete(b)
    ensures Compare(a, b) == if Index(a) < Index(b) then -1 else if Index(a) > Index(b) then 1 else 0
  {
  }

  /** A sentinel comes before a concrete month exactly when that month's year is not negative. */
  lemma SentinelFirstIff(s: Month, m: Month)
    requires (s == NO_MONTH || s == CURRENT_MONTH) && Concrete(m)
    ensures Compare(s, m) < 0 <==> m.year >= 0
  {
  }

  /** Comparing equal means being the same month, or both being sentinels. */
  lemma CompareEqualIff(a: Month, b: Month)
    requires Proper(a) && Proper(b)
    ensures Compare(a, b) == 0 <==> a == b || (!Concrete(a) && !Concrete(b))
  {
  }

  // ----- text

  function Text(m: Month): string
    requires Proper(m)
  {
    if m.current then "current"
    else if m == NO_MONTH then ""
    else D.YearText(m.year) + "-" + ZeroPadded(m.month, 2) + "-01"
  }

  /** A concrete month renders as its first day does. */
  lemma FirstDayText(m: Month)
    requires Concrete(m)
    ensures Real(FirstDay(m)) && D.Text(FirstDay(m)) == Text(m)
    ensures |Text(m)| >= 10
  {
    assert ZeroPadded(1, 2) == "01" by { assert Numeral(1) == "1"; assert Zeros(1) == "0"; }
    assert Text(m) == D.YearText(m.year) + "-" + ZeroPadded(m.month, 2) + "-" + "01";
    D.TextTail(FirstDay(m));
    D.YearTextShape(m.year);
  }

  /** Different months never render alike, so MergeByID never confuses two of them. */
  lemma TextInjective(a: Month, b: Month)
    requires Proper(a) && Proper(b) && Text(a) == Text(b)
    ensures a == b
  {
    if Concrete(a) { FirstDayText(a); }
    if Concrete(b) { FirstDayText(b); }
    if Concrete(a) && Concrete(b) { D.TextInjective(FirstDay(a), FirstDay(b)); }
  }

  /** ParseMonth. */
  function ParseMonth(s: string): Option<Month> {
    if s == "current" then Some(CURRENT_MONTH)
    else
      match D.ParseDate(s)
      case None => None
      case Some(d) => if d.day != 1 then None else Some(Month(d.year, d.month, false))
  }

  /** What is parsed is exactly "current" and the rendering of concrete months of years 0 to 9999. */
  lemma ParseMonthIff(s: string, m: Month)
    requires Proper(m)
    ensures ParseMonth(s) == Some(m) <==> s == Text(m) && (m == CURRENT_MONTH || (Concrete(m) && D.WireYear(m.year)))
  {
    if Concrete(m) {
      FirstDayText(m);
      D.ParseDateIff(s, FirstDay(m));
    }
    if D.ParseDate(s).Some? {
      D.ParseDateIff(s, D.ParseDate(s).value);
    }
  }

  // ----- JSON

  function MarshalMonth(m: Month): string
    requires Proper(m)
  {
    if m == NO_MONTH then "null" else "\"" + Text(m) + "\""
  }

  function UnmarshalMonth(data: string): Option<Month> {
    if data == "null" then Some(NO_MONTH)
    else
      match D.Unquoted(data)
      case None => None
      case Some(s) => ParseMonth(s)
  }

  /** JSON text decodes to a month exactly when it is its encoding and the year fits the wire. */
  lemma JsonMonthIff(data: string, m: Month)
    requires Proper(m)
    ensures UnmarshalMonth(data) == Some(m) <==>
            data == MarshalMonth(m) && (Concrete(m) ==> D.WireYear(m.year))
  {
    D.QuotedIff(data, Text(m));
    if data != "null" && D.Unquoted(data).Some? {
      D.QuotedIff(data, D.Unquoted(data).value);
      ParseMonthIff(D.Unquoted(data).value, m);
    }
  }
}
