// The proleptic Gregorian calendar: the meaning of Go's time.Date and AddDate.
module Calendar {
  /** date.go's Date. */
  datatype Date = Date(year: int, month: int, day: int)

  predicate Leap(y: int) { y % 4 == 0 && (y % 100 != 0 || y % 400 == 0) }

  function DaysIn(y: int, m: int): (n: nat)
    ensures 28 <= n <= 31
  {
    if m == 2 then if Leap(y) then 29 else 28
    else if m == 4 || m == 6 || m == 9 || m == 11 then 30 else 31
  }

  /** A day the calendar has. */
  predicate Real(d: Date) { 1 <= d.month <= 12 && 1 <= d.day <= DaysIn(d.year, d.month) }

  // ----- the calendar, one day at a time

  function NextDay(d: Date): (e: Date)
    requires Real(d)
    ensures Real(e)
  {
    if d.day < DaysIn(d.year, d.month) then Date(d.year, d.month, d.day + 1)
    else if d.month < 12 then Date(d.year, d.month + 1, 1)
    else Date(d.year + 1, 1, 1)
  }

  // ----- the same calendar as a day count; day 1 is the first of January of year 1

  function DaysBeforeYear(y: int): int {
    var z := y - 1;
    365 * z + z / 4 - z / 100 + z / 400
  }

  function YearLength(y: int): int { if Leap(y) then 366 else 365 }

  function DaysBeforeMonth(y: int, m: int): (n: nat)
    requires 1 <= m <= 12
  {
    if m == 1 then 0 else DaysBeforeMonth(y, m - 1) + DaysIn(y, m - 1)
  }

  function DayNumber(d: Date): int
    requires Real(d)
  {
    DaysBeforeYear(d.year) + DaysBeforeMonth(d.year, d.month) + d.day
  }

  lemma YearStep(y: int)
    ensures DaysBeforeYear(y + 1) == DaysBeforeYear(y) + YearLength(y)
  {
    FloorStep(y, 4);
    FloorStep(y, 100);
    FloorStep(y, 400);
    Centuries(y);
    var z := y + 1 - 1;
    assert DaysBeforeYear(y + 1) == 365 * y + y / 4 - y / 100 + y / 400;
  }

  lemma Centuries(y: int)
    ensures y % 400 == 0 ==> y % 100 == 0
    ensures y % 100 == 0 ==> y % 4 == 0
  {
    if y % 400 == 0 { MultipleOf(y, 100, 4 * (y / 400)); }
    if y % 100 == 0 { MultipleOf(y, 4, 25 * (y / 100)); }
  }

  lemma MultipleOf(y: int, k: int, j: int)
    requires (k == 4 || k == 100) && y == k * j
    ensures y % k == 0
  {
  }

  lemma FloorStep(y: int, k: int)
    requires k == 4 || k == 100 || k == 400
    ensures y / k == (y - 1) / k + if y % k == 0 then 1 else 0
  {
  }

  lemma {:induction false} YearsGrow(a: int, b: int)
    requires a <= b
    ensures DaysBeforeYear(a) + 365 * (b - a) <= DaysBeforeYear(b)
    decreases b - a
  {
    if a < b {
      YearsGrow(a, b - 1);
      YearStep(b - 1);
    }
  }

  lemma {:induction false} MonthsGrow(y: int, a: int, b: int)
    requires 1 <= a < b <= 12
    ensures DaysBeforeMonth(y, a) + DaysIn(y, a) <= DaysBeforeMonth(y, b)
    decreases b - a
  {
    if a + 1 < b { MonthsGrow(y, a, b - 1); }
  }

  lemma MonthTotals(y: int)
    ensures DaysBeforeMonth(y, 12) + DaysIn(y, 12) == YearLength(y)
  {
    var leap := if Leap(y) then 1 else 0;
    assert DaysBeforeMonth(y, 3) == 59 + leap by { assert DaysBeforeMonth(y, 2) == 31; }
    assert DaysBeforeMonth(y, 5) == 120 + leap by { assert DaysBeforeMonth(y, 4) == 90 + leap; }
    assert DaysBeforeMonth(y, 7) == 181 + leap by { assert DaysBeforeMonth(y, 6) == 151 + leap; }
    assert DaysBeforeMonth(y, 9) == 243 + leap by { assert DaysBeforeMonth(y, 8) == 212 + leap; }
    assert DaysBeforeMonth(y, 11) == 304 + leap by { assert DaysBeforeMonth(y, 10) == 273 + leap; }
  }

  // ----- which calendar this is

  /** The months' lengths, and the Gregorian leap years: the multiples of 4, but of 100 only those of 400. */
  lemma MonthLengths(y: int)
    ensures DaysIn(y, 1) == DaysIn(y, 3) == DaysIn(y, 5) == DaysIn(y, 7) == DaysIn(y, 8) == DaysIn(y, 10) == 31
    ensures DaysIn(y, 12) == 31 && DaysIn(y, 4) == DaysIn(y, 6) == DaysIn(y, 9) == DaysIn(y, 11) == 30
    ensures DaysIn(y, 2) == if y % 400 == 0 || (y % 4 == 0 && y % 100 != 0) then 29 else 28
  {
    Centuries(y);
  }

  /** The days before each month in closed form. */
  lemma DaysBeforeMonthIs(y: int, m: int)
    requires 1 <= m <= 12
    ensures DaysBeforeMonth(y, m) ==
            (367 * m - 362) / 12
            - if m <= 2 then 0 else if y % 400 == 0 || (y % 4 == 0 && y % 100 != 0) then 1 else 2
  {
    Centuries(y);
    ClosedFormHolds(y, m);
  }

  function ClosedForm(y: int, m: int): int {
    (367 * m - 362) / 12 - if m <= 2 then 0 else if Leap(y) then 1 else 2
  }

  lemma {:induction false} ClosedFormHolds(y: int, m: int)
    requires 1 <= m <= 12
    ensures DaysBeforeMonth(y, m) == ClosedForm(y, m)
  {
    if m > 1 {
      ClosedFormHolds(y, m - 1);
      ClosedFormStep(y, m);
    }
  }

  lemma ClosedFormStep(y: int, m: int)
    requires 2 <= m <= 12
    ensures ClosedForm(y, m) == ClosedForm(y, m - 1) + DaysIn(y, m - 1)
  {
  }

  /** Four centuries are a whole number of days, the same whatever the year they start in. */
  lemma FourCenturies(y: int)
    ensures DaysBeforeYear(y + 400) == DaysBeforeYear(y) + 146097
  {
    var z := y - 1;
    assert (z + 400) / 4 == z / 4 + 100 && (z + 400) / 100 == z / 100 + 4 && (z + 400) / 400 == z / 400 + 1;
  }

  /** The count starts on the first of January of year 1. */
  lemma FirstDayOfAll()
    ensures Real(Date(1, 1, 1)) && DayNumber(Date(1, 1, 1)) == 1
  {
    FirstOfMonth(1, 1);
  }

  /** The Unix epoch. */
  lemma Epoch()
    ensures Real(Date(1970, 1, 1)) && DayNumber(Date(1970, 1, 1)) == 719163
  {
    FirstOfMonth(1970, 1);
  }

  /** The day after a leap century's leap day. */
  lemma March2000()
    ensures Real(Date(2000, 3, 1)) && DayNumber(Date(2000, 3, 1)) == 730180
  {
    FirstOfMonth(2000, 3);
  }

  lemma FirstOfMonth(y: int, m: int)
    requires 1 <= m <= 12
    ensures Real(Date(y, m, 1)) && DayNumber(Date(y, m, 1)) == DaysBeforeYear(y) + ClosedForm(y, m) + 1
  {
    ClosedFormHolds(y, m);
  }

  lemma DayWithinYear(d: Date)
    requires Real(d)
    ensures DaysBeforeYear(d.year) < DayNumber(d) <= DaysBeforeYear(d.year + 1)
  {
    YearStep(d.year);
    MonthTotals(d.year);
    if d.month < 12 { MonthsGrow(d.year, d.month, 12); }
  }

  /** The count goes up by one from each day to the next. */
  lemma NextDayCounts(d: Date)
    requires Real(d)
    ensures DayNumber(NextDay(d)) == DayNumber(d) + 1
  {
    if d.day == DaysIn(d.year, d.month) && d.month == 12 {
      YearStep(d.year);
      MonthTotals(d.year);
    }
  }

  /** Chronological order, field by field. */
  predicate Earlier(a: Date, b: Date) {
    || a.year < b.year
    || (a.year == b.year && (a.month < b.month || (a.month == b.month && a.day < b.day)))
  }

  /** The count orders the days as the fields do; in particular no two days share a number. */
  lemma CountOrders(a: Date, b: Date)
    requires Real(a) && Real(b)
    ensures Earlier(a, b) <==> DayNumber(a) < DayNumber(b)
    ensures a == b <==> DayNumber(a) == DayNumber(b)
  {
    CountGrows(a, b);
    CountGrows(b, a);
  }

  lemma CountGrows(a: Date, b: Date)
    requires Real(a) && Real(b)
    ensures Earlier(a, b) ==> DayNumber(a) < DayNumber(b)
  {
    if a.year < b.year {
      DayWithinYear(a);
      DayWithinYear(b);
      YearsGrow(a.year + 1, b.year);
    } else if a.year == b.year && a.month < b.month {
      MonthsGrow(a.year, a.month, b.month);
    }
  }

  // ----- from the count back to the day

  lemma FindYear(n: int, start: int) returns (y: int)
    ensures DaysBeforeYear(y) < n <= DaysBeforeYear(y + 1)
    decreases n <= DaysBeforeYear(start),
              if n <= DaysBeforeYear(start) then DaysBeforeYear(start) - n else n - DaysBeforeYear(start)
  {
    YearStep(start);
    YearStep(start - 1);
    if n <= DaysBeforeYear(start) {
      y := FindYear(n, start - 1);
    } else if n > DaysBeforeYear(start + 1) {
      y := FindYear(n, start + 1);
    } else {
      y := start;
    }
  }

  lemma FindMonth(y: int, r: int, start: int) returns (m: int)
    requires 1 <= start <= 12 && DaysBeforeMonth(y, start) < r <= YearLength(y)
    ensures 1 <= m <= 12 && DaysBeforeMonth(y, m) < r <= DaysBeforeMonth(y, m) + DaysIn(y, m)
    decreases 12 - start
  {
    MonthTotals(y);
    if r <= DaysBeforeMonth(y, start) + DaysIn(y, start) { m := start; } else { m := FindMonth(y, r, start + 1); }
  }

  /** Every integer is the number of some day. */
  lemma FindDay(n: int) returns (d: Date)
    ensures Real(d) && DayNumber(d) == n
  {
    var y := FindYear(n, 1);
    YearStep(y);
    var r := n - DaysBeforeYear(y);
    var m := FindMonth(y, r, 1);
    d := Date(y, m, r - DaysBeforeMonth(y, m));
  }

  /** The day with number n; CountOrders makes it unique. */
  ghost function FromCount(n: int): (d: Date)
    ensures Real(d) && DayNumber(d) == n
  {
    assert exists d :: Real(d) && DayNumber(d) == n by { var d := FindDay(n); }
    var d :| Real(d) && DayNumber(d) == n;
    d
  }

  // Months outside 1..12 carry into the year.

  function CarryYear(y: int, m: int): int { y + (m - 1) / 12 }

  function CarryMonth(m: int): (r: int)
    ensures 1 <= r <= 12
  {
    (m - 1) % 12 + 1
  }

  /** The count of the first of a month whose number may lie outside 1..12. */
  function MonthStart(y: int, m: int): int {
    DaysBeforeYear(CarryYear(y, m)) + DaysBeforeMonth(CarryYear(y, m), CarryMonth(m)) + 1
  }

  /** time.Date at midnight UTC, then Date(): days count on from the first of the carried month. */
  ghost function Normalized(y: int, m: int, d: int): (r: Date)
    ensures Real(r) && DayNumber(r) == MonthStart(y, m) + d - 1
  {
    FromCount(MonthStart(y, m) + d - 1)
  }

  lemma CarryNothing(y: int, m: int)
    requires 1 <= m <= 12
    ensures CarryYear(y, m) == y && CarryMonth(m) == m
  {
  }

  lemma CarryBack(y: int, m: int, n: int, k: int)
    requires 1 <= m <= 12 && k == -n
    ensures CarryYear(CarryYear(y, m + n), CarryMonth(m + n) + k) == y
    ensures CarryMonth(CarryMonth(m + n) + k) == m
  {
    var q, r := (m + n - 1) / 12, (m + n - 1) % 12;
    assert r + 1 + k - 1 == 12 * -q + (m - 1);
  }
}
