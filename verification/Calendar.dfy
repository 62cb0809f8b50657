/** The proleptic Gregorian calendar: leap rule and month lengths as in RFC 3339, Appendix C and section 5.7. */
module Calendar {
  import opened Arith

  datatype Date = Date(year: int, month: nat, day: nat)

  predicate IsLeap(y: int) {
    y % 4 == 0 && (y % 100 != 0 || y % 400 == 0)
  }

  function DaysInYear(y: int): nat {
    if IsLeap(y) then 366 else 365
  }

  function DaysInMonth(y: int, m: nat): (d: nat)
    requires 1 <= m <= 12
    ensures 28 <= d <= 31
  {
    match m
    case 2 => if IsLeap(y) then 29 else 28
    case 4 => 30 case 6 => 30 case 9 => 30 case 11 => 30
    case _ => 31
  }

  predicate ValidDate(d: Date) {
    1 <= d.month <= 12 && 1 <= d.day <= DaysInMonth(d.year, d.month)
  }

  /** Days from 0001-01-01 to the first of January of year y; negative before it. */
  function DaysBeforeYear(y: int): int {
    365 * (y - 1) + (y - 1) / 4 - (y - 1) / 100 + (y - 1) / 400
  }

  /** The closed form advances by exactly one year's days. */
  lemma YearStep(y: int)
    ensures DaysBeforeYear(y + 1) == DaysBeforeYear(y) + DaysInYear(y)
  {
    FloorStep(y - 1, 4);
    FloorStep(y - 1, 100);
    FloorStep(y - 1, 400);
    Divides(y);
  }

  lemma FloorStep(n: int, d: nat)
    requires d == 4 || d == 100 || d == 400
    ensures (n + 1) / d == n / d + (if (n + 1) % d == 0 then 1 else 0)
  {
    if d == 4 {
    } else if d == 100 {
    } else {
    }
  }

  lemma Divides(y: int)
    ensures y % 400 == 0 ==> y % 100 == 0
    ensures y % 100 == 0 ==> y % 4 == 0
  {
    if y % 400 == 0 {
      MultipleHasNoRemainder(100, 4 * (y / 400));
    }
    if y % 100 == 0 {
      MultipleHasNoRemainder(4, 25 * (y / 100));
    }
  }

  function DaysBeforeMonth(y: int, m: nat): nat
    requires 1 <= m <= 13
  {
    if m == 1 then 0 else DaysBeforeMonth(y, m - 1) + DaysInMonth(y, m - 1)
  }

  lemma YearLength(y: int)
    ensures DaysBeforeMonth(y, 13) == DaysInYear(y)
  {
    assert DaysBeforeMonth(y, 2) == 31;
    assert DaysBeforeMonth(y, 3) == 31 + DaysInMonth(y, 2);
    assert DaysBeforeMonth(y, 5) == DaysBeforeMonth(y, 3) + 61;
    assert DaysBeforeMonth(y, 7) == DaysBeforeMonth(y, 5) + 61;
    assert DaysBeforeMonth(y, 9) == DaysBeforeMonth(y, 7) + 62;
    assert DaysBeforeMonth(y, 11) == DaysBeforeMonth(y, 9) + 61;
    assert DaysBeforeMonth(y, 13) == DaysBeforeMonth(y, 11) + 61;
  }

  /** An independent closed form for the months: 30 or 31 days in turn with the usual break, less February's missing days. */
  lemma {:induction false} MonthsClosedForm(y: int, m: nat)
    requires 1 <= m <= 13
    ensures DaysBeforeMonth(y, m) == (367 * m - 362) / 12 - (if m <= 2 then 0 else if IsLeap(y) then 1 else 2)
  {
    if m > 1 {
      MonthsClosedForm(y, m - 1);
      assert m in {2, 3, 4, 5, 6, 7, 8, 9, 10, 11, 12, 13};
    }
  }

  /** The number of a date, counted from 0001-01-01. */
  function DayNumber(d: Date): int
    requires ValidDate(d)
  {
    DaysBeforeYear(d.year) + DaysBeforeMonth(d.year, d.month) + d.day - 1
  }

  // Finding the date of a day number: whole 400-year cycles, then years, then months.

  function YearOf(y: int, r: nat): (p: (int, nat))
    ensures p.1 < DaysInYear(p.0) && DaysBeforeYear(p.0) + p.1 == DaysBeforeYear(y) + r
    decreases r
  {
    if r < DaysInYear(y) then (y, r) else
      YearStep(y);
      YearOf(y + 1, r - DaysInYear(y))
  }

  function MonthOf(y: int, m: nat, r: nat): (p: (nat, nat))
    requires 1 <= m <= 12 && DaysBeforeMonth(y, m) + r < DaysInYear(y)
    ensures m <= p.0 <= 12 && p.1 < DaysInMonth(y, p.0)
    ensures DaysBeforeMonth(y, p.0) + p.1 == DaysBeforeMonth(y, m) + r
    decreases r
  {
    if r < DaysInMonth(y, m) then (m, r) else
      YearLength(y);
      MonthOf(y, m + 1, r - DaysInMonth(y, m))
  }

  const DAYS_IN_CYCLE := 146097

  function DateOf(n: int): (d: Date)
    ensures ValidDate(d) && DayNumber(d) == n
  {
    var cycle := n / DAYS_IN_CYCLE;
    var (y, dayOfYear) := YearOf(1 + 400 * cycle, n % DAYS_IN_CYCLE);
    CycleStart(cycle);
    var (m, dayOfMonth) := MonthOf(y, 1, dayOfYear);
    Date(y, m, dayOfMonth + 1)
  }

  lemma CycleStart(cycle: int)
    ensures DaysBeforeYear(1 + 400 * cycle) == DAYS_IN_CYCLE * cycle
  {
  }

  predicate DateLess(a: Date, b: Date) {
    a.year < b.year || (a.year == b.year && (a.month < b.month || (a.month == b.month && a.day < b.day)))
  }

  lemma {:induction false} YearsIncrease(y: int, z: int)
    requires y < z
    ensures DaysBeforeYear(y) + DaysInYear(y) <= DaysBeforeYear(z)
    decreases z - y
  {
    YearStep(y);
    if y + 1 < z {
      YearsIncrease(y + 1, z);
    }
  }

  lemma {:induction false} MonthsIncrease(y: int, m: nat, n: nat)
    requires 1 <= m < n <= 13
    ensures DaysBeforeMonth(y, m) + DaysInMonth(y, m) <= DaysBeforeMonth(y, n)
    decreases n - m
  {
    if m + 1 < n {
      MonthsIncrease(y, m, n - 1);
    }
  }

  lemma DayNumberWithinYear(d: Date)
    requires ValidDate(d)
    ensures DaysBeforeYear(d.year) <= DayNumber(d) < DaysBeforeYear(d.year) + DaysInYear(d.year)
  {
    YearLength(d.year);
    MonthsIncrease(d.year, d.month, 13);
  }

  /** Later dates have greater numbers. */
  lemma DayNumberIncreases(a: Date, b: Date)
    requires ValidDate(a) && ValidDate(b)
    ensures DayNumber(a) < DayNumber(b) <==> DateLess(a, b)
    ensures DayNumber(a) == DayNumber(b) <==> a == b
  {
    DateLessIsLess(a, b);
    DateLessIsLess(b, a);
    assert a == b || DateLess(a, b) || DateLess(b, a);
  }

  lemma DateLessIsLess(a: Date, b: Date)
    requires ValidDate(a) && ValidDate(b)
    ensures DateLess(a, b) ==> DayNumber(a) < DayNumber(b)
  {
    DayNumberWithinYear(a);
    DayNumberWithinYear(b);
    if a.year < b.year {
      YearsIncrease(a.year, b.year);
    } else if a.year == b.year && a.month < b.month {
      MonthsIncrease(a.year, a.month, b.month);
    }
  }

  /** Numbering a date and finding the date of a number are inverse. */
  lemma CalendarIsBijective(d: Date, n: int)
    requires ValidDate(d)
    ensures DateOf(DayNumber(d)) == d
    ensures DayNumber(DateOf(n)) == n
  {
    DayNumberIncreases(DateOf(DayNumber(d)), d);
  }
}
