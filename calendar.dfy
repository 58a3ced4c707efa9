/**
 * The proleptic Gregorian calendar of the program's date type: years 1 to 9999, the ordinal
 * day count with 0001-01-01 as day 1, the weekday with Monday as 0, adding a number of days,
 * and the comparison of dates.
 */
module Calendar {
  import opened Results

  datatype Date = Date(year: int, month: int, day: int)

  const MaxYear: int := 9999
  /** The ordinal of 9999-12-31, the last date the calendar can represent. */
  const MaxOrdinal: int := 3652059

  predicate IsLeapYear(y: int) {
    y % 4 == 0 && (y % 100 != 0 || y % 400 == 0)
  }

  function DaysInYear(y: int): int {
    if IsLeapYear(y) then 366 else 365
  }

  function DaysInMonth(y: int, m: int): int
    requires 1 <= m <= 12
  {
    if m == 2 then (if IsLeapYear(y) then 29 else 28)
    else if m == 4 || m == 6 || m == 9 || m == 11 then 30
    else 31
  }

  /** A date the calendar can represent. */
  predicate ValidDate(d: Date) {
    1 <= d.year <= MaxYear && 1 <= d.month <= 12 && 1 <= d.day <= DaysInMonth(d.year, d.month)
  }

  /** Building a date from its fields: the date must exist. */
  function MakeDate(y: int, m: int, d: int): (r: Result<Date>)
    ensures r.Success? <==> ValidDate(Date(y, m, d))
    ensures r.Success? ==> r.value == Date(y, m, d)
    ensures r.Failure? ==> r.error == DayOutOfRange
  {
    if ValidDate(Date(y, m, d)) then Success(Date(y, m, d)) else Failure(DayOutOfRange)
  }

  /** Days in the years before year y. */
  function DaysBeforeYear(y: int): int
    requires 1 <= y
  {
    var p := y - 1;
    p * 365 + p / 4 - p / 100 + p / 400
  }

  /** Days in the months of year y before month m. */
  function DaysBeforeMonth(y: int, m: int): int
    requires 1 <= m <= 12
  {
    if m == 1 then 0 else DaysBeforeMonth(y, m - 1) + DaysInMonth(y, m - 1)
  }

  /** The day count of a date, 0001-01-01 being day 1. */
  function ToOrdinal(d: Date): int
    requires ValidDate(d)
  {
    DaysBeforeYear(d.year) + DaysBeforeMonth(d.year, d.month) + d.day
  }

  /** The day of the week, Monday being 0 and Sunday 6; 0001-01-01 was a Monday. */
  function Weekday(d: Date): int
    requires ValidDate(d)
  {
    (ToOrdinal(d) + 6) % 7
  }

  /** The program's order on dates: by year, then month, then day. */
  predicate Before(a: Date, b: Date) {
    a.year < b.year || (a.year == b.year && (a.month < b.month || (a.month == b.month && a.day < b.day)))
  }

  /** Stepping y by one adds one to y / k exactly when k divides y, for k = 4, 100, 400. */
  lemma DivStep4(y: int)
    ensures y / 4 - (y - 1) / 4 == (if y % 4 == 0 then 1 else 0)
  {
    var q, r := (y - 1) / 4, (y - 1) % 4;
    if r == 3 {
      assert y == 4 * (q + 1);
    } else {
      assert y == 4 * q + (r + 1);
    }
  }

  lemma DivStep100(y: int)
    ensures y / 100 - (y - 1) / 100 == (if y % 100 == 0 then 1 else 0)
  {
    var q, r := (y - 1) / 100, (y - 1) % 100;
    if r == 99 {
      assert y == 100 * (q + 1);
    } else {
      assert y == 100 * q + (r + 1);
    }
  }

  lemma DivStep400(y: int)
    ensures y / 400 - (y - 1) / 400 == (if y % 400 == 0 then 1 else 0)
  {
    var q, r := (y - 1) / 400, (y - 1) % 400;
    if r == 399 {
      assert y == 400 * (q + 1);
    } else {
      assert y == 400 * q + (r + 1);
    }
  }

  /** A multiple of 400 is a multiple of 100, and a multiple of 100 is a multiple of 4. */
  lemma DivisorChain(y: int)
    ensures y % 400 == 0 ==> y % 100 == 0
    ensures y % 100 == 0 ==> y % 4 == 0
  {
    if y % 400 == 0 {
      var q, d, m := y / 400, y / 100, y % 100;
      assert y == 400 * q && y == 100 * d + m && 0 <= m < 100;
      assert m == 100 * (4 * q - d);
    }
    if y % 100 == 0 {
      var q, d, m := y / 100, y / 4, y % 4;
      assert y == 100 * q && y == 4 * d + m && 0 <= m < 4;
      assert m == 4 * (25 * q - d);
    }
  }

  lemma DaysBeforeYearNext(y: int)
    requires 1 <= y
    ensures DaysBeforeYear(y + 1) == DaysBeforeYear(y) + DaysInYear(y)
  {
    var p := y - 1;
    var a, b, c := y / 4 - p / 4, y / 100 - p / 100, y / 400 - p / 400;
    DivStep4(y);
    DivStep100(y);
    DivStep400(y);
    DivisorChain(y);
    assert DaysBeforeYear(y + 1) - DaysBeforeYear(y) == 365 + a - b + c;
    if y % 4 != 0 {
      assert a == 0 && b == 0 && c == 0;
    } else if y % 100 != 0 {
      assert a == 1 && b == 0 && c == 0;
    } else if y % 400 != 0 {
      assert a == 1 && b == 1 && c == 0;
    } else {
      assert a == 1 && b == 1 && c == 1;
    }
  }

  /** Between year a and year b lie at least 365 and at most 366 days per year. */
  lemma {:induction false} DaysBeforeYearBounds(a: int, b: int)
    requires 1 <= a <= b
    ensures 365 * (b - a) <= DaysBeforeYear(b) - DaysBeforeYear(a) <= 366 * (b - a)
    decreases b - a
  {
    if a < b {
      DaysBeforeYearBounds(a, b - 1);
      DaysBeforeYearNext(b - 1);
    }
  }

  lemma DaysBeforeMonthNext(y: int, m: int)
    requires 1 <= m < 12
    ensures DaysBeforeMonth(y, m + 1) == DaysBeforeMonth(y, m) + DaysInMonth(y, m)
  {
  }

  /** The months before December hold 334 days, one more in a leap year. */
  lemma DaysBeforeDecember(y: int)
    ensures DaysBeforeMonth(y, 12) == 334 + (if IsLeapYear(y) then 1 else 0)
  {
    var feb := DaysInMonth(y, 2);
    assert DaysBeforeMonth(y, 2) == 31;
    assert DaysBeforeMonth(y, 3) == 31 + feb;
    assert DaysBeforeMonth(y, 4) == 62 + feb;
    assert DaysBeforeMonth(y, 5) == 92 + feb;
    assert DaysBeforeMonth(y, 6) == 123 + feb;
    assert DaysBeforeMonth(y, 7) == 153 + feb;
    assert DaysBeforeMonth(y, 8) == 184 + feb;
    assert DaysBeforeMonth(y, 9) == 215 + feb;
    assert DaysBeforeMonth(y, 10) == 245 + feb;
    assert DaysBeforeMonth(y, 11) == 276 + feb;
  }

  lemma {:induction false} DaysBeforeMonthLess(y: int, m1: int, m2: int)
    requires 1 <= m1 < m2 <= 12
    ensures DaysBeforeMonth(y, m1) + DaysInMonth(y, m1) <= DaysBeforeMonth(y, m2)
    decreases m2
  {
    if m1 < m2 - 1 {
      DaysBeforeMonthLess(y, m1, m2 - 1);
    }
  }

  /** The day of a valid date within its year lies between 1 and the length of the year. */
  lemma DayOfYearBounds(d: Date)
    requires ValidDate(d)
    ensures 1 <= DaysBeforeMonth(d.year, d.month) + d.day <= DaysInYear(d.year)
  {
    DaysBeforeDecember(d.year);
    if 1 < d.month {
      DaysBeforeMonthLess(d.year, 1, d.month);
    }
    if d.month < 12 {
      DaysBeforeMonthLess(d.year, d.month, 12);
    }
  }

  /** Every valid date has an ordinal between 1 and that of 9999-12-31. */
  lemma OrdinalBounds(d: Date)
    requires ValidDate(d)
    ensures 1 <= ToOrdinal(d) <= MaxOrdinal
  {
    var y := d.year;
    DayOfYearBounds(d);
    DaysBeforeYearNext(y);
    DaysBeforeYearBounds(y + 1, MaxYear + 1);
    assert DaysBeforeYear(MaxYear + 1) == MaxOrdinal;
    assert 0 <= DaysBeforeYear(y);
    assert ToOrdinal(d) == DaysBeforeYear(y) + (DaysBeforeMonth(y, d.month) + d.day);
    assert DaysBeforeYear(y + 1) <= MaxOrdinal;
  }

  /** An earlier date has a smaller ordinal. */
  lemma BeforeOrdinalLess(a: Date, b: Date)
    requires ValidDate(a) && ValidDate(b) && Before(a, b)
    ensures ToOrdinal(a) < ToOrdinal(b)
  {
    if a.year < b.year {
      DayOfYearBounds(a);
      DayOfYearBounds(b);
      DaysBeforeYearNext(a.year);
      DaysBeforeYearBounds(a.year + 1, b.year);
    } else if a.month < b.month {
      DaysBeforeMonthLess(a.year, a.month, b.month);
    }
  }

  /** The program's comparison of dates is the comparison of their ordinals. */
  lemma BeforeIffOrdinalLess(a: Date, b: Date)
    requires ValidDate(a) && ValidDate(b)
    ensures Before(a, b) <==> ToOrdinal(a) < ToOrdinal(b)
    ensures a == b <==> ToOrdinal(a) == ToOrdinal(b)
  {
    if Before(a, b) {
      BeforeOrdinalLess(a, b);
    } else if Before(b, a) {
      BeforeOrdinalLess(b, a);
    }
  }

  /** The year holding day n: searched upward from year y. */
  function YearFrom(n: int, y: int): (r: int)
    requires 1 <= y && DaysBeforeYear(y) < n
    ensures y <= r && DaysBeforeYear(r) < n <= DaysBeforeYear(r + 1)
    decreases n - DaysBeforeYear(y)
  {
    DaysBeforeYearNext(y);
    if n <= DaysBeforeYear(y + 1) then y else YearFrom(n, y + 1)
  }

  /** The date falling on day r of year y counted from the first of month m: searched upward. */
  function DateInYear(y: int, m: int, r: int): (d: Date)
    requires 1 <= y <= MaxYear && 1 <= m <= 12 && 1 <= r <= DaysInYear(y) - DaysBeforeMonth(y, m)
    ensures ValidDate(d) && d.year == y && m <= d.month
    ensures DaysBeforeMonth(y, d.month) + d.day == DaysBeforeMonth(y, m) + r
    decreases 12 - m
  {
    DaysBeforeDecember(y);
    if m == 12 || r <= DaysInMonth(y, m) then Date(y, m, r)
    else
      DaysBeforeMonthNext(y, m);
      DateInYear(y, m + 1, r - DaysInMonth(y, m))
  }

  /** The date with ordinal n: the inverse of ToOrdinal. */
  function FromOrdinal(n: int): (d: Date)
    requires 1 <= n <= MaxOrdinal
    ensures ValidDate(d) && ToOrdinal(d) == n
  {
    var y := YearFrom(n, 1);
    assert y <= MaxYear by {
      if y > MaxYear {
        DaysBeforeYearBounds(MaxYear + 1, y);
      }
    }
    DaysBeforeYearNext(y);
    DateInYear(y, 1, n - DaysBeforeYear(y))
  }

  /** Converting a date to its ordinal and back gives the date again. */
  lemma FromOrdinalToOrdinal(d: Date)
    requires ValidDate(d)
    ensures 1 <= ToOrdinal(d) <= MaxOrdinal
    ensures FromOrdinal(ToOrdinal(d)) == d
  {
    OrdinalBounds(d);
    BeforeIffOrdinalLess(d, FromOrdinal(ToOrdinal(d)));
  }

  /** A date plus k days; leaving the calendar's range is an overflow. */
  function AddDays(d: Date, k: int): (r: Result<Date>)
    requires ValidDate(d)
    ensures r.Success? <==> 1 <= ToOrdinal(d) + k <= MaxOrdinal
    ensures r.Success? ==> ValidDate(r.value) && ToOrdinal(r.value) == ToOrdinal(d) + k
    ensures r.Failure? ==> r.error == DateOverflow
  {
    var n := ToOrdinal(d) + k;
    if 1 <= n <= MaxOrdinal then Success(FromOrdinal(n)) else Failure(DateOverflow)
  }

  /** Adding k days lands on e exactly when e is the valid date k ordinals further on. */
  lemma AddDaysLandsOn(d: Date, k: int, e: Date)
    requires ValidDate(d) && ValidDate(e)
    ensures AddDays(d, k) == Success(e) <==> ToOrdinal(e) == ToOrdinal(d) + k
  {
    OrdinalBounds(e);
    var r := AddDays(d, k);
    if r.Success? {
      BeforeIffOrdinalLess(r.value, e);
    }
  }

  /** A date k days after d has the weekday k places on from d's. */
  lemma WeekdayAfter(d: Date, k: int, e: Date)
    requires ValidDate(d) && ValidDate(e) && ToOrdinal(e) == ToOrdinal(d) + k
    ensures Weekday(e) == (Weekday(d) + k) % 7
  {
    WeekdayShift(ToOrdinal(d), k);
  }

  /** Adding k to a number moves its remainder modulo 7 by k places. */
  lemma WeekdayShift(n: int, k: int)
    ensures (n + k + 6) % 7 == ((n + 6) % 7 + k) % 7
  {
    var q, r := (n + 6) / 7, (n + 6) % 7;
    var q2, r2 := (r + k) / 7, (r + k) % 7;
    assert n + k + 6 == 7 * (q + q2) + r2;
  }

  /** The last representable date, 9999-12-31, is a Friday. */
  lemma LastDateIsFriday()
    ensures ValidDate(Date(MaxYear, 12, 31))
    ensures ToOrdinal(Date(MaxYear, 12, 31)) == MaxOrdinal
    ensures Weekday(Date(MaxYear, 12, 31)) == 4
  {
  }

  /** An ordinal on a Saturday or a Sunday leaves room for the move to the next Monday. */
  lemma WeekendRoom(n: int)
    requires 1 <= n <= MaxOrdinal && (n + 6) % 7 >= 5
    ensures n + 7 - (n + 6) % 7 <= MaxOrdinal
    ensures 7 - (n + 6) % 7 == (if (n + 6) % 7 == 5 then 2 else 1)
    ensures (n + 7 - (n + 6) % 7 + 6) % 7 == 0
  {
    var q := (n + 6) / 7;
    assert n + 6 == 7 * q + (n + 6) % 7;
    assert n != MaxOrdinal && n != MaxOrdinal - 1;
    assert n + 7 - (n + 6) % 7 + 6 == 7 * (q + 1);
  }

  /**
   * Moving a Saturday or a Sunday forward by 7 - weekday days never leaves the calendar,
   * and lands on a Monday.
   */
  lemma WeekendShiftLandsOnMonday(d: Date)
    requires ValidDate(d) && Weekday(d) >= 5
    ensures AddDays(d, 7 - Weekday(d)).Success?
    ensures Weekday(AddDays(d, 7 - Weekday(d)).value) == 0
    ensures ToOrdinal(AddDays(d, 7 - Weekday(d)).value) - ToOrdinal(d) == (if Weekday(d) == 5 then 2 else 1)
  {
    OrdinalBounds(d);
    var n := ToOrdinal(d);
    WeekendRoom(n);
    var e := AddDays(d, 7 - Weekday(d)).value;
    assert ToOrdinal(e) == n + 7 - (n + 6) % 7;
  }
}
