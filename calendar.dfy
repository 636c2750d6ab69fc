/**
 * Proleptic Gregorian calendar dates as Python's `datetime.date` sees them:
 * a date is a (year, month, day) triple, its ordinal counts days from
 * 0001-01-01 (ordinal 1), `d - timedelta(days = k)` is the date of ordinal
 * `toordinal(d) - k`, dates compare lexicographically, and
 * `weekday()` is `(toordinal() + 6) % 7` with Monday = 0.
 */
module Calendar {

  datatype Date = Date(year: int, month: int, day: int)

  predicate IsLeapYear(y: int)
  {
    y % 4 == 0 && (y % 100 != 0 || y % 400 == 0)
  }

  function DaysInYear(y: int): int
  {
    if IsLeapYear(y) then 366 else 365
  }

  function DaysInMonth(y: int, m: int): int
    requires 1 <= m <= 12
  {
    if m == 2 then (if IsLeapYear(y) then 29 else 28)
    else if m == 4 || m == 6 || m == 9 || m == 11 then 30
    else 31
  }

  /** A date that `datetime.date` accepts (the model never moves past today, so year 9999 is not a bound here). */
  predicate ValidDate(d: Date)
  {
    1 <= d.year && 1 <= d.month <= 12 && 1 <= d.day <= DaysInMonth(d.year, d.month)
  }

  /** Number of days in the years 1 .. y-1. */
  function DaysBeforeYear(y: int): nat
    requires y >= 1
    decreases y
  {
    if y == 1 then 0 else DaysBeforeYear(y - 1) + DaysInYear(y - 1)
  }

  /** Number of days in year y before the first of month m. */
  function DaysBeforeMonth(y: int, m: int): nat
    requires 1 <= m <= 12
    decreases m
  {
    if m == 1 then 0 else DaysBeforeMonth(y, m - 1) + DaysInMonth(y, m - 1)
  }

  /** `date.toordinal()`: 0001-01-01 has ordinal 1. */
  function ToOrdinal(d: Date): int
    requires ValidDate(d)
  {
    DaysBeforeYear(d.year) + DaysBeforeMonth(d.year, d.month) + d.day
  }

  /** The cumulative month table Python's datetime module keeps (`_DAYS_BEFORE_MONTH`), without the leap day. */
  function MonthTable(m: int): int
    requires 1 <= m <= 12
  {
    [0, 31, 59, 90, 120, 151, 181, 212, 243, 273, 304, 334][m - 1]
  }

  /** The recursive definition agrees with the table, plus one day after February in a leap year. */
  lemma {:induction false} DaysBeforeMonthTable(y: int, m: int)
    requires 1 <= m <= 12
    ensures DaysBeforeMonth(y, m) == MonthTable(m) + (if m > 2 && IsLeapYear(y) then 1 else 0)
    decreases m
  {
    if m > 1 {
      DaysBeforeMonthTable(y, m - 1);
    }
  }

  /** The twelve months fill the year exactly. */
  lemma MonthsFillYear(y: int)
    ensures DaysBeforeMonth(y, 12) + DaysInMonth(y, 12) == DaysInYear(y)
  {
    DaysBeforeMonthTable(y, 12);
  }

  /** Python's closed form `_days_before_year`: with p = y - 1, p*365 + p/4 - p/100 + p/400. */
  lemma {:induction false} DaysBeforeYearClosedForm(y: int)
    requires y >= 1
    ensures DaysBeforeYear(y) == (y - 1) * 365 + (y - 1) / 4 - (y - 1) / 100 + (y - 1) / 400
    decreases y
  {
    if y > 1 {
      DaysBeforeYearClosedForm(y - 1);
      var p := y - 1;
      QuotientStep(p, 4);
      QuotientStep(p, 100);
      QuotientStep(p, 400);
      LeapDays(p);
    }
  }

  /** The leap-day count of the closed form: divisible by 4, less by 100, plus by 400, is the leap-year rule. */
  lemma LeapDays(p: int)
    ensures (if p % 4 == 0 then 1 else 0) - (if p % 100 == 0 then 1 else 0) + (if p % 400 == 0 then 1 else 0)
            == DaysInYear(p) - 365
  {
    if p % 400 == 0 {
      var q := p / 400;
      assert p == (4 * q) * 100 + 0;
      DivModUnique(p, 100, 4 * q, 0);
    }
    if p % 100 == 0 {
      var q := p / 100;
      assert p == (25 * q) * 4 + 0;
      DivModUnique(p, 4, 25 * q, 0);
    }
  }

  /** Going from p - 1 to p, the quotient by k grows by one exactly when k divides p. */
  lemma QuotientStep(p: int, k: int)
    requires p >= 1 && k > 1
    ensures p / k - (p - 1) / k == (if p % k == 0 then 1 else 0)
  {
    var q, r := (p - 1) / k, (p - 1) % k;
    assert p - 1 == q * k + r && 0 <= r < k;
    if r + 1 < k {
      assert p == q * k + (r + 1);
      DivModUnique(p, k, q, r + 1);
    } else {
      assert p == (q + 1) * k + 0;
      DivModUnique(p, k, q + 1, 0);
    }
  }

  lemma DivModUnique(n: int, k: int, q: int, r: int)
    requires k > 0 && n == q * k + r && 0 <= r < k
    ensures n / k == q && n % k == r
  {
    var q', r' := n / k, n % k;
    assert n == q' * k + r';
    if q > q' {
      AtLeastOnce(q - q', k);
      assert false;
    } else if q < q' {
      AtLeastOnce(q' - q, k);
      assert false;
    }
  }

  lemma {:induction false} AtLeastOnce(d: int, k: int)
    requires d >= 1 && k > 0
    ensures d * k >= k
    decreases d
  {
    if d > 1 {
      AtLeastOnce(d - 1, k);
      assert d * k == (d - 1) * k + k;
    }
  }

  /** The year holding day n counted from the first of year y, and that day's number within its year. */
  function YearAndDay(y: int, n: int): (r: (int, int))
    requires y >= 1 && n >= 1
    ensures y <= r.0 && 1 <= r.1 <= DaysInYear(r.0)
    ensures DaysBeforeYear(r.0) + r.1 == DaysBeforeYear(y) + n
    decreases n
  {
    if n <= DaysInYear(y) then (y, n) else YearAndDay(y + 1, n - DaysInYear(y))
  }

  /** The month of year y holding day n counted from the first of month m, and the day within that month. */
  function MonthAndDay(y: int, m: int, n: int): (r: (int, int))
    requires 1 <= m <= 12 && n >= 1
    requires DaysBeforeMonth(y, m) + n <= DaysInYear(y)
    ensures m <= r.0 <= 12 && 1 <= r.1 <= DaysInMonth(y, r.0)
    ensures DaysBeforeMonth(y, r.0) + r.1 == DaysBeforeMonth(y, m) + n
    decreases 12 - m
  {
    if n <= DaysInMonth(y, m) then (m, n)
    else
      MonthsFillYear(y);
      MonthAndDay(y, m + 1, n - DaysInMonth(y, m))
  }

  /** `date.fromordinal(n)`: the valid date whose ordinal is n. */
  function FromOrdinal(n: int): (d: Date)
    requires n >= 1
    ensures ValidDate(d) && ToOrdinal(d) == n
  {
    var yd := YearAndDay(1, n);
    var md := MonthAndDay(yd.0, 1, yd.1);
    Date(yd.0, md.0, md.1)
  }

  /** Python's tuple comparison `a <= b` on dates. */
  predicate DateLe(a: Date, b: Date)
  {
    a.year < b.year
    || (a.year == b.year && (a.month < b.month || (a.month == b.month && a.day <= b.day)))
  }

  predicate DateLt(a: Date, b: Date)
  {
    DateLe(a, b) && a != b
  }

  lemma {:induction false} YearsAdvance(a: int, b: int)
    requires 1 <= a < b
    ensures DaysBeforeYear(a) + DaysInYear(a) <= DaysBeforeYear(b)
    decreases b
  {
    if b > a + 1 {
      YearsAdvance(a, b - 1);
    }
  }

  lemma {:induction false} MonthsAdvance(y: int, a: int, b: int)
    requires 1 <= a < b <= 12
    ensures DaysBeforeMonth(y, a) + DaysInMonth(y, a) <= DaysBeforeMonth(y, b)
    decreases b
  {
    if b > a + 1 {
      MonthsAdvance(y, a, b - 1);
    }
  }

  /** A day of a valid date lies inside its year. */
  lemma DayWithinYear(d: Date)
    requires ValidDate(d)
    ensures DaysBeforeYear(d.year) < ToOrdinal(d) <= DaysBeforeYear(d.year) + DaysInYear(d.year)
  {
    MonthsFillYear(d.year);
    if d.month < 12 {
      MonthsAdvance(d.year, d.month, 12);
    }
  }

  /** Strictly earlier dates have strictly smaller ordinals. */
  lemma StrictlyEarlier(a: Date, b: Date)
    requires ValidDate(a) && ValidDate(b) && DateLt(a, b)
    ensures ToOrdinal(a) < ToOrdinal(b)
  {
    if a.year < b.year {
      DayWithinYear(a);
      YearsAdvance(a.year, b.year);
    } else if a.month < b.month {
      MonthsAdvance(a.year, a.month, b.month);
    }
  }

  /** Date comparison is ordinal comparison, in both directions. */
  lemma OrderIsOrdinalOrder(a: Date, b: Date)
    requires ValidDate(a) && ValidDate(b)
    ensures DateLe(a, b) <==> ToOrdinal(a) <= ToOrdinal(b)
    ensures DateLt(a, b) <==> ToOrdinal(a) < ToOrdinal(b)
  {
    if DateLt(a, b) {
      StrictlyEarlier(a, b);
    } else if DateLt(b, a) {
      StrictlyEarlier(b, a);
    }
  }

  /** Two valid dates with the same ordinal are the same date. */
  lemma OrdinalInjective(a: Date, b: Date)
    requires ValidDate(a) && ValidDate(b) && ToOrdinal(a) == ToOrdinal(b)
    ensures a == b
  {
    OrderIsOrdinalOrder(a, b);
  }

  /** `date.fromordinal(d.toordinal()) == d`. */
  lemma FromToOrdinal(d: Date)
    requires ValidDate(d)
    ensures FromOrdinal(ToOrdinal(d)) == d
  {
    OrdinalInjective(FromOrdinal(ToOrdinal(d)), d);
  }

  /** `date.weekday()`: Monday is 0, Sunday is 6. */
  function Weekday(d: Date): (w: int)
    requires ValidDate(d)
    ensures 0 <= w < 7
  {
    (ToOrdinal(d) + 6) % 7
  }

  /** The ordinal of the Monday that starts the Monday-Sunday week holding ordinal n. */
  function MondayOf(n: int): (k: int)
    ensures k <= n < k + 7 && (k + 6) % 7 == 0
  {
    n - (n + 6) % 7
  }

  /** The calendar month before month m of year y. */
  function PreviousMonth(y: int, m: int): (r: (int, int))
    requires 1 <= m <= 12
    ensures 1 <= r.1 <= 12
    ensures r.0 * 12 + r.1 == y * 12 + m - 1
  {
    if m == 1 then (y - 1, 12) else (y, m - 1)
  }

  /** The last day of month m is the day before the first of the next month. */
  lemma {:induction false} DayBeforeFirst(d: Date)
    requires ValidDate(d) && (d.year, d.month) != (1, 1)
    ensures var p := PreviousMonth(d.year, d.month);
            var last := Date(p.0, p.1, DaysInMonth(p.0, p.1));
            ValidDate(last) && ToOrdinal(last) == ToOrdinal(d) - d.day
  {
    if d.month == 1 {
      MonthsFillYear(d.year - 1);
    }
  }
}
