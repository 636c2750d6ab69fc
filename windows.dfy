/**
 * The date windows of the week, month and three-month handlers, computed from
 * `today` alone. Each is `None` where Python's date arithmetic would raise
 * OverflowError by going before 0001-01-01.
 */
module Windows {
  import opened Wrappers
  import opened Calendar

  /** An inclusive range of dates. */
  datatype Window = Window(start: Date, end: Date)

  predicate InWindow(x: Date, w: Window)
  {
    DateLe(w.start, x) && DateLe(x, w.end)
  }

  /** x lies in the Monday-Sunday week before the one holding today. */
  predicate InPreviousWeek(x: Date, today: Date)
    requires ValidDate(x) && ValidDate(today)
  {
    MondayOf(ToOrdinal(x)) == MondayOf(ToOrdinal(today)) - 7
  }

  /** x lies in the calendar month before today's. */
  predicate InPreviousMonth(x: Date, today: Date)
    requires 1 <= today.month <= 12
  {
    (x.year, x.month) == PreviousMonth(today.year, today.month)
  }

  /** Months counted from year 0: consecutive months have consecutive indices. */
  function MonthIndex(d: Date): int
  {
    d.year * 12 + d.month
  }

  /** past_week: from the Monday a week before this week's Monday to the Sunday before it. */
  function PastWeekWindow(today: Date): Option<Window>
    requires ValidDate(today)
  {
    // this week's Monday: today - timedelta(days=today.weekday())
    var thisMonday := MondayOf(ToOrdinal(today));
    if thisMonday - 7 < 1 then None
    else Some(Window(FromOrdinal(thisMonday - 7), FromOrdinal(thisMonday - 1)))
  }

  /** past_month: the day before the first of today's month, and day 1 of that day's month. */
  function PastMonthWindow(today: Date): Option<Window>
    requires ValidDate(today)
  {
    var endOrdinal := ToOrdinal(today) - today.day;
    if endOrdinal < 1 then None
    else
      var end := FromOrdinal(endOrdinal);
      Some(Window(end.(day := 1), end))
  }

  /** last_3_month: day 1 of the month holding the day twelve weeks ago, up to the end of last month. */
  function Last3MonthWindow(today: Date): Option<Window>
    requires ValidDate(today)
  {
    var shifted := ToOrdinal(today) - 84;
    if shifted < 1 then None
    else Some(Window(FromOrdinal(shifted).(day := 1), FromOrdinal(ToOrdinal(today) - today.day)))
  }

  /** Two Mondays less than a week apart are the same day. */
  lemma SameMonday(a: int, b: int)
    requires (a + 6) % 7 == 0 && (b + 6) % 7 == 0
    requires a - 7 < b < a + 7
    ensures a == b
  {
    var qa, qb := (a + 6) / 7, (b + 6) / 7;
    assert a + 6 == 7 * qa && b + 6 == 7 * qb;
  }

  /** The previous week starts on a Monday, ends on the Sunday six days later, and ends the day before this week's Monday. */
  lemma PastWeekShape(today: Date)
    requires ValidDate(today)
    ensures PastWeekWindow(today).None? <==> MondayOf(ToOrdinal(today)) <= 7
    ensures PastWeekWindow(today).Some? ==>
              var w := PastWeekWindow(today).value;
              && ValidDate(w.start) && ValidDate(w.end)
              && Weekday(w.start) == 0 && Weekday(w.end) == 6
              && ToOrdinal(w.end) == ToOrdinal(w.start) + 6
              && ToOrdinal(w.end) + 1 == MondayOf(ToOrdinal(today))
              && DateLt(w.end, today)
  {
    var t := ToOrdinal(today);
    var monday := MondayOf(t);
    assert PastWeekWindow(today) ==
      if monday - 7 < 1 then None else Some(Window(FromOrdinal(monday - 7), FromOrdinal(monday - 1)));
    if monday - 7 >= 1 {
      WeekBefore(monday, today);
    }
  }

  /** The seven days before a Monday run from a Monday to a Sunday, all before any day from that Monday on. */
  lemma WeekBefore(monday: int, today: Date)
    requires monday - 7 >= 1 && (monday + 6) % 7 == 0
    requires ValidDate(today) && monday <= ToOrdinal(today)
    ensures var start, end := FromOrdinal(monday - 7), FromOrdinal(monday - 1);
            && Weekday(start) == 0 && Weekday(end) == 6
            && ToOrdinal(end) == ToOrdinal(start) + 6 && ToOrdinal(end) + 1 == monday
            && DateLt(end, today)
  {
    MondayShift(monday, -7);
    MondayShift(monday, 6 - 7);
    OrderIsOrdinalOrder(FromOrdinal(monday - 1), today);
  }

  /** Weekday arithmetic: k days after a Monday is weekday k, for k in -7 .. 6. */
  lemma MondayShift(monday: int, k: int)
    requires (monday + 6) % 7 == 0 && -7 <= k < 7
    ensures (monday + k + 6) % 7 == (k + 7) % 7
  {
    var q := (monday + 6) / 7;
    assert monday + 6 == 7 * q;
  }

  /** A date is in the past-week window exactly when it lies in the week before today's. */
  lemma PastWeekIsPreviousWeek(today: Date, x: Date)
    requires ValidDate(today) && ValidDate(x) && PastWeekWindow(today).Some?
    ensures InWindow(x, PastWeekWindow(today).value) <==> InPreviousWeek(x, today)
  {
    var w := PastWeekWindow(today).value;
    var s := MondayOf(ToOrdinal(today));
    var n := ToOrdinal(x);
    assert ToOrdinal(w.start) == s - 7 && ToOrdinal(w.end) == s - 1;
    assert InWindow(x, w) <==> s - 7 <= n <= s - 1 by {
      OrderIsOrdinalOrder(w.start, x);
      OrderIsOrdinalOrder(x, w.end);
    }
    WeekBeforeMonday(s, n);
  }

  /** The days of the week before Monday s are those whose Monday is s - 7. */
  lemma WeekBeforeMonday(s: int, n: int)
    requires (s + 6) % 7 == 0
    ensures s - 7 <= n <= s - 1 <==> MondayOf(n) == s - 7
  {
    var k := MondayOf(n);
    if s - 7 <= n <= s - 1 {
      assert (s - 7 + 6) % 7 == 0;
      SameMonday(k, s - 7);
    }
  }

  /** The past-month window is the whole previous calendar month, from its first day to its last. */
  lemma PastMonthIsPreviousMonth(today: Date)
    requires ValidDate(today)
    ensures PastMonthWindow(today) ==
              if (today.year, today.month) == (1, 1) then None
              else
                var p := PreviousMonth(today.year, today.month);
                Some(Window(Date(p.0, p.1, 1), Date(p.0, p.1, DaysInMonth(p.0, p.1))))
  {
    if (today.year, today.month) != (1, 1) {
      DayBeforeFirst(today);
      var p := PreviousMonth(today.year, today.month);
      FromToOrdinal(Date(p.0, p.1, DaysInMonth(p.0, p.1)));
    }
  }

  /** A date is in the past-month window exactly when it lies in the month before today's. */
  lemma PastMonthMembers(today: Date, x: Date)
    requires ValidDate(today) && ValidDate(x) && PastMonthWindow(today).Some?
    ensures InWindow(x, PastMonthWindow(today).value) <==> InPreviousMonth(x, today)
  {
    PastMonthIsPreviousMonth(today);
  }

  /** The ordinal of day 1 of month m of year y. */
  function FirstOrdinal(y: int, m: int): int
    requires y >= 1 && 1 <= m <= 12
  {
    ToOrdinal(Date(y, m, 1))
  }

  /** Before day 1 of a month there is a previous month, whose last day immediately precedes it. */
  lemma MonthBefore(y: int, m: int, s: int)
    requires y >= 1 && 1 <= m <= 12 && 1 <= s < FirstOrdinal(y, m)
    ensures (y, m) != (1, 1)
    ensures var p := PreviousMonth(y, m);
            p.0 >= 1 && FirstOrdinal(p.0, p.1) + DaysInMonth(p.0, p.1) == FirstOrdinal(y, m)
  {
    if (y, m) != (1, 1) {
      DayBeforeFirst(Date(y, m, 1));
    }
  }

  /** An ordinal inside month (y, m) belongs to a date of that month. */
  lemma OrdinalInMonth(y: int, m: int, k: int)
    requires y >= 1 && 1 <= m <= 12
    requires FirstOrdinal(y, m) <= k < FirstOrdinal(y, m) + DaysInMonth(y, m)
    ensures FromOrdinal(k) == Date(y, m, k - FirstOrdinal(y, m) + 1)
  {
    var d := Date(y, m, k - FirstOrdinal(y, m) + 1);
    assert ValidDate(d) && ToOrdinal(d) == k;
    FromToOrdinal(d);
  }

  /** The day twelve weeks before today falls two or three calendar months before today's month. */
  lemma TwelveWeeksBack(today: Date)
    requires ValidDate(today) && ToOrdinal(today) > 84
    ensures var d := FromOrdinal(ToOrdinal(today) - 84);
            MonthIndex(today) - 3 <= MonthIndex(d) <= MonthIndex(today) - 2
  {
    var s := ToOrdinal(today) - 84;
    var f0 := FirstOrdinal(today.year, today.month);
    assert s == f0 + today.day - 85;
    MonthBefore(today.year, today.month, s);
    var p1 := PreviousMonth(today.year, today.month);
    MonthBefore(p1.0, p1.1, s);
    var p2 := PreviousMonth(p1.0, p1.1);
    if FirstOrdinal(p2.0, p2.1) <= s {
      OrdinalInMonth(p2.0, p2.1, s);
    } else {
      // the three months before today's hold at least 3 * 28 = 84 days
      MonthBefore(p2.0, p2.1, s);
      var p3 := PreviousMonth(p2.0, p2.1);
      OrdinalInMonth(p3.0, p3.1, s);
    }
  }

  /**
   * The three-month window: it starts on day 1 of the month holding the day
   * twelve weeks ago, which is two or three calendar months before today's
   * month, and it ends where the past-month window ends.
   */
  lemma Last3MonthShape(today: Date)
    requires ValidDate(today)
    ensures Last3MonthWindow(today).None? <==> ToOrdinal(today) <= 84
    ensures Last3MonthWindow(today).Some? ==>
              var w := Last3MonthWindow(today).value;
              && ValidDate(w.start) && w.start.day == 1
              && ToOrdinal(w.start) <= ToOrdinal(today) - 84 < ToOrdinal(w.start) + DaysInMonth(w.start.year, w.start.month)
              && MonthIndex(today) - 3 <= MonthIndex(w.start) <= MonthIndex(today) - 2
              && PastMonthWindow(today).Some? && w.end == PastMonthWindow(today).value.end
              && DateLt(w.start, w.end)
  {
    var t := ToOrdinal(today);
    if t > 84 {
      var w := Last3MonthWindow(today).value;
      var d := FromOrdinal(t - 84);
      assert w.start == d.(day := 1);
      assert ToOrdinal(w.start) == t - 84 - d.day + 1;
      TwelveWeeksBack(today);
      assert ToOrdinal(w.end) == t - today.day;
      OrderIsOrdinalOrder(w.start, w.end);
    }
  }

  /** A date is in the three-month window exactly when its month runs from the window's first month to last month. */
  lemma Last3MonthMembers(today: Date, x: Date)
    requires ValidDate(today) && ValidDate(x) && Last3MonthWindow(today).Some?
    ensures InWindow(x, Last3MonthWindow(today).value) <==>
              MonthIndex(Last3MonthWindow(today).value.start) <= MonthIndex(x) < MonthIndex(today)
  {
    Last3MonthShape(today);
    PastMonthIsPreviousMonth(today);
  }
}
