/**
 * The read handlers that filter the ledger by date: POST /expenses (an
 * explicit range) and GET /expense/week, /expense/month and
 * /expense/last-3-month. Each works on a snapshot of the whole ledger, of
 * every owner, and on today's date, both given as parameters.
 */
module Queries {
  import opened Wrappers
  import opened Calendar
  import opened Records
  import opened Windows

  /** The rows dated from start to end, both included, in their original order. */
  function InRange(rows: seq<Row>, start: Date, end: Date): seq<Row>
  {
    if rows == [] then []
    else
      (if DateLe(start, rows[0].date) && DateLe(rows[0].date, end) then [rows[0]] else [])
      + InRange(rows[1..], start, end)
  }

  /** The filter keeps exactly the rows dated from start to end, both included, and never adds one. */
  lemma {:induction false} InRangeMembers(rows: seq<Row>, start: Date, end: Date)
    ensures forall x :: x in InRange(rows, start, end) <==> x in rows && DateLe(start, x.date) && DateLe(x.date, end)
    ensures |InRange(rows, start, end)| <= |rows|
    decreases |rows|
  {
    if rows != [] {
      InRangeMembers(rows[1..], start, end);
      assert forall x :: x in rows <==> x == rows[0] || x in rows[1..];
    }
  }

  /** Filtering keeps order: filtering a concatenation concatenates the filtered parts. */
  lemma {:induction false} InRangeConcat(a: seq<Row>, b: seq<Row>, start: Date, end: Date)
    ensures InRange(a + b, start, end) == InRange(a, start, end) + InRange(b, start, end)
    decreases |a|
  {
    if a == [] {
      assert a + b == b;
    } else {
      assert (a + b)[0] == a[0];
      assert (a + b)[1..] == a[1..] + b;
      InRangeConcat(a[1..], b, start, end);
    }
  }

  /** A range that holds every row returns the snapshot unchanged. */
  lemma {:induction false} InRangeKeepsAll(rows: seq<Row>, start: Date, end: Date)
    requires forall x :: x in rows ==> DateLe(start, x.date) && DateLe(x.date, end)
    ensures InRange(rows, start, end) == rows
    decreases |rows|
  {
    if rows != [] {
      assert forall x :: x in rows[1..] ==> x in rows;
      InRangeKeepsAll(rows[1..], start, end);
    }
  }

  lemma PastWeekFilter(rows: seq<Row>, today: Date)
    requires AllDatesValid(rows) && ValidDate(today) && PastWeekWindow(today).Some?
    ensures var w := PastWeekWindow(today).value;
            forall x :: x in InRange(rows, w.start, w.end) <==> x in rows && InPreviousWeek(x.date, today)
  {
    var w := PastWeekWindow(today).value;
    InRangeMembers(rows, w.start, w.end);
    forall x | x in rows {
      PastWeekIsPreviousWeek(today, x.date);
    }
  }

  lemma PastMonthFilter(rows: seq<Row>, today: Date)
    requires AllDatesValid(rows) && ValidDate(today) && PastMonthWindow(today).Some?
    ensures var w := PastMonthWindow(today).value;
            forall x :: x in InRange(rows, w.start, w.end) <==> x in rows && InPreviousMonth(x.date, today)
  {
    var w := PastMonthWindow(today).value;
    InRangeMembers(rows, w.start, w.end);
    forall x | x in rows {
      PastMonthMembers(today, x.date);
    }
  }

  lemma Last3MonthFilter(rows: seq<Row>, today: Date)
    requires AllDatesValid(rows) && ValidDate(today) && Last3MonthWindow(today).Some?
    ensures var w := Last3MonthWindow(today).value;
            forall x :: x in InRange(rows, w.start, w.end) <==>
              x in rows && MonthIndex(w.start) <= MonthIndex(x.date) < MonthIndex(today)
  {
    var w := Last3MonthWindow(today).value;
    InRangeMembers(rows, w.start, w.end);
    forall x | x in rows {
      Last3MonthMembers(today, x.date);
    }
  }

  /**
   * POST /expenses: start and end must both be given; an empty ledger fails
   * (its DataFrame has no "date" column); otherwise the reply lists exactly
   * the rows dated within the range, and an empty list is a normal answer.
   */
  function CustomDate(rows: seq<Row>, start: Option<Date>, end: Option<Date>): (reply: Reply)
    ensures start.None? || end.None? ==> reply == Failed(MissingFields)
    ensures start.Some? && end.Some? && rows == [] ==> reply == Failed(NoDateColumn)
    ensures start.Some? && end.Some? && rows != [] ==>
              reply.Rows? && forall x :: x in reply.rows <==> x in rows && DateLe(start.value, x.date) && DateLe(x.date, end.value)
  {
    if start.None? || end.None? then Failed(MissingFields)
    else if rows == [] then Failed(NoDateColumn)
    else
      InRangeMembers(rows, start.value, end.value);
      Rows(InRange(rows, start.value, end.value))
  }

  /**
   * GET /expense/week: the rows of the Monday-Sunday week before today's;
   * a message when the ledger is empty or no row falls in that week.
   */
  function PastWeek(rows: seq<Row>, today: Date): (reply: Reply)
    requires AllDatesValid(rows) && ValidDate(today)
    ensures rows == [] ==> reply == Message("expense not found")
    ensures rows != [] && PastWeekWindow(today).None? ==> reply == Failed(DateOverflow)
    ensures reply.Rows? ==> reply.rows != [] && forall x :: x in reply.rows <==> x in rows && InPreviousWeek(x.date, today)
    ensures rows != [] && PastWeekWindow(today).Some? && reply.Message? ==>
              reply.text == "expense past week not found" && forall x :: x in rows ==> !InPreviousWeek(x.date, today)
    ensures rows != [] && PastWeekWindow(today).Some? ==> reply.Rows? || reply == Message("expense past week not found")
    ensures (exists x :: x in rows && InPreviousWeek(x.date, today)) ==> reply.Rows?
  {
    if rows == [] then Message("expense not found")
    else match PastWeekWindow(today)
      case None => Failed(DateOverflow)
      case Some(w) =>
        PastWeekFilter(rows, today);
        var found := InRange(rows, w.start, w.end);
        if found == [] then Message("expense past week not found") else Rows(found)
  }

  /**
   * GET /expense/month: the rows of the calendar month before today's; a
   * message when the ledger is empty or no row falls in that month.
   */
  function PastMonth(rows: seq<Row>, today: Date): (reply: Reply)
    requires AllDatesValid(rows) && ValidDate(today)
    ensures rows == [] ==> reply == Message("expense not found")
    ensures rows != [] && (today.year, today.month) == (1, 1) ==> reply == Failed(DateOverflow)
    ensures reply.Rows? ==> reply.rows != [] && forall x :: x in reply.rows <==> x in rows && InPreviousMonth(x.date, today)
    ensures rows != [] && (today.year, today.month) != (1, 1) && reply.Message? ==>
              reply.text == "expense past month not found" && forall x :: x in rows ==> !InPreviousMonth(x.date, today)
    ensures rows != [] && (today.year, today.month) != (1, 1) ==> reply.Rows? || reply == Message("expense past month not found")
    ensures (exists x :: x in rows && InPreviousMonth(x.date, today)) ==> reply.Rows?
  {
    PastMonthIsPreviousMonth(today);
    if rows == [] then Message("expense not found")
    else match PastMonthWindow(today)
      case None => Failed(DateOverflow)
      case Some(w) =>
        PastMonthFilter(rows, today);
        var found := InRange(rows, w.start, w.end);
        if found == [] then Message("expense past month not found") else Rows(found)
  }

  /**
   * GET /expense/last-3-month: the rows from day 1 of the month holding the
   * day twelve weeks ago to the end of last month. Unlike the week and month
   * handlers it does not test for an empty ledger first, so an empty ledger
   * fails on the missing "date" column.
   */
  function Last3Month(rows: seq<Row>, today: Date): (reply: Reply)
    requires AllDatesValid(rows) && ValidDate(today)
    ensures ToOrdinal(today) <= 84 ==> reply == Failed(DateOverflow)
    ensures ToOrdinal(today) > 84 && rows == [] ==> reply == Failed(NoDateColumn)
    ensures reply.Rows? ==>
              && Last3MonthWindow(today).Some?
              && var first := Last3MonthWindow(today).value.start;
                 && MonthIndex(today) - 3 <= MonthIndex(first) <= MonthIndex(today) - 2
                 && reply.rows != []
                 && forall x :: x in reply.rows <==> x in rows && MonthIndex(first) <= MonthIndex(x.date) < MonthIndex(today)
    ensures ToOrdinal(today) > 84 && rows != [] && reply.Message? ==>
              && reply.text == "expense last 3 month not found"
              && forall x :: x in rows ==> !InWindow(x.date, Last3MonthWindow(today).value)
    ensures ToOrdinal(today) > 84 && rows != [] ==>
              (reply.Rows? <==> exists x :: x in rows && InWindow(x.date, Last3MonthWindow(today).value))
    ensures ToOrdinal(today) > 84 && rows != [] ==> reply.Rows? || reply == Message("expense last 3 month not found")
  {
    Last3MonthShape(today);
    match Last3MonthWindow(today)
    case None => Failed(DateOverflow)
    case Some(w) =>
      if rows == [] then Failed(NoDateColumn)
      else
        Last3MonthFilter(rows, today);
        InRangeMembers(rows, w.start, w.end);
        var found := InRange(rows, w.start, w.end);
        if found == [] then Message("expense last 3 month not found")
        else
          assert found[0] in rows && InWindow(found[0].date, w);
          Rows(found)
  }
}
