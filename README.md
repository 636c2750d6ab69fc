# Expense tracker: a verified model of its ledger and reports

The service is a small Flask application (`app.py`). Users record expenses, each with a date, a description, an amount kept as text such as `"$25"`, and a named category. It then answers report queries: the expenses of an explicit date range, of the previous week, of the previous month, or of roughly the last three months, and the total of all amounts, overall or for one calendar month.

This project models that core in Dafny and proves what it does:

- **Calendar** (`calendar.dfy`): proleptic Gregorian dates and their ordinals, in the same form as Python's `date.toordinal`. It proves:
  - the closed form of the days before a year;
  - that the ordinal round-trips with `FromOrdinal`;
  - that comparing dates field by field is comparing ordinals, which is how `date >= start` and `date <= end` behave;
  - the weekday, the Monday of a week, and the day before the first of a month.
- **Records** (`records.dfy`): an expense, a joined report row and the faults a handler can end in.
  - `MissingFields` stands for the `ValueError` raised on an incomplete body.
  - `NoDateColumn` is the `KeyError` pandas raises when `df["date"]` is read from an empty frame.
  - `DateOverflow` is the `OverflowError` of stepping before 0001-01-01.
- **Store** (`store.dfy`): the expense and category tables as a class `Ledger` holding two maps and the next ids. It covers:
  - add, with category get-or-create;
  - update, which changes description and amount only, and only for the owner;
  - delete, owner only;
  - get_all, which reads every expense of every owner, in an order the database chooses.
- **Windows** (`windows.dfy`): the date windows of the three report handlers. Each is proved to mean what it is meant to mean:
  - the week window is exactly the Monday-to-Sunday week before today's;
  - the month window is exactly the previous calendar month;
  - the three-month window starts on day 1 of the month two or three months back and ends on the last day of the previous month.
- **Queries** (`queries.dfy`): the inclusive range filter and the handlers `custom_date`, `past_week`, `past_month` and `last_3_month`, with every message and failure path.
- **Amounts** (`amounts.dfy`): Python's `int()` on an amount after `replace("$", "")`, and `str()` of an integer. It proves that a rendered total reads back as the same integer.
- **Totals** (`totals.dfy`): the loops of `total` and `total_by_month`, proved against recursive sums. The month label is `"".join(dict.fromkeys(month))`.

Things the model treats as parameters:

- The caller's user id (from the access token in the service) is a plain parameter.
- Today's date (`datetime.today().date()`) is a plain parameter.
- The creation date of a new expense is a parameter. In the source it is the column default `datetime.now()` at `app.py:38`. That default is evaluated once, when the module loads, so every expense added by one server process gets the same date.
- The snapshot of the table that a query reads is a sequence of rows.

## Model

| member | source | states |
|---|---|---|
| Calendar.DaysBeforeYearClosedForm | app.py:198-201 | the days before year y, counted year by year, equal Python's closed form 365(y-1) + (y-1)/4 - (y-1)/100 + (y-1)/400 that `timedelta` arithmetic on dates rests on |
| Calendar.DaysBeforeMonthTable | app.py:224-226 | the days before month m follow the fixed table of month lengths, plus one after February in a leap year |
| Calendar.FromOrdinal | app.py:198-201 | converting a day number of at least 1 back to a date gives a valid date with exactly that ordinal, so subtracting days from a date lands on a real date |
| Calendar.FromToOrdinal | app.py:198-201 | converting a date to its ordinal and back returns the same date |
| Calendar.OrdinalInjective | app.py:198-201 | two valid dates with the same ordinal are the same date |
| Calendar.OrderIsOrdinalOrder | app.py:203-204 | comparing dates year, then month, then day, as the `>=` and `<=` of the filters do, agrees with comparing ordinals, for both `<=` and `<` |
| Calendar.Weekday | app.py:199 | `today.weekday()` is between 0 (Monday) and 6 |
| Calendar.MondayOf | app.py:199 | `today - timedelta(days=today.weekday())` is the unique Monday at most six days before today |
| Calendar.PreviousMonth | app.py:225 | the month before (y, m) is one month index earlier and stays in 1..12, wrapping from January to December of the year before |
| Calendar.DayBeforeFirst | app.py:226 | `today - timedelta(days=today.day)` is the last day of the previous month |
| Records.IdsOf | app.py:147-162 | every row's id is among the ids of a list of rows |
| Records.IdsOfExact | app.py:147-162 | the ids of a list of rows are exactly the set of its rows' ids and nothing else, so `IdsOf(rows) == expenses.Keys` means every expense appears and no other id does |
| Windows.PastWeekShape | app.py:198-201 | the week window runs from the Monday seven days before this week's Monday to the Sunday before it, seven days inclusive, and it fails only when that Monday would precede 0001-01-01 |
| Windows.PastWeekIsPreviousWeek | app.py:198-204 | a date is in the week window exactly when its week's Monday is seven days before today's week's Monday |
| Windows.PastMonthIsPreviousMonth | app.py:224-226 | the month window is day 1 to the last day of the month before today's month, and is missing only in January of year 1 |
| Windows.PastMonthMembers | app.py:224-229 | a date is in the month window exactly when its year and month are the month before today's |
| Windows.TwelveWeeksBack | app.py:247 | the day twelve weeks (84 days) before today lies two or three months before today's month |
| Windows.Last3MonthShape | app.py:246-248 | the three-month window is missing exactly when today is within the first 84 days of the calendar; otherwise it starts on day 1 of the month holding the day 84 days back, two or three months back, and ends where the previous-month window ends |
| Windows.Last3MonthMembers | app.py:246-251 | a date is in the three-month window exactly when its month lies from the start month up to, but not including, today's month |
| Queries.InRangeMembers | app.py:179-180 | the filter keeps exactly the rows whose date is at least start and at most end, both bounds included, and never adds a row |
| Queries.InRangeConcat | app.py:179-180 | the filter keeps ledger order: filtering two joined lists joins the filtered lists |
| Queries.InRangeKeepsAll | app.py:179-180 | a range that covers every row returns the snapshot unchanged |
| Queries.PastWeekFilter | app.py:203-204 | filtering the ledger by the week window keeps exactly the rows dated in the previous week |
| Queries.PastMonthFilter | app.py:228-229 | filtering the ledger by the month window keeps exactly the rows dated in the previous month |
| Queries.Last3MonthFilter | app.py:250-251 | filtering by the three-month window keeps exactly the rows whose month is from the start month to the month before today's |
| Queries.CustomDate | app.py:166-181 | without start and end the request fails; an empty ledger fails on the missing date column; otherwise the reply is exactly the rows within the inclusive range, possibly none |
| Queries.PastWeek | app.py:185-208 | an empty ledger answers "expense not found"; a week before 0001-01-01 fails; otherwise the reply is exactly the previous week's rows, or "expense past week not found" when there are none |
| Queries.PastMonth | app.py:212-233 | an empty ledger answers "expense not found"; January of year 1 fails; otherwise the reply is exactly the previous month's rows, or "expense past month not found" when there are none |
| Queries.Last3Month | app.py:237-256 | today within the first 84 days fails; an empty ledger fails on the missing date column, since this handler has no empty check; otherwise the reply is exactly the rows from the start month to the end of last month, or "expense last 3 month not found" |
| Store.Ledger.constructor | app.py:36-47 | a new ledger has no expenses and no categories and satisfies the table invariants |
| Store.Ledger.FindCategory | app.py:86 | the lookup returns a category of exactly that name, or reports that no category has it |
| Store.Ledger.Add | app.py:83-93 | a body without description, amount or category changes nothing; otherwise exactly one expense is added under a fresh id, owned by the caller; the category of that name is reused if one exists and created otherwise, and names stay unique |
| Store.Ledger.Update | app.py:107-120 | a missing id, a caller who is not the owner, or a body without description or amount changes nothing; otherwise only that expense's description and amount change; categories never change |
| Store.Ledger.Delete | app.py:133-143 | a missing id or a caller who is not the owner changes nothing; otherwise exactly that one expense is removed |
| Store.Ledger.Snapshot | app.py:148 | `Expense.query.all()` yields each expense exactly once, joined with its category name, with no id repeated |
| Store.Ledger.GetAll | app.py:147-162 | an empty table answers "Expense not found"; otherwise the reply lists every expense of every owner once, with its category name |
| Amounts.DigitChar | app.py:264 | a digit value maps to a decimal digit character that reads back as that value |
| Amounts.StripDollars | app.py:263 | `replace("$", "")` removes every dollar sign and keeps every other character |
| Amounts.StripDollarsCounts | app.py:263 | every character other than `$` is kept as often as it occurs: the result's multiset is the input's with the count of `$` set to zero |
| Amounts.StripDollarsConcat | app.py:263 | the replacement keeps order: stripping two joined strings joins the two stripped strings |
| Amounts.StripDollarsKeeps | app.py:263 | text without a dollar sign is left unchanged |
| Amounts.ShowNatDigits | app.py:264 | the decimal rendering of a natural number is non-empty, all digits, and reads back as that number |
| Amounts.ParseDigits | app.py:263 | `int()` reads a run of decimal digits as its decimal value |
| Amounts.ParseNegative | app.py:263 | `int()` reads a minus sign followed by decimal digits as the negated value |
| Amounts.ParseShow | app.py:263-264 | `int(str(n)) == n` for every integer, negative ones included |
| Amounts.RenderedTotalReadsBack | app.py:263-264 | the total as rendered, `"$" + str(total)`, is itself an amount `int()` reads back as the same total |
| Totals.AmountSumDefined | app.py:262-263 | the sum exists exactly when every amount parses as an integer |
| Totals.AmountSumConcat | app.py:262-263 | the sum over two joined lists is the sum of their sums, and fails when either part fails |
| Totals.Total | app.py:261-265 | the loop answers "$" followed by the sum of all amounts, or fails when some amount is not an integer |
| Totals.MatchingRows | app.py:273 | the rows selected are exactly those whose month is `id`, in any year |
| Totals.MonthSumDefined | app.py:271-275 | the month's sum exists exactly when every amount of a row in that month parses; amounts of other months are never read |
| Totals.MonthSumIsSumOfMatching | app.py:271-275 | the month's sum is the overall sum of just the rows of that month |
| Totals.MonthOutOfRange | app.py:269-278 | a month number outside 1..12 matches no row: the total is 0 and the label empty |
| Totals.Dedup | app.py:278 | `dict.fromkeys` keeps no element twice, and keeps every element that occurs |
| Totals.DedupPrefix | app.py:278 | `dict.fromkeys` keeps first occurrences: what later elements add never reorders what came before |
| Totals.DedupAbsorbs | app.py:278 | elements already seen add nothing to the result |
| Totals.DedupOfDistinct | app.py:278 | a sequence without repeats comes back unchanged |
| Totals.MonthNamesRepeat | app.py:274-276 | the collected names are the month's English name once per matching row |
| Totals.DedupRepeat | app.py:276-278 | de-duplicating a name repeated one or more times is the same as de-duplicating it once |
| Totals.TotalByMonth | app.py:269-278 | the loop answers "Total expense for <label>: $<sum>" with the month's sum and the de-duplicated names, or fails when an amount of that month is not an integer |
| Totals.MonthLabel | app.py:276-278 | with any row of month `id`, the label is that month's name with repeated characters dropped, however many rows or years contribute |
| Totals.JanuaryLabel | app.py:278 | as written, a ledger with a January row reports the month as "Janury", not "January" |
| Totals.DedupJanuary | app.py:278 | de-duplicating the characters of "January" gives "Janury" |
| Totals.IntendedLabel | app.py:278 | with names rather than characters de-duplicated, the label is the month's name whenever a row of that month exists, and empty otherwise |
| Totals.NamesJoined | app.py:274-278 | joining the list of collected names gives exactly the string the loop builds, so the as-written label and the corrected label start from the same names |
| Totals.NameListShape | app.py:274-276 | the list of names collected holds only the month's name, and is empty exactly when no row is of that month |
| Totals.DedupOfConstant | app.py:278 | a non-empty run of one repeated name de-duplicates to that name alone |

## Left out

- HTTP, JSON and Flask: request bodies arrive as already-parsed optional fields, and replies are the `Reply` and `Result` values. Status codes are not modelled. Neither is the text of the `Forbidden` messages: `update` spells it "Forbbiden" and `delete` spells it "Forbidden".
- `register`, `login`, password hashing and the JWT machinery are outside the core. The caller's identity is a parameter.
- The SQL database, its sessions, transactions and concurrent requests are modelled as one `Ledger` object changed by one handler at a time. Id assignment is modelled as a counter that never reuses an id.
- The order of `Expense.query.all()` is the database's choice. `Snapshot` picks ids in an unspecified order, and every report is proved for any order.
- Store.Ledger.Add: the expense's creation date is the parameter `created`. The column default `datetime.now()` is evaluated once at import, and that is not modelled beyond that parameter.
- Calendar: dates have no upper bound at year 9999. Every date computed here lies at or before today, so only the lower bound 0001-01-01 matters, and that is modelled as `DateOverflow`.
- The `start` and `end` strings of `custom_date` are taken as dates already parsed. Malformed strings, pandas' string-to-timestamp comparison and time-of-day parts are not modelled.
- Amounts: `int()` is modelled on ASCII input: the six ASCII whitespace characters it skips (space, tab, newline, vertical tab, form feed, carriage return), an optional sign, and decimal digits with single underscores between them. Not modelled:
  - Unicode digits and Unicode whitespace;
  - the 4300-digit conversion limit;
  - amounts sent as JSON numbers rather than strings.
- The `descsription` key typo in `past_week` only shapes the JSON output. It is not modelled.
- pandas `Timestamp` bounds: `pd.to_datetime` (app.py:178, 202, 227, 249, 274) raises `OutOfBoundsDatetime` for a date before 1677-09-21 or after 2262-04-11. So `custom_date`, `past_week`, `past_month`, `last_3_month` and `total_by_month` fail on a ledger holding such a row, while the model filters or sums it like any other. Expense dates come from the server clock, so such rows do not arise in practice; the model covers the whole proleptic calendar instead.

## Findings

| source | as written | input that shows it | evidently intended | confidence | as-written member | corrected member |
|---|---|---|---|---|---|---|
| app.py:278 | `"".join(dict.fromkeys(month))` drops repeated characters of the concatenated month names | any ledger with an expense dated in January, then GET /expense/total/1: the label is "Janury" | drop repeated month names and keep each name whole, so the label reads "January" | not executed | Totals.JanuaryLabel | Totals.IntendedLabel |
