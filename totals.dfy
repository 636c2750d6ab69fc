/**
 * GET /expense/total and GET /expense/total/<id>: sums of the amounts of the
 * whole ledger, of every owner, overall or for one calendar month in any year.
 */
module Totals {
  import opened Wrappers
  import opened Records
  import opened Amounts

  /** `total += int(...)`: a running sum plus one parsed amount; a failed parse fails the sum. */
  function AddAmount(sum: Option<int>, amount: Option<int>): Option<int>
  {
    if sum.Some? && amount.Some? then Some(sum.value + amount.value) else None
  }

  /** The sum of the rows' amounts; `None` when `int()` rejects one of them. */
  function AmountSum(rows: seq<Row>): Option<int>
  {
    if rows == [] then Some(0)
    else AddAmount(AmountSum(rows[..|rows| - 1]), AmountValue(rows[|rows| - 1].amount))
  }

  /** The sum exists exactly when every amount is an integer. */
  lemma {:induction false} AmountSumDefined(rows: seq<Row>)
    ensures AmountSum(rows).Some? <==> forall x :: x in rows ==> AmountValue(x.amount).Some?
    decreases |rows|
  {
    if rows != [] {
      var init := rows[..|rows| - 1];
      AmountSumDefined(init);
      assert forall x :: x in rows <==> x in init || x == rows[|rows| - 1];
    }
  }

  /** Summing a concatenation adds the sums of the parts. */
  lemma {:induction false} AmountSumConcat(a: seq<Row>, b: seq<Row>)
    ensures AmountSum(a + b) ==
              if AmountSum(a).Some? && AmountSum(b).Some? then Some(AmountSum(a).value + AmountSum(b).value) else None
    decreases |b|
  {
    if b == [] {
      assert a + b == a;
    } else {
      var b' := b[..|b| - 1];
      assert (a + b)[..|a + b| - 1] == a + b';
      assert (a + b)[|a + b| - 1] == b[|b| - 1];
      AmountSumConcat(a, b');
    }
  }

  /** GET /expense/total: "$" followed by the sum of every amount, or a failure when one amount is not an integer. */
  method Total(rows: seq<Row>) returns (r: Result<string, Fault>)
    ensures AmountSum(rows).Some? ==> r == Success("$" + ShowInt(AmountSum(rows).value))
    ensures AmountSum(rows).None? ==> r == Failure(BadAmount)
  {
    var total := 0;
    var i := 0;
    while i < |rows|
      invariant 0 <= i <= |rows|
      invariant AmountSum(rows[..i]) == Some(total)
    {
      var v := AmountValue(rows[i].amount);
      if v.None? {
        assert rows[i] in rows;
        AmountSumDefined(rows);
        return Failure(BadAmount);
      }
      assert rows[..i + 1][..i] == rows[..i];
      total := total + v.value;
      i := i + 1;
    }
    assert rows[..i] == rows;
    r := Success("$" + ShowInt(total));
  }

  /** The English name `strftime("%B")` gives month m. */
  function MonthName(m: int): string
    requires 1 <= m <= 12
  {
    ["January", "February", "March", "April", "May", "June", "July",
     "August", "September", "October", "November", "December"][m - 1]
  }

  /** The rows dated in month `id` of any year, in ledger order. */
  function MatchingRows(rows: seq<Row>, id: int): (r: seq<Row>)
    ensures forall x :: x in r <==> x in rows && x.date.month == id
  {
    if rows == [] then []
    else
      var last := rows[|rows| - 1];
      assert forall x :: x in rows <==> x in rows[..|rows| - 1] || x == last;
      MatchingRows(rows[..|rows| - 1], id) + (if last.date.month == id then [last] else [])
  }

  /** The sum total_by_month accumulates: the amounts of the rows of month `id`; other rows' amounts are not read. */
  function MonthSum(rows: seq<Row>, id: int): Option<int>
  {
    if rows == [] then Some(0)
    else
      var last := rows[|rows| - 1];
      var before := MonthSum(rows[..|rows| - 1], id);
      if last.date.month != id then before else AddAmount(before, AmountValue(last.amount))
  }

  /** The month's sum exists exactly when every amount of a row of that month is an integer. */
  lemma {:induction false} MonthSumDefined(rows: seq<Row>, id: int)
    ensures MonthSum(rows, id).Some? <==> forall x :: x in rows && x.date.month == id ==> AmountValue(x.amount).Some?
    decreases |rows|
  {
    if rows != [] {
      var init := rows[..|rows| - 1];
      MonthSumDefined(init, id);
      assert forall x :: x in rows <==> x in init || x == rows[|rows| - 1];
    }
  }

  /** The month names total_by_month collects: one name per matching row, concatenated. */
  function MonthNames(rows: seq<Row>, id: int): string
    requires AllDatesValid(rows)
  {
    if rows == [] then ""
    else
      var last := rows[|rows| - 1];
      assert last in rows;
      MonthNames(rows[..|rows| - 1], id) + (if last.date.month == id then MonthName(last.date.month) else "")
  }

  /** `"".join(dict.fromkeys(s))`: the elements of s, each kept at its first occurrence only. */
  function Dedup<T(==,!new)>(s: seq<T>): (r: seq<T>)
    ensures forall i, j :: 0 <= i < j < |r| ==> r[i] != r[j]
    ensures forall x :: x in r <==> x in s
  {
    if s == [] then []
    else
      var prefix := Dedup(s[..|s| - 1]);
      assert forall x :: x in s <==> x in s[..|s| - 1] || x == s[|s| - 1];
      if s[|s| - 1] in prefix then prefix else prefix + [s[|s| - 1]]
  }

  /** The reply text of total_by_month. */
  function SummaryText(names: string, total: int): string
  {
    "Total expense for " + names + ": $" + ShowInt(total)
  }

  lemma AmountSumAppend(rows: seq<Row>, x: Row)
    ensures AmountSum(rows + [x]) == AddAmount(AmountSum(rows), AmountValue(x.amount))
  {
    assert (rows + [x])[..|rows|] == rows;
  }

  /** One more row of the ledger extends the matching rows and the collected names by that row, if it matches. */
  lemma MonthPrefixStep(rows: seq<Row>, i: nat, id: int)
    requires AllDatesValid(rows) && i < |rows|
    ensures AllDatesValid(rows[..i]) && AllDatesValid(rows[..i + 1])
    ensures MonthSum(rows[..i + 1], id) ==
              if rows[i].date.month != id then MonthSum(rows[..i], id)
              else AddAmount(MonthSum(rows[..i], id), AmountValue(rows[i].amount))
    ensures MonthNames(rows[..i + 1], id) == MonthNames(rows[..i], id) + (if rows[i].date.month == id then MonthName(id) else "")
  {
    assert forall x :: x in rows[..i + 1] ==> x in rows;
    assert rows[..i + 1][..i] == rows[..i];
    assert rows[..i + 1][i] == rows[i];
  }

  /**
   * GET /expense/total/<id>: the sum of the amounts of the rows whose month is
   * `id`, in any year, and the names of those months with every repeated
   * character dropped; a failure when one of those amounts is not an integer.
   */
  method TotalByMonth(rows: seq<Row>, id: int) returns (r: Result<string, Fault>)
    requires AllDatesValid(rows)
    ensures MonthSum(rows, id).Some? ==> r == Success(SummaryText(Dedup(MonthNames(rows, id)), MonthSum(rows, id).value))
    ensures MonthSum(rows, id).None? ==> r == Failure(BadAmount)
  {
    var total := 0;
    var month := "";
    var i := 0;
    while i < |rows|
      invariant 0 <= i <= |rows|
      invariant MonthSum(rows[..i], id) == Some(total)
      invariant month == MonthNames(rows[..i], id)
    {
      MonthPrefixStep(rows, i, id);
      if rows[i].date.month == id {
        var v := AmountValue(rows[i].amount);
        if v.None? {
          assert rows[i] in rows;
          MonthSumDefined(rows, id);
          return Failure(BadAmount);
        }
        total := total + v.value;
        month := month + MonthName(rows[i].date.month);
      }
      i := i + 1;
    }
    assert rows[..i] == rows;
    r := Success(SummaryText(Dedup(month), total));
  }

  /** The last row of the ledger adds its amount to the month sum when it matches and leaves the sum alone otherwise. */
  lemma MonthSumLast(rows: seq<Row>, id: int)
    requires rows != []
    ensures MonthSum(rows, id) ==
              if rows[|rows| - 1].date.month != id then MonthSum(rows[..|rows| - 1], id)
              else AddAmount(MonthSum(rows[..|rows| - 1], id), AmountValue(rows[|rows| - 1].amount))
  {
  }

  /** total_by_month sums exactly the rows of month `id`, in any year: its sum is the overall sum of those rows. */
  lemma {:induction false} MonthSumIsSumOfMatching(rows: seq<Row>, id: int)
    ensures MonthSum(rows, id) == AmountSum(MatchingRows(rows, id))
    decreases |rows|
  {
    if rows != [] {
      var init, last := rows[..|rows| - 1], rows[|rows| - 1];
      MonthSumIsSumOfMatching(init, id);
      MonthSumLast(rows, id);
      if last.date.month == id {
        assert MatchingRows(rows, id) == MatchingRows(init, id) + [last];
        AmountSumAppend(MatchingRows(init, id), last);
      } else {
        assert MatchingRows(rows, id) == MatchingRows(init, id) + [];
        assert MatchingRows(init, id) + [] == MatchingRows(init, id);
      }
    }
  }

  lemma {:induction false} MonthOutOfRange(rows: seq<Row>, id: int)
    requires AllDatesValid(rows) && !(1 <= id <= 12)
    ensures MonthSum(rows, id) == Some(0) && MonthNames(rows, id) == ""
    decreases |rows|
  {
    if rows != [] {
      assert rows[|rows| - 1] in rows;
      assert forall x :: x in rows[..|rows| - 1] ==> x in rows;
      MonthOutOfRange(rows[..|rows| - 1], id);
    }
  }

  /** A string repeated k times. */
  function Repeat(w: string, k: nat): string
  {
    if k == 0 then "" else Repeat(w, k - 1) + w
  }

  /** The names collected for month `id` are its name once per matching row. */
  lemma {:induction false} MonthNamesRepeat(rows: seq<Row>, id: int)
    requires AllDatesValid(rows) && 1 <= id <= 12
    ensures MonthNames(rows, id) == Repeat(MonthName(id), |MatchingRows(rows, id)|)
    decreases |rows|
  {
    if rows != [] {
      var init, last := rows[..|rows| - 1], rows[|rows| - 1];
      assert last in rows;
      assert forall x :: x in init ==> x in rows;
      MonthNamesRepeat(init, id);
      assert |MatchingRows(rows, id)| == |MatchingRows(init, id)| + (if last.date.month == id then 1 else 0);
    }
  }

  /** Dedup keeps first occurrences: what it keeps of s stays at the front when more elements follow. */
  lemma {:induction false} DedupPrefix<T(!new)>(s: seq<T>, t: seq<T>)
    ensures Dedup(s) <= Dedup(s + t)
    decreases |t|
  {
    if t == [] {
      assert s + t == s;
    } else {
      var t' := t[..|t| - 1];
      assert (s + t)[..|s + t| - 1] == s + t';
      DedupPrefix(s, t');
    }
  }

  /** Elements already seen add nothing to Dedup. */
  lemma {:induction false} DedupAbsorbs<T(!new)>(s: seq<T>, t: seq<T>)
    requires forall x :: x in t ==> x in s
    ensures Dedup(s + t) == Dedup(s)
    decreases |t|
  {
    if t == [] {
      assert s + t == s;
    } else {
      var t' := t[..|t| - 1];
      assert (s + t)[..|s + t| - 1] == s + t';
      assert t[|t| - 1] in t;
      assert forall x :: x in t' ==> x in t;
      DedupAbsorbs(s, t');
    }
  }

  /** A sequence without repeated elements is its own Dedup. */
  lemma {:induction false} DedupOfDistinct<T(!new)>(s: seq<T>)
    requires forall i, j :: 0 <= i < j < |s| ==> s[i] != s[j]
    ensures Dedup(s) == s
    decreases |s|
  {
    if s != [] {
      var init := s[..|s| - 1];
      DedupOfDistinct(init);
      assert s[|s| - 1] !in init;
      assert init + [s[|s| - 1]] == s;
    }
  }

  lemma {:induction false} DedupRepeat(w: string, k: nat)
    requires k >= 1
    ensures Dedup(Repeat(w, k)) == Dedup(w)
    decreases k
  {
    if k == 1 {
      assert Repeat(w, 1) == "" + w;
      assert "" + w == w;
    } else {
      DedupRepeat(w, k - 1);
      assert forall c :: c in w ==> c in Repeat(w, k - 1) by {
        RepeatHolds(w, k - 1);
      }
      DedupAbsorbs(Repeat(w, k - 1), w);
    }
  }

  lemma {:induction false} RepeatHolds(w: string, k: nat)
    requires k >= 1
    ensures forall c :: c in w ==> c in Repeat(w, k)
    decreases k
  {
    if k > 1 {
      RepeatHolds(w, k - 1);
    }
  }

  /**
   * The label total_by_month reports: with at least one row of month `id`, it
   * is that month's name with repeated characters dropped, however many rows
   * and years contribute; it never holds a character twice.
   */
  lemma MonthLabel(rows: seq<Row>, id: int, x: Row)
    requires AllDatesValid(rows) && 1 <= id <= 12 && x in rows && x.date.month == id
    ensures Dedup(MonthNames(rows, id)) == Dedup(MonthName(id))
  {
    MonthNamesRepeat(rows, id);
    assert x in MatchingRows(rows, id);
    DedupRepeat(MonthName(id), |MatchingRows(rows, id)|);
  }

  /**
   * As written, total_by_month drops repeated characters rather than repeated
   * names: any ledger with a January row reports the month as "Janury".
   */
  lemma JanuaryLabel(rows: seq<Row>, x: Row)
    requires AllDatesValid(rows) && x in rows && x.date.month == 1
    ensures Dedup(MonthNames(rows, 1)) == "Janury"
    ensures Dedup(MonthNames(rows, 1)) != MonthName(1)
  {
    MonthLabel(rows, 1, x);
    DedupJanuary();
  }

  /** dict.fromkeys on the characters of "January" keeps the first 'a' and drops the second. */
  lemma DedupJanuary()
    ensures Dedup(MonthName(1)) == "Janury"
  {
    assert MonthName(1) == "January";
    DedupJanuar();
    DedupStep("Januar", 'y', "Janur");
    assert "Januar" + ['y'] == "January";
    assert 'y' !in "Janur" && "Janur" + ['y'] == "Janury";
  }

  /** The steps of DedupJanuary, one letter of "January" each. */
  lemma DedupJa()
    ensures Dedup("Ja") == "Ja"
  {
    assert "J"[..0] == [];
    DedupStep("J", 'a', "J");
    assert "J" + ['a'] == "Ja";
    assert 'a' !in "J" && "J" + ['a'] == "Ja";
  }

  lemma DedupJan()
    ensures Dedup("Jan") == "Jan"
  {
    DedupJa();
    DedupStep("Ja", 'n', "Ja");
    assert "Ja" + ['n'] == "Jan";
    assert 'n' !in "Ja" && "Ja" + ['n'] == "Jan";
  }

  lemma DedupJanu()
    ensures Dedup("Janu") == "Janu"
  {
    DedupJan();
    DedupStep("Jan", 'u', "Jan");
    assert "Jan" + ['u'] == "Janu";
    assert 'u' !in "Jan" && "Jan" + ['u'] == "Janu";
  }

  lemma DedupJanua()
    ensures Dedup("Janua") == "Janu"
  {
    DedupJanu();
    DedupStep("Janu", 'a', "Janu");
    assert "Janu" + ['a'] == "Janua";
    assert "Janu"[1] == 'a';
  }

  lemma DedupJanuar()
    ensures Dedup("Januar") == "Janur"
  {
    DedupJanua();
    DedupStep("Janua", 'r', "Janu");
    assert "Janua" + ['r'] == "Januar";
    assert 'r' !in "Janu" && "Janu" + ['r'] == "Janur";
  }

  /** One element appended to s: Dedup keeps it when new and drops it when already seen. */
  lemma DedupStep(s: string, c: char, d: string)
    requires s != [] && Dedup(s) == d
    ensures Dedup(s + [c]) == if c in d then d else d + [c]
  {
    assert (s + [c])[..|s|] == s;
  }

  /** The name of month `id` once per row of that month, in ledger order. */
  function NameList(rows: seq<Row>, id: int): seq<string>
    requires 1 <= id <= 12
  {
    if rows == [] then []
    else NameList(rows[..|rows| - 1], id) + (if rows[|rows| - 1].date.month == id then [MonthName(id)] else [])
  }

  /** The strings of a sequence, joined. */
  function Concat(names: seq<string>): string
  {
    if names == [] then "" else Concat(names[..|names| - 1]) + names[|names| - 1]
  }

  /** Joining the listed names gives the string total_by_month collects: both halves start from the same names. */
  lemma {:induction false} NamesJoined(rows: seq<Row>, id: int)
    requires AllDatesValid(rows) && 1 <= id <= 12
    ensures Concat(NameList(rows, id)) == MonthNames(rows, id)
    decreases |rows|
  {
    if rows != [] {
      var init, last := rows[..|rows| - 1], rows[|rows| - 1];
      assert last in rows;
      assert forall x :: x in init ==> x in rows;
      NamesJoined(init, id);
      if last.date.month == id {
        var names := NameList(init, id) + [MonthName(id)];
        assert names[..|names| - 1] == NameList(init, id);
        assert Concat(NameList(rows, id)) == Concat(NameList(init, id)) + MonthName(id);
      } else {
        assert NameList(rows, id) == NameList(init, id) + [];
        assert NameList(rows, id) == NameList(init, id);
        assert MonthNames(rows, id) == MonthNames(init, id) + "";
        assert MonthNames(rows, id) == MonthNames(init, id);
      }
    }
  }

  /**
   * The label total_by_month evidently means: repeated month names dropped,
   * each remaining name kept whole. It is the month's name when a row of that
   * month exists and empty otherwise.
   */
  function IntendedLabel(rows: seq<Row>, id: int): (names: string)
    requires 1 <= id <= 12
    ensures (exists x :: x in rows && x.date.month == id) ==> names == MonthName(id)
    ensures (forall x :: x in rows ==> x.date.month != id) ==> names == ""
  {
    NameListShape(rows, id);
    var kept := Dedup(NameList(rows, id));
    if NameList(rows, id) == [] then
      assert kept == [];
      Concat(kept)
    else
      DedupOfConstant(NameList(rows, id), MonthName(id));
      assert Concat([MonthName(id)]) == Concat([]) + MonthName(id);
      Concat(kept)
  }

  /** The name list holds only the month's name, and is empty exactly when no row is of that month. */
  lemma {:induction false} NameListShape(rows: seq<Row>, id: int)
    requires 1 <= id <= 12
    ensures forall n :: n in NameList(rows, id) ==> n == MonthName(id)
    ensures NameList(rows, id) == [] <==> forall x :: x in rows ==> x.date.month != id
    decreases |rows|
  {
    if rows != [] {
      var init := rows[..|rows| - 1];
      NameListShape(init, id);
      assert forall x :: x in rows <==> x in init || x == rows[|rows| - 1];
    }
  }

  /** A non-empty sequence of one repeated element dedups to that element alone. */
  lemma {:induction false} DedupOfConstant<T(!new)>(s: seq<T>, v: T)
    requires s != [] && forall y :: y in s ==> y == v
    ensures Dedup(s) == [v]
    decreases |s|
  {
    var init := s[..|s| - 1];
    assert s[|s| - 1] in s;
    if init == [] {
      assert s == [v];
      assert Dedup(init) == [];
    } else {
      assert forall y :: y in init ==> y in s;
      DedupOfConstant(init, v);
    }
  }
}
