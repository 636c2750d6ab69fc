/**
 * Amounts are stored as text such as "$42". The totals read them with
 * `int(amount.replace("$", ""))` and write a total back as `f"${total}"`.
 * This module models that reading and writing: Python's `int()` on a string
 * (ASCII whitespace around an optional sign and decimal digits, single
 * underscores allowed between digits) and `str()` of an int.
 */
module Amounts {
  import opened Wrappers

  predicate IsDigit(c: char)
  {
    '0' <= c <= '9'
  }

  /** The ASCII characters `int()` skips around a number. */
  predicate IsSpace(c: char)
  {
    c == ' ' || c == '\t' || c == '\n' || c == '\r' || c == '\U{0B}' || c == '\U{0C}'
  }

  function DigitValue(c: char): nat
  {
    if IsDigit(c) then c as int - '0' as int else 0
  }

  function DigitChar(d: nat): (c: char)
    requires d < 10
    ensures IsDigit(c) && DigitValue(c) == d
  {
    ('0' as int + d) as char
  }

  function TrimStart(s: string): string
  {
    if s != [] && IsSpace(s[0]) then TrimStart(s[1..]) else s
  }

  function TrimEnd(s: string): string
  {
    if s != [] && IsSpace(s[|s| - 1]) then TrimEnd(s[..|s| - 1]) else s
  }

  /** Decimal digits with single underscores between them, as `int()` accepts them. */
  predicate DigitGroups(s: string)
  {
    && |s| > 0 && IsDigit(s[0]) && IsDigit(s[|s| - 1])
    && (forall i :: 0 <= i < |s| ==> IsDigit(s[i]) || s[i] == '_')
    && (forall i :: 0 <= i < |s| - 1 ==> !(s[i] == '_' && s[i + 1] == '_'))
  }

  /** The value of a digit string, underscores skipped. */
  function DigitsValue(s: string): nat
  {
    if s == [] then 0
    else if s[|s| - 1] == '_' then DigitsValue(s[..|s| - 1])
    else DigitsValue(s[..|s| - 1]) * 10 + DigitValue(s[|s| - 1])
  }

  /** Python's `int(s)`: `None` where it raises ValueError. */
  function ParseInt(s: string): Option<int>
  {
    var t := TrimEnd(TrimStart(s));
    if |t| > 0 && (t[0] == '-' || t[0] == '+') then
      var magnitude: int := DigitsValue(t[1..]);
      if DigitGroups(t[1..]) then Some(if t[0] == '-' then -magnitude else magnitude)
      else None
    else if DigitGroups(t) then Some(DigitsValue(t))
    else None
  }

  /** Python's `str(n)` for n >= 0. */
  function ShowNat(n: nat): string
  {
    if n < 10 then [DigitChar(n)] else ShowNat(n / 10) + [DigitChar(n % 10)]
  }

  /** Python's `str(n)`. */
  function ShowInt(n: int): string
  {
    if n < 0 then "-" + ShowNat(-n) else ShowNat(n)
  }

  /** `s.replace("$", "")`: every dollar sign removed, everything else kept in order. */
  function StripDollars(s: string): (r: string)
    ensures '$' !in r
    ensures forall c :: c != '$' ==> (c in r <==> c in s)
    ensures |r| <= |s|
  {
    if s == [] then [] else (if s[0] == '$' then [] else [s[0]]) + StripDollars(s[1..])
  }

  /** Every character but `$` is kept as often as it occurs, and every `$` is gone. */
  lemma {:induction false} StripDollarsCounts(s: string)
    ensures multiset(StripDollars(s)) == multiset(s)['$' := 0]
    decreases |s|
  {
    if s != [] {
      StripDollarsCounts(s[1..]);
      assert s == [s[0]] + s[1..];
    }
  }

  /** `int(amount.replace("$", ""))`. */
  function AmountValue(amount: string): Option<int>
  {
    ParseInt(StripDollars(amount))
  }

  /** `str(n)` is a non-empty run of decimal digits whose value is n. */
  lemma {:induction false} ShowNatDigits(n: nat)
    ensures |ShowNat(n)| > 0
    ensures forall i :: 0 <= i < |ShowNat(n)| ==> IsDigit(ShowNat(n)[i])
    ensures DigitsValue(ShowNat(n)) == n
    decreases n
  {
    if n >= 10 {
      ShowNatDigits(n / 10);
      var s := ShowNat(n);
      assert s[..|s| - 1] == ShowNat(n / 10);
    }
  }

  /** `int(str(n)) == n`. */
  lemma ParseShow(n: int)
    ensures ParseInt(ShowInt(n)) == Some(n)
  {
    var m := if n < 0 then -n else n;
    ShowNatDigits(m);
    if n < 0 {
      ParseNegative(ShowNat(m));
    } else {
      ParseDigits(ShowNat(m));
    }
  }

  /** A run of decimal digits parses as its value. */
  lemma ParseDigits(digits: string)
    requires |digits| > 0 && forall i :: 0 <= i < |digits| ==> IsDigit(digits[i])
    ensures ParseInt(digits) == Some(DigitsValue(digits) as int)
  {
    DigitRunGroups(digits);
    Untrimmed(digits);
  }

  /** A minus sign followed by a run of decimal digits parses as the negated value. */
  lemma ParseNegative(digits: string)
    requires |digits| > 0 && forall i :: 0 <= i < |digits| ==> IsDigit(digits[i])
    ensures ParseInt("-" + digits) == Some(-(DigitsValue(digits) as int))
  {
    DigitRunGroups(digits);
    var s := "-" + digits;
    assert s[0] == '-' && s[|s| - 1] == digits[|digits| - 1];
    Untrimmed(s);
    ParseMinus(digits);
  }

  /** `int()` on a minus sign that needs no trimming, followed by digit groups, is the negated value of the digits. */
  lemma ParseMinus(digits: string)
    requires DigitGroups(digits) && TrimEnd(TrimStart("-" + digits)) == "-" + digits
    ensures ParseInt("-" + digits) == Some(-(DigitsValue(digits) as int))
  {
    assert ("-" + digits)[1..] == digits;
  }

  /** A run of decimal digits has no underscores to misplace. */
  lemma DigitRunGroups(digits: string)
    requires |digits| > 0 && forall i :: 0 <= i < |digits| ==> IsDigit(digits[i])
    ensures DigitGroups(digits)
  {
  }

  /** A string that neither starts nor ends with whitespace is left alone by `strip()`. */
  lemma Untrimmed(s: string)
    requires |s| > 0 && !IsSpace(s[0]) && !IsSpace(s[|s| - 1])
    ensures TrimEnd(TrimStart(s)) == s
  {
  }

  /** A string without dollar signs is left as it is. */
  lemma {:induction false} StripDollarsKeeps(s: string)
    requires '$' !in s
    ensures StripDollars(s) == s
    decreases |s|
  {
    if s != [] {
      StripDollarsKeeps(s[1..]);
    }
  }

  /** `replace` works left to right: stripping two joined strings joins the stripped strings. */
  lemma {:induction false} StripDollarsConcat(a: string, b: string)
    ensures StripDollars(a + b) == StripDollars(a) + StripDollars(b)
    decreases |a|
  {
    if a != [] {
      assert (a + b)[1..] == a[1..] + b;
      StripDollarsConcat(a[1..], b);
    } else {
      assert a + b == b;
    }
  }

  /** A total as the service writes it, "$" followed by `str(n)`, reads back as n. */
  lemma RenderedTotalReadsBack(n: int)
    ensures AmountValue("$" + ShowInt(n)) == Some(n)
  {
    var m := if n < 0 then -n else n;
    ShowNatDigits(m);
    var s := ShowInt(n);
    assert '$' !in s by {
      if n < 0 {
        assert forall i :: 1 <= i < |s| ==> s[i] == ShowNat(m)[i - 1];
      }
    }
    assert ("$" + s)[1..] == s;
    StripDollarsKeeps(s);
    assert StripDollars("$" + s) == s;
    ParseShow(n);
  }
}
