/** `formatDate`: a calendar date as "YYYY-MM-DD", month and day padded to two digits. */
module DateFormat {
  import opened Numbers
  import opened Wrappers

  /** `String(n).padStart(2, "0")` for a non-negative number. */
  function Pad2(n: nat): (s: string)
    ensures |s| >= 2 && AllDigits(s)
    ensures n < 10 ==> s == "0" + NatToString(n)
    ensures n >= 10 ==> s == NatToString(n)
    ensures n < 100 ==> |s| == 2
  {
    var d := NatToString(n);
    assert 10 <= n < 100 ==> |NatToString(n / 10)| == 1;
    if |d| < 2 then "0" + d else d
  }

  /**
   * `formatDate(date)` from the date's fields: the full year, the zero-based
   * month of `getMonth()` and the day of the month.
   */
  function FormatDate(year: int, month0: int, day: int): (s: string)
    requires 0 <= month0 < 12 && 1 <= day <= 31
    ensures |s| >= 7
    ensures s[|s| - 6] == '-' && s[|s| - 3] == '-'
    ensures AllDigits(s[|s| - 5..|s| - 3]) && AllDigits(s[|s| - 2..])
  {
    IntToString(year) + "-" + Pad2(month0 + 1) + "-" + Pad2(day)
  }

  /** The value of a two-digit field. */
  lemma Pad2Value(n: nat)
    requires n < 100
    ensures |Pad2(n)| == 2 && DigitsValue(Pad2(n)) == n
  {
    DigitsValueOfNatToString(n);
    if n < 10 {
      assert Pad2(n)[..1] == "0";
    }
  }

  /** A year field: decimal digits, optionally after a '-'. */
  function ParseYear(y: string): Option<int>
  {
    if y != [] && AllDigits(y) then Some(DigitsValue(y) as int)
    else if |y| > 1 && y[0] == '-' && AllDigits(y[1..]) then Some(-(DigitsValue(y[1..]) as int))
    else None
  }

  /** Reads "Y-MM-DD" back into (year, month, day). */
  function ParseDate(s: string): Option<(int, int, int)>
  {
    if |s| < 7 || s[|s| - 6] != '-' || s[|s| - 3] != '-' then None
    else
      var mm := s[|s| - 5..|s| - 3];
      var dd := s[|s| - 2..];
      if !AllDigits(mm) || !AllDigits(dd) then None
      else match ParseYear(s[..|s| - 6])
        case None => None
        case Some(y) => Some((y, DigitsValue(mm) as int, DigitsValue(dd) as int))
  }

  lemma ParseYearOfIntToString(year: int)
    ensures ParseYear(IntToString(year)) == Some(year)
  {
    var ys := IntToString(year);
    if year >= 0 {
      DigitsValueOfNatToString(year);
    } else {
      DigitsValueOfNatToString(-year);
      assert ys[1..] == NatToString(-year);
      assert !IsDigit(ys[0]);
    }
  }

  lemma SplitDate(ys: string, m: string, d: string)
    requires |m| == 2 && |d| == 2
    ensures var s := ys + "-" + m + "-" + d;
            |s| >= 6 && s[..|s| - 6] == ys && s[|s| - 6] == '-' && s[|s| - 5..|s| - 3] == m
            && s[|s| - 3] == '-' && s[|s| - 2..] == d
  {
  }

  /** The rendered date reads back as the year, the one-based month and the day. */
  lemma FormatDateRoundTrip(year: int, month0: int, day: int)
    requires 0 <= month0 < 12 && 1 <= day <= 31
    ensures ParseDate(FormatDate(year, month0, day)) == Some((year, month0 + 1, day))
  {
    Pad2Value(month0 + 1);
    Pad2Value(day);
    SplitDate(IntToString(year), Pad2(month0 + 1), Pad2(day));
    ParseYearOfIntToString(year);
  }
}
