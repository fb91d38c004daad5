/**
 * Meeting-length labels: `formatReportDuration` in the dashboard and
 * `formatDuration` in the report page render a number of minutes as
 * "H시간 M분", "H시간" or "M분".
 */
module Duration {
  import opened Numbers
  import opened Wrappers

  /** JavaScript's `a % b`: the remainder takes the sign of the dividend. */
  function JsRem(a: int, b: int): (r: int)
    requires b > 0
    ensures a >= 0 ==> 0 <= r < b
    ensures a < 0 ==> -b < r <= 0
  {
    if a >= 0 then a % b else -((-a) % b)
  }

  /** `Math.floor(a / b)` for a positive divisor (Dafny's division already floors then). */
  function FloorDiv(a: int, b: int): (q: int)
    requires b > 0
    ensures q * b <= a < q * b + b
  {
    a / b
  }

  /** `Math.round(ms / 60000)`: halves round up. */
  function RoundMinutes(ms: int): (r: int)
    ensures r * 60000 - 30000 <= ms < r * 60000 + 30000
  {
    FloorDiv(ms + 30000, 60000)
  }

  /** The shared rendering: hours by floor, minutes by JavaScript remainder. */
  function Render(total: int): (s: string)
    ensures |s| >= 2
  {
    var hours := FloorDiv(total, 60);
    var mins := JsRem(total, 60);
    if hours > 0 && mins > 0 then IntToString(hours) + "시간 " + IntToString(mins) + "분"
    else if hours > 0 then IntToString(hours) + "시간"
    else IntToString(mins) + "분"
  }

  /** `formatReportDuration(minutes)` (dashboard). */
  function FormatReportDuration(minutes: int): (s: string)
    ensures minutes >= 60 && minutes % 60 != 0 ==> s == IntToString(minutes / 60) + "시간 " + IntToString(minutes % 60) + "분"
    ensures minutes >= 60 && minutes % 60 == 0 ==> s == IntToString(minutes / 60) + "시간"
    ensures 0 <= minutes < 60 ==> s == IntToString(minutes) + "분"
  {
    Render(minutes)
  }

  /** `diffMinutes` in `formatDuration`: the rounded difference, or the fallback when it rounds to 0, and at least 1. */
  function DiffMinutes(startMs: int, endMs: int, fallback: int): (d: int)
    ensures d >= 1
    ensures RoundMinutes(endMs - startMs) != 0 ==> d == Max1(RoundMinutes(endMs - startMs))
    ensures RoundMinutes(endMs - startMs) == 0 ==> d == Max1(fallback)
  {
    var rounded := RoundMinutes(endMs - startMs);
    Max1(if rounded != 0 then rounded else fallback)
  }

  function Max1(x: int): (r: int)
    ensures r >= 1 && r >= x && (r == 1 || r == x)
  {
    if x < 1 then 1 else x
  }

  /** `formatDuration(start, end, fallbackMinutes)` (report page). */
  function FormatDuration(startMs: int, endMs: int, fallback: int): (s: string)
    ensures var d := DiffMinutes(startMs, endMs, fallback);
            && (d >= 60 && d % 60 != 0 ==> s == IntToString(d / 60) + "시간 " + IntToString(d % 60) + "분")
            && (d >= 60 && d % 60 == 0 ==> s == IntToString(d / 60) + "시간")
            && (d < 60 ==> s == IntToString(d) + "분")
  {
    Render(DiffMinutes(startMs, endMs, fallback))
  }

  /** For a positive count the hours and minutes split it exactly, with minutes in [0, 60). */
  lemma SplitIsExact(total: int)
    requires total >= 1
    ensures FloorDiv(total, 60) * 60 + JsRem(total, 60) == total
    ensures 0 <= JsRem(total, 60) < 60 && FloorDiv(total, 60) >= 0
  {
  }

  // Reading a label back.

  function LeadingDigits(s: string): (n: nat)
    ensures n <= |s| && AllDigits(s[..n])
    ensures n < |s| ==> !IsDigit(s[n])
  {
    if s == [] || !IsDigit(s[0]) then 0
    else
      var n := 1 + LeadingDigits(s[1..]);
      assert s[..n] == [s[0]] + s[1..][..n - 1];
      n
  }

  /** Reads a number of minutes back from "H시간 M분", "H시간" or "M분". */
  function ParseDuration(s: string): Option<int>
  {
    var n := LeadingDigits(s);
    if n == 0 then None else ParseUnits(DigitsValue(s[..n]), s[n..])
  }

  /** What follows the leading number `v`: a unit, or hours followed by a minutes part. */
  function ParseUnits(v: int, rest: string): Option<int>
  {
    if rest == "분" then Some(v)
    else if rest == "시간" then Some(v * 60)
    else if |rest| > 3 && rest[..3] == "시간 " then
      var tail := rest[3..];
      var m := LeadingDigits(tail);
      if m > 0 && tail[m..] == "분" then Some(v * 60 + DigitsValue(tail[..m])) else None
    else None
  }

  lemma {:induction false} LeadingDigitsOfNumber(d: string, t: string)
    requires AllDigits(d)
    requires t == [] || !IsDigit(t[0])
    ensures LeadingDigits(d + t) == |d|
    decreases |d|
  {
    if d != [] {
      assert (d + t)[1..] == d[1..] + t;
      LeadingDigitsOfNumber(d[1..], t);
    }
  }

  lemma ReadNumber(n: nat, t: string)
    requires t == [] || !IsDigit(t[0])
    ensures var s := NatToString(n) + t;
            LeadingDigits(s) == |NatToString(n)| && s[..|NatToString(n)|] == NatToString(n)
            && s[|NatToString(n)|..] == t && DigitsValue(NatToString(n)) == n
  {
    LeadingDigitsOfNumber(NatToString(n), t);
    DigitsValueOfNatToString(n);
    var s := NatToString(n) + t;
    assert s[..|NatToString(n)|] == NatToString(n);
    assert s[|NatToString(n)|..] == t;
  }

  /** A label is read as its leading number followed by its units. */
  lemma ParseNumberThen(n: nat, rest: string)
    requires rest == [] || !IsDigit(rest[0])
    ensures ParseDuration(NatToString(n) + rest) == ParseUnits(n, rest)
  {
    ReadNumber(n, rest);
  }

  lemma ParseHoursAndMinutes(hours: nat, mins: nat)
    ensures ParseDuration(NatToString(hours) + "시간 " + NatToString(mins) + "분") == Some(hours * 60 + mins)
  {
    var tail := NatToString(mins) + "분";
    var rest := "시간 " + tail;
    ParseNumberThen(hours, rest);
    AppendAssoc(NatToString(hours), "시간 ", NatToString(mins), "분");
    assert |rest| > 3 && rest[..3] == "시간 " && rest[3..] == tail;
    assert rest != "분" && rest != "시간" by { assert |rest| > 3; }
    ReadNumber(mins, "분");
  }

  lemma AppendAssoc(a: string, b: string, c: string, d: string)
    ensures a + b + c + d == a + (b + (c + d))
  {
  }

  lemma ParseHours(hours: nat)
    ensures ParseDuration(NatToString(hours) + "시간") == Some(hours * 60)
  {
    ParseNumberThen(hours, "시간");
  }

  lemma ParseMinutes(mins: nat)
    ensures ParseDuration(NatToString(mins) + "분") == Some(mins)
  {
    ParseNumberThen(mins, "분");
  }

  /** Every non-negative count renders to a label that reads back as the same count. */
  lemma RenderRoundTrip(total: nat)
    ensures ParseDuration(Render(total)) == Some(total)
  {
    var hours := FloorDiv(total, 60);
    var mins := JsRem(total, 60);
    assert total == hours * 60 + mins && hours >= 0 && mins >= 0 by {
      assert hours == total / 60 && mins == total % 60;
    }
    var shown := Render(total);
    if hours > 0 && mins > 0 {
      assert shown == NatToString(hours) + "시간 " + NatToString(mins) + "분";
      ParseHoursAndMinutes(hours, mins);
    } else if hours > 0 {
      assert shown == NatToString(hours) + "시간";
      ParseHours(hours);
    } else {
      assert shown == NatToString(mins) + "분";
      ParseMinutes(mins);
    }
    assert ParseDuration(shown) == Some(hours * 60 + mins);
  }

  lemma ReportDurationRoundTrip(minutes: nat)
    ensures ParseDuration(FormatReportDuration(minutes)) == Some(minutes)
  {
    RenderRoundTrip(minutes);
  }

  lemma FormatDurationRoundTrip(startMs: int, endMs: int, fallback: int)
    ensures ParseDuration(FormatDuration(startMs, endMs, fallback)) == Some(DiffMinutes(startMs, endMs, fallback))
  {
    RenderRoundTrip(DiffMinutes(startMs, endMs, fallback));
  }

  /** A positive count never renders as "0분", "0시간" or with a "0분" part. */
  lemma {:induction false} NoZeroParts(total: int)
    requires total >= 1
    ensures Render(total)[0] != '0'
    ensures forall k :: 0 <= k < |Render(total)| - 1 && Render(total)[k] == ' ' ==> Render(total)[k + 1] != '0'
  {
    var hours := FloorDiv(total, 60);
    var mins := JsRem(total, 60);
    var s := Render(total);
    if hours > 0 && mins > 0 {
      var a := NatToString(hours);
      var b := NatToString(mins);
      assert s == a + "시간 " + b + "분";
      assert forall k | 0 <= k < |a| :: s[k] == a[k];
      forall k | 0 <= k < |s| - 1 && s[k] == ' '
        ensures s[k + 1] != '0'
      {
        assert k == |a| + 2;
        assert s[k + 1] == b[0];
      }
    } else if hours > 0 {
      var a := NatToString(hours);
      assert s == a + "시간";
      forall k | 0 <= k < |s| - 1
        ensures s[k] != ' '
      {
        if k < |a| {
          assert s[k] == a[k];
        }
      }
    } else {
      var b := NatToString(mins);
      assert s == b + "분";
      forall k | 0 <= k < |s| - 1
        ensures s[k] != ' '
      {
        assert s[k] == b[k];
      }
    }
  }

  lemma FormatDurationHasNoZeroParts(startMs: int, endMs: int, fallback: int)
    ensures FormatDuration(startMs, endMs, fallback)[0] != '0'
    ensures var s := FormatDuration(startMs, endMs, fallback);
            forall k :: 0 <= k < |s| - 1 && s[k] == ' ' ==> s[k + 1] != '0'
  {
    NoZeroParts(DiffMinutes(startMs, endMs, fallback));
  }
}
