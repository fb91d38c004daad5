/**
 * The login form's input checks: the e-mail pattern
 * `^[^\s@]+@[^\s@]+\.[^\s@]+$` and the empty-field check that runs before it.
 */
module Email {
  import opened Chars
  import Transcript

  /** One character of the class `[^\s@]`. */
  predicate Plain(c: char) {
    !IsJsSpace(c) && c != '@'
  }

  /** `[^\s@]+`: a non-empty run of plain characters. */
  predicate PlainRun(s: string) {
    |s| >= 1 && forall i :: 0 <= i < |s| ==> Plain(s[i])
  }

  /**
   * The pattern read as a concatenation: a plain run, `@` at `at`, a plain
   * run, `.` at `dot`, and a plain run to the end.
   */
  ghost predicate MatchesAt(e: string, at: int, dot: int) {
    && 0 <= at < dot < |e|
    && e[at] == '@' && e[dot] == '.'
    && PlainRun(e[..at]) && PlainRun(e[at + 1..dot]) && PlainRun(e[dot + 1..])
  }

  ghost predicate MatchesPattern(e: string) {
    exists at, dot :: MatchesAt(e, at, dot)
  }

  /** The first index of `c` in `s`, or -1. */
  function IndexOf(s: string, c: char): (k: int)
    ensures -1 <= k < |s|
    ensures k == -1 ==> forall i :: 0 <= i < |s| ==> s[i] != c
    ensures k != -1 ==> s[k] == c && forall i :: 0 <= i < k ==> s[i] != c
  {
    if s == [] then -1
    else if s[0] == c then 0
    else var k := IndexOf(s[1..], c); if k == -1 then -1 else k + 1
  }

  /** `d` has a `.` with at least one character on each side. */
  predicate HasInnerDot(d: string) {
    exists p :: 0 < p < |d| - 1 && d[p] == '.'
  }

  /** `isValidEmail`, decided by one scan for the `@` and one for an inner dot. */
  function IsValidEmail(e: string): (b: bool)
    ensures b <==> MatchesPattern(e)
  {
    var at := IndexOf(e, '@');
    var ok := 0 < at && (forall i :: 0 <= i < |e| ==> !IsJsSpace(e[i]))
              && (forall i :: at < i < |e| ==> e[i] != '@') && HasInnerDot(e[at + 1..]);
    if ok then
      ValidMatches(e, at);
      ok
    else
      NotValidNoMatch(e, at);
      ok
  }

  lemma ValidMatches(e: string, at: int)
    requires 0 < at < |e| && e[at] == '@' && forall i :: 0 <= i < at ==> e[i] != '@'
    requires forall i :: 0 <= i < |e| ==> !IsJsSpace(e[i])
    requires forall i :: at < i < |e| ==> e[i] != '@'
    requires HasInnerDot(e[at + 1..])
    ensures MatchesPattern(e)
  {
    var d := e[at + 1..];
    var p :| 0 < p < |d| - 1 && d[p] == '.';
    var dot := at + 1 + p;
    assert MatchesAt(e, at, dot);
  }

  lemma NotValidNoMatch(e: string, at: int)
    requires at == IndexOf(e, '@')
    requires !(0 < at && (forall i :: 0 <= i < |e| ==> !IsJsSpace(e[i]))
               && (forall i :: at < i < |e| ==> e[i] != '@') && HasInnerDot(e[at + 1..]))
    ensures !MatchesPattern(e)
  {
    if MatchesPattern(e) {
      var a, dot :| MatchesAt(e, a, dot);
      MatchGivesScan(e, a, dot);
    }
  }

  lemma MatchGivesScan(e: string, at: int, dot: int)
    requires MatchesAt(e, at, dot)
    ensures IndexOf(e, '@') == at && 0 < at
    ensures forall i :: 0 <= i < |e| ==> !IsJsSpace(e[i])
    ensures forall i :: at < i < |e| ==> e[i] != '@'
    ensures HasInnerDot(e[at + 1..])
  {
    MatchShape(e, at, dot);
    assert e[at + 1..][dot - at - 1] == '.';
  }

  /** What a match at (`at`, `dot`) says about every character of `e`. */
  lemma MatchShape(e: string, at: int, dot: int)
    requires MatchesAt(e, at, dot)
    ensures forall i :: 0 <= i < |e| ==> !IsJsSpace(e[i])
    ensures forall i :: 0 <= i < |e| && i != at ==> e[i] != '@'
    ensures 0 < at && at + 1 < dot < |e| - 1
    ensures IndexOf(e, '@') == at
  {
    forall i | 0 <= i < |e|
      ensures !IsJsSpace(e[i]) && (i != at ==> e[i] != '@')
    {
      if i < at {
        assert e[..at][i] == e[i];
      } else if at < i < dot {
        assert e[at + 1..dot][i - at - 1] == e[i];
      } else if dot < i {
        assert e[dot + 1..][i - dot - 1] == e[i];
      }
    }
  }

  /** A valid address has exactly one `@`. */
  lemma ValidHasOneAt(e: string)
    requires IsValidEmail(e)
    ensures exists at :: 0 <= at < |e| && e[at] == '@' && forall i :: 0 <= i < |e| && i != at ==> e[i] != '@'
  {
    var at, dot :| MatchesAt(e, at, dot);
    MatchShape(e, at, dot);
  }

  /** A valid address has no white space. */
  lemma ValidHasNoSpace(e: string)
    requires IsValidEmail(e)
    ensures forall i :: 0 <= i < |e| ==> !IsJsSpace(e[i])
  {
    var at, dot :| MatchesAt(e, at, dot);
    MatchShape(e, at, dot);
  }

  /**
   * The pattern in plain terms: no white space, exactly one `@` with
   * something before it, and a `.` inside the part after it that is neither
   * its first nor its last character.
   */
  lemma ValidEmailIff(e: string)
    ensures IsValidEmail(e) <==>
      && (forall i :: 0 <= i < |e| ==> !IsJsSpace(e[i]))
      && exists at :: 0 < at < |e| && e[at] == '@' && (forall i :: 0 <= i < |e| && i != at ==> e[i] != '@')
                      && HasInnerDot(e[at + 1..])
  {
    if IsValidEmail(e) {
      var at, dot :| MatchesAt(e, at, dot);
      MatchShape(e, at, dot);
      assert e[at + 1..][dot - at - 1] == '.';
    }
    if exists at :: 0 < at < |e| && e[at] == '@' && (forall i :: 0 <= i < |e| && i != at ==> e[i] != '@')
                    && HasInnerDot(e[at + 1..]) {
      var at :| 0 < at < |e| && e[at] == '@' && (forall i :: 0 <= i < |e| && i != at ==> e[i] != '@')
                && HasInnerDot(e[at + 1..]);
      if forall i :: 0 <= i < |e| ==> !IsJsSpace(e[i]) {
        ValidMatches(e, at);
      }
    }
  }

  datatype Outcome = MissingFields | InvalidEmail | Accepted

  /** The checks of the submit handler, in order: empty fields first, then the pattern. */
  function SubmitCheck(emailInput: string, password: string): (o: Outcome)
    ensures o == MissingFields <==> Transcript.Trim(emailInput) == [] || password == []
    ensures o == InvalidEmail ==> password != [] && !IsValidEmail(Transcript.Trim(emailInput))
    ensures o == Accepted <==> password != [] && IsValidEmail(Transcript.Trim(emailInput))
  {
    var email := Transcript.Trim(emailInput);
    if email == [] || password == [] then MissingFields
    else if !IsValidEmail(email) then InvalidEmail
    else Accepted
  }

  /** An accepted address carries no white space and exactly one `@`, surrounding spaces having been trimmed. */
  lemma AcceptedIsWellShaped(emailInput: string, password: string)
    requires SubmitCheck(emailInput, password) == Accepted
    ensures var e := Transcript.Trim(emailInput);
      (forall i :: 0 <= i < |e| ==> !IsJsSpace(e[i]))
      && exists at :: 0 <= at < |e| && e[at] == '@' && forall i :: 0 <= i < |e| && i != at ==> e[i] != '@'
  {
    var e := Transcript.Trim(emailInput);
    ValidHasOneAt(e);
    ValidHasNoSpace(e);
  }
}
