/**
 * The transcript reconciler of the dashboard: each incoming caption is
 * normalised, then dropped (blank, too short, a recent duplicate or a shorter
 * refinement), merged into the last line (a longer refinement arriving within
 * the merge window) or appended.
 */
module Transcript {
  import opened Wrappers
  import opened Chars

  /** A refinement of the last line arriving within this many milliseconds replaces it. */
  const MergeWindowMs := 1000
  /** Exact duplicates of any of this many most recent lines are dropped. */
  const RecentWindow := 3
  /** Declared next to the history but never enforced: the history is not capped. */
  const MaxTranscriptLines := 5

  // ---------------------------------------------------------------- normalizeLine

  /** The string with its white space removed: what normalisation must keep. */
  function Squeeze(s: string): (r: string)
    ensures |r| <= |s|
  {
    if s == [] then [] else (if IsJsSpace(s[0]) then [] else [s[0]]) + Squeeze(s[1..])
  }

  lemma {:induction false} SqueezeAppend(a: string, b: string)
    ensures Squeeze(a + b) == Squeeze(a) + Squeeze(b)
    decreases |a|
  {
    if a != [] {
      assert (a + b)[1..] == a[1..] + b;
      SqueezeAppend(a[1..], b);
    } else {
      assert a + b == b;
    }
  }

  /** Drops the leading white space. */
  function TrimStart(s: string): (r: string)
    ensures |r| <= |s| && r == s[|s| - |r|..]
    ensures r == [] || !IsJsSpace(r[0])
    ensures forall i :: 0 <= i < |s| - |r| ==> IsJsSpace(s[i])
  {
    if s != [] && IsJsSpace(s[0]) then TrimStart(s[1..]) else s
  }

  /** Drops the trailing white space. */
  function TrimEnd(s: string): (r: string)
    ensures |r| <= |s| && r == s[..|r|]
    ensures r == [] || !IsJsSpace(r[|r| - 1])
    ensures forall i :: |r| <= i < |s| ==> IsJsSpace(s[i])
  {
    if s != [] && IsJsSpace(s[|s| - 1]) then TrimEnd(s[..|s| - 1]) else s
  }

  /** `String.prototype.trim`. */
  function Trim(s: string): (r: string)
    ensures r == [] || (!IsJsSpace(r[0]) && !IsJsSpace(r[|r| - 1]))
  {
    var t := TrimStart(s);
    var r := TrimEnd(t);
    assert r != [] ==> r[0] == t[0];
    r
  }

  lemma {:induction false} TrimStartKeepsText(s: string)
    ensures Squeeze(TrimStart(s)) == Squeeze(s)
    decreases |s|
  {
    if s != [] && IsJsSpace(s[0]) {
      TrimStartKeepsText(s[1..]);
    }
  }

  lemma {:induction false} TrimEndKeepsText(s: string)
    ensures Squeeze(TrimEnd(s)) == Squeeze(s)
    decreases |s|
  {
    if s != [] && IsJsSpace(s[|s| - 1]) {
      var p := s[..|s| - 1];
      TrimEndKeepsText(p);
      SqueezeAppend(p, [s[|s| - 1]]);
      assert s == p + [s[|s| - 1]];
    }
  }

  lemma TrimKeepsText(s: string)
    ensures Squeeze(TrimStart(s)) == Squeeze(s)
    ensures Squeeze(Trim(s)) == Squeeze(s)
  {
    TrimStartKeepsText(s);
    TrimEndKeepsText(TrimStart(s));
  }

  /** `replace(/\s+/g, " ")`: every maximal run of white space becomes one space. */
  function Collapse(s: string): (r: string)
    ensures |r| <= |s|
    decreases |s|
  {
    if s == [] then []
    else if IsJsSpace(s[0]) then [' '] + Collapse(TrimStart(s[1..]))
    else [s[0]] + Collapse(s[1..])
  }

  /** White space in `r` is single plain spaces. */
  predicate SingleSpaced(r: string) {
    && (forall i :: 0 <= i < |r| && IsJsSpace(r[i]) ==> r[i] == ' ')
    && (forall i :: 0 <= i < |r| - 1 ==> !(IsJsSpace(r[i]) && IsJsSpace(r[i + 1])))
  }

  /** Putting a character in front keeps single spacing when it is a space only before a non-space. */
  lemma ConsSingleSpaced(x: char, c: string)
    requires SingleSpaced(c)
    requires IsJsSpace(x) ==> x == ' ' && (c == [] || !IsJsSpace(c[0]))
    ensures SingleSpaced([x] + c)
  {
    var r := [x] + c;
    forall i | 1 <= i < |r| ensures r[i] == c[i - 1] { }
  }

  /** Collapsing keeps whether the first character is white space. */
  lemma CollapseFirst(s: string)
    ensures s != [] ==> Collapse(s) != [] && (IsJsSpace(Collapse(s)[0]) <==> IsJsSpace(s[0]))
  {
  }

  /** Collapsing keeps whether the last character is white space. */
  lemma {:induction false} CollapseLast(s: string)
    ensures s != [] ==> Collapse(s) != [] && (IsJsSpace(Collapse(s)[|Collapse(s)| - 1]) <==> IsJsSpace(s[|s| - 1]))
    decreases |s|
  {
    if s == [] {
    } else if IsJsSpace(s[0]) {
      var t := TrimStart(s[1..]);
      if t != [] {
        CollapseLast(t);
        assert t[|t| - 1] == s[|s| - 1];
        assert Collapse(s) == [' '] + Collapse(t);
      } else {
        assert Collapse(s) == [' '];
      }
    } else if |s| > 1 {
      CollapseLast(s[1..]);
      assert Collapse(s) == [s[0]] + Collapse(s[1..]);
    } else {
      assert Collapse(s) == [s[0]] by { assert s[1..] == []; }
    }
  }

  lemma {:induction false} CollapseIsSingleSpaced(s: string)
    ensures SingleSpaced(Collapse(s))
    decreases |s|
  {
    if s != [] {
      if IsJsSpace(s[0]) {
        var t := TrimStart(s[1..]);
        CollapseIsSingleSpaced(t);
        CollapseFirst(t);
        ConsSingleSpaced(' ', Collapse(t));
      } else {
        CollapseIsSingleSpaced(s[1..]);
        ConsSingleSpaced(s[0], Collapse(s[1..]));
      }
    }
  }

  lemma {:induction false} CollapseKeepsText(s: string)
    ensures Squeeze(Collapse(s)) == Squeeze(s)
    decreases |s|
  {
    if s != [] {
      if IsJsSpace(s[0]) {
        var t := TrimStart(s[1..]);
        CollapseKeepsText(t);
        TrimKeepsText(s[1..]);
        assert ([' '] + Collapse(t))[1..] == Collapse(t);
      } else {
        CollapseKeepsText(s[1..]);
        assert ([s[0]] + Collapse(s[1..]))[1..] == Collapse(s[1..]);
      }
    }
  }

  /** `normalizeLine`: trim, collapse white-space runs to one space, lower-case. */
  function NormalizeLine(s: string): (r: string)
    ensures r == [] || (!IsJsSpace(r[0]) && !IsJsSpace(r[|r| - 1]))
    ensures SingleSpaced(r)
  {
    var t := Trim(s);
    var c := Collapse(t);
    CollapseIsSingleSpaced(t);
    CollapseFirst(t);
    CollapseLast(t);
    LowerKeepsSpacing(c);
    LowerAll(c)
  }

  /** Normalisation loses no visible character: only white space changes, and letters are lower-cased. */
  lemma NormalizeLineKeepsText(s: string)
    ensures Squeeze(NormalizeLine(s)) == LowerAll(Squeeze(s))
  {
    var c := Collapse(Trim(s));
    TrimKeepsText(s);
    CollapseKeepsText(Trim(s));
    SqueezeLower(c);
  }

  lemma LowerKeepsSpacing(c: string)
    requires SingleSpaced(c)
    ensures SingleSpaced(LowerAll(c))
    ensures c != [] ==> (IsJsSpace(LowerAll(c)[0]) <==> IsJsSpace(c[0]))
    ensures c != [] ==> (IsJsSpace(LowerAll(c)[|c| - 1]) <==> IsJsSpace(c[|c| - 1]))
  {
    var l := LowerAll(c);
    forall i | 0 <= i < |l| && IsJsSpace(l[i]) ensures l[i] == ' ' {
      assert l[i] == ToLower(c[i]);
    }
    forall i | 0 <= i < |l| - 1 ensures !(IsJsSpace(l[i]) && IsJsSpace(l[i + 1])) {
      assert l[i] == ToLower(c[i]) && l[i + 1] == ToLower(c[i + 1]);
    }
  }

  lemma {:induction false} SqueezeLower(s: string)
    ensures Squeeze(LowerAll(s)) == LowerAll(Squeeze(s))
    decreases |s|
  {
    if s != [] {
      assert LowerAll(s)[1..] == LowerAll(s[1..]);
      SqueezeLower(s[1..]);
      var h := if IsJsSpace(s[0]) then [] else [s[0]];
      assert LowerAll(h + Squeeze(s[1..])) == LowerAll(h) + LowerAll(Squeeze(s[1..]));
    }
  }

  /** A string already in normal form. */
  predicate IsNormal(r: string) {
    && (r == [] || (!IsJsSpace(r[0]) && !IsJsSpace(r[|r| - 1])))
    && SingleSpaced(r)
    && (forall i :: 0 <= i < |r| ==> ToLower(r[i]) == r[i])
  }

  lemma {:induction false} CollapseSingleSpaced(s: string)
    requires SingleSpaced(s)
    ensures Collapse(s) == s
    decreases |s|
  {
    if s != [] {
      CollapseSingleSpaced(s[1..]);
      if IsJsSpace(s[0]) {
        assert TrimStart(s[1..]) == s[1..];
      }
    }
  }

  lemma NormalFormIsLower(c: string)
    ensures forall i :: 0 <= i < |c| ==> ToLower(LowerAll(c)[i]) == LowerAll(c)[i]
  {
  }

  lemma TrimOfNormal(r: string)
    requires r == [] || (!IsJsSpace(r[0]) && !IsJsSpace(r[|r| - 1]))
    ensures Trim(r) == r
  {
    assert TrimStart(r) == r;
    assert TrimEnd(r) == r;
  }

  lemma LowerOfLower(r: string)
    requires forall i :: 0 <= i < |r| ==> ToLower(r[i]) == r[i]
    ensures LowerAll(r) == r
  {
  }

  /** A string already in normal form is left as it is. */
  lemma NormalFormFixed(r: string)
    requires IsNormal(r)
    ensures NormalizeLine(r) == r
  {
    TrimOfNormal(r);
    CollapseSingleSpaced(r);
    LowerOfLower(r);
  }

  /** Normalising twice is the same as normalising once. */
  lemma NormalizeLineIdempotent(s: string)
    ensures IsNormal(NormalizeLine(s))
    ensures NormalizeLine(NormalizeLine(s)) == NormalizeLine(s)
  {
    NormalFormIsLower(Collapse(Trim(s)));
    NormalFormFixed(NormalizeLine(s));
  }

  /** The words of `s`: its maximal runs of non-white-space characters, in order. */
  function Words(s: string): (ws: seq<string>)
    ensures s != [] && !IsJsSpace(s[0]) ==> ws != []
    decreases |s|
  {
    if s == [] then []
    else if IsJsSpace(s[0]) then Words(s[1..])
    else if |s| > 1 && !IsJsSpace(s[1]) then
      var rest := Words(s[1..]);
      [[s[0]] + rest[0]] + rest[1..]
    else [[s[0]]] + Words(s[1..])
  }

  /** The words joined with single spaces. */
  function Unwords(ws: seq<string>): string {
    if ws == [] then [] else if |ws| == 1 then ws[0] else ws[0] + [' '] + Unwords(ws[1..])
  }

  function LowerWords(ws: seq<string>): (r: seq<string>)
    ensures |r| == |ws| && forall i :: 0 <= i < |ws| ==> r[i] == LowerAll(ws[i])
  {
    if ws == [] then [] else [LowerAll(ws[0])] + LowerWords(ws[1..])
  }

  /**
   * Normalisation keeps the words, lower-cased, and is nothing but them joined
   * by single spaces.
   */
  lemma NormalizeLineKeepsWords(s: string)
    ensures Words(NormalizeLine(s)) == LowerWords(Words(s))
    ensures NormalizeLine(s) == Unwords(LowerWords(Words(s)))
  {
    var t := TrimStart(s);
    var c := Collapse(TrimEnd(t));
    WordsTrimStart(s);
    WordsTrimEnd(t);
    WordsCollapse(TrimEnd(t));
    WordsLower(c);
    NormalizeLineIdempotent(s);
    NormalIsUnwords(NormalizeLine(s));
  }

  lemma {:induction false} WordsTrimStart(s: string)
    ensures Words(TrimStart(s)) == Words(s)
    decreases |s|
  {
    if s != [] && IsJsSpace(s[0]) {
      WordsTrimStart(s[1..]);
    }
  }

  /** A trailing white-space character adds no word. */
  lemma {:induction false} WordsSpaceAfter(s: string, x: char)
    requires IsJsSpace(x)
    ensures Words(s + [x]) == Words(s)
    decreases |s|
  {
    var t := s + [x];
    if s == [] {
      assert Words(t) == Words(t[1..]) && t[1..] == [];
    } else {
      assert t[1..] == s[1..] + [x];
      WordsSpaceAfter(s[1..], x);
      if |s| == 1 {
        assert t[1] == x;
      } else {
        assert t[1] == s[1];
      }
    }
  }

  lemma {:induction false} WordsTrimEnd(s: string)
    ensures Words(TrimEnd(s)) == Words(s)
    decreases |s|
  {
    if s != [] && IsJsSpace(s[|s| - 1]) {
      var p := s[..|s| - 1];
      WordsTrimEnd(p);
      WordsSpaceAfter(p, s[|s| - 1]);
      assert s == p + [s[|s| - 1]];
    }
  }

  lemma {:induction false} WordsCollapse(s: string)
    ensures Words(Collapse(s)) == Words(s)
    decreases |s|
  {
    if s != [] {
      if IsJsSpace(s[0]) {
        var t := TrimStart(s[1..]);
        WordsCollapse(t);
        WordsTrimStart(s[1..]);
        assert ([' '] + Collapse(t))[1..] == Collapse(t);
      } else {
        var c := Collapse(s[1..]);
        WordsCollapse(s[1..]);
        CollapseFirst(s[1..]);
        assert ([s[0]] + c)[1..] == c;
      }
    }
  }

  lemma {:induction false} WordsLower(s: string)
    ensures Words(LowerAll(s)) == LowerWords(Words(s))
    decreases |s|
  {
    if s != [] {
      var l := LowerAll(s);
      assert l[1..] == LowerAll(s[1..]);
      WordsLower(s[1..]);
      if !IsJsSpace(s[0]) && |s| > 1 && !IsJsSpace(s[1]) {
        var rest := Words(s[1..]);
        assert LowerAll([s[0]] + rest[0]) == [l[0]] + LowerAll(rest[0]);
        assert LowerWords([[s[0]] + rest[0]] + rest[1..])
            == [LowerAll([s[0]] + rest[0])] + LowerWords(rest[1..]);
        assert LowerWords(rest) == [LowerAll(rest[0])] + LowerWords(rest[1..]);
      } else if !IsJsSpace(s[0]) {
        assert LowerAll([s[0]]) == [l[0]];
      }
    }
  }

  /** A string in normal form is its own words joined by single spaces. */
  lemma {:induction false} NormalIsUnwords(r: string)
    requires r == [] || (!IsJsSpace(r[0]) && !IsJsSpace(r[|r| - 1]))
    requires SingleSpaced(r)
    ensures Unwords(Words(r)) == r
    decreases |r|
  {
    if |r| > 1 {
      if !IsJsSpace(r[1]) {
        var rest := r[1..];
        NormalIsUnwords(rest);
        UnwordsCons(r[0], Words(rest));
      } else {
        var rest := r[2..];
        assert r[1] == ' ' && !IsJsSpace(r[2]);
        NormalIsUnwords(rest);
        assert Words(r[1..]) == Words(rest);
        assert r == [r[0]] + [' '] + rest;
      }
    }
  }

  /** Putting a character in front of the first word puts it in front of the joined text. */
  lemma UnwordsCons(x: char, ws: seq<string>)
    requires ws != []
    ensures Unwords([[x] + ws[0]] + ws[1..]) == [x] + Unwords(ws)
  {
    var vs := [[x] + ws[0]] + ws[1..];
    assert vs[1..] == ws[1..];
  }

  // ---------------------------------------------------------------- appendTranscript

  /** One history entry: the text as received, its normal form and when it arrived. */
  datatype Line = Line(text: string, norm: string, timestamp: int)

  /**
   * The argument of `appendTranscript`: a string, an object with the optional
   * `safe_text` / `raw_text` fields, a falsy value, or any other value.
   */
  datatype Meta = Text(s: string) | Fields(safeText: Option<string>, rawText: Option<string>) | Falsy | Other

  /** JavaScript truthiness of an optional string field. */
  predicate Truthy(f: Option<string>) {
    f.Some? && f.value != ""
  }

  /** The text chosen from the argument, or None when the call returns without looking further. */
  function Candidate(meta: Meta): (c: Option<string>)
    ensures meta.Falsy? || meta.Other? ==> c.None?
    ensures meta.Text? ==> c == Some(meta.s)
    ensures meta.Fields? && Truthy(meta.safeText) && Trim(meta.safeText.value) != [] ==> c == Some(meta.safeText.value)
    ensures meta.Fields? && !Truthy(meta.safeText) && Truthy(meta.rawText) && Trim(meta.rawText.value) != [] ==> c == Some(meta.rawText.value)
    ensures meta.Fields? && !Truthy(meta.safeText) && !Truthy(meta.rawText) ==> c.None?
    ensures meta.Fields? && Truthy(meta.safeText) && Trim(meta.safeText.value) == [] ==> c.None?
    ensures meta.Fields? && c.Some? ==> Trim(c.value) != []
  {
    match meta
    case Text(s) => Some(s)
    case Fields(safeText, rawText) =>
      var line := if Truthy(safeText) then safeText.value else if Truthy(rawText) then rawText.value else "";
      if line == "" || Trim(line) == "" then None else Some(line)
    case Falsy => None
    case Other => None
  }

  /** `s.includes(part)`. */
  predicate Includes(s: string, part: string) {
    exists i | 0 <= i <= |s| - |part| :: OccursAt(s, part, i)
  }

  predicate OccursAt(s: string, part: string, i: int)
    requires 0 <= i <= |s| - |part|
  {
    s[i..i + |part|] == part
  }

  /** Where `transcriptLines.slice(-3)` starts. */
  function RecentStart(history: seq<Line>): (k: nat)
    ensures k <= |history| && |history| - k == if |history| < RecentWindow then |history| else RecentWindow
  {
    if |history| < RecentWindow then 0 else |history| - RecentWindow
  }

  /** `recentLines.some((l) => l.norm === norm)`. */
  predicate InRecent(history: seq<Line>, norm: string) {
    exists k | RecentStart(history) <= k < |history| :: history[k].norm == norm
  }

  /** What one call does to the history. */
  datatype Decision = Ignore | Overwrite(line: Line) | Append(line: Line)

  function Decide(history: seq<Line>, meta: Meta, now: int): (d: Decision)
    ensures !d.Ignore? ==> Candidate(meta).Some? && d.line.text == Candidate(meta).value
    ensures !d.Ignore? ==> d.line == Line(d.line.text, NormalizeLine(d.line.text), now) && JsLength(d.line.norm) >= 2
  {
    match Candidate(meta)
    case None => Ignore
    case Some(line) => DecideLine(history, line, NormalizeLine(line), now)
  }

  /** The decision once a candidate `line` with normal form `norm` has been chosen. */
  function DecideLine(history: seq<Line>, line: string, norm: string, now: int): (d: Decision)
    ensures !d.Ignore? ==> d.line == Line(line, norm, now) && JsLength(norm) >= 2
  {
    if JsLength(norm) < 2 then Ignore
    else if InRecent(history, norm) then Ignore
    else LastLineStep(history, line, norm, now)
  }

  /** The comparison with the last entry: merge a refinement, or drop an equal line, or append. */
  function LastLineStep(history: seq<Line>, line: string, norm: string, now: int): (d: Decision)
    ensures !d.Ignore? ==> d.line == Line(line, norm, now)
  {
    if history != [] && IsRefinement(history[|history| - 1], norm, now) then
      if JsLength(norm) > JsLength(history[|history| - 1].norm) then Overwrite(Line(line, norm, now)) else Ignore
    else if history != [] && norm == history[|history| - 1].norm then Ignore
    else Append(Line(line, norm, now))
  }

  /** `norm` arrives within the merge window of `last` and one of the two contains the other. */
  predicate IsRefinement(last: Line, norm: string, now: int) {
    now - last.timestamp < MergeWindowMs && (Includes(norm, last.norm) || Includes(last.norm, norm))
  }

  function Apply(history: seq<Line>, d: Decision): seq<Line> {
    match d
    case Ignore => history
    case Overwrite(line) => if history == [] then [line] else history[..|history| - 1] + [line]
    case Append(line) => history + [line]
  }

  /** The history after `appendTranscript(meta)` at clock reading `now`. */
  function Reconcile(history: seq<Line>, meta: Meta, now: int): seq<Line> {
    Apply(history, Decide(history, meta, now))
  }


  /** The entry's `norm` is the normal form of its text and has a `length` of at least two UTF-16 units. */
  ghost predicate NormOf(l: Line) {
    l.norm == NormalizeLine(l.text) && JsLength(l.norm) >= 2
  }

  /** Every entry holds the normal form of its text. */
  ghost predicate WellFormed(history: seq<Line>) {
    forall i :: 0 <= i < |history| ==> NormOf(history[i])
  }

  lemma ApplyKeepsWellFormed(history: seq<Line>, d: Decision)
    requires WellFormed(history)
    requires !d.Ignore? ==> NormOf(d.line)
    ensures WellFormed(Apply(history, d))
  {
    match d
    case Ignore =>
    case Overwrite(line) =>
      if history == [] {
        WellFormedConcat([], [line]);
      } else {
        WellFormedConcat(history[..|history| - 1], [line]);
      }
    case Append(line) =>
      WellFormedConcat(history, [line]);
  }

  lemma WellFormedConcat(a: seq<Line>, b: seq<Line>)
    requires forall i :: 0 <= i < |a| ==> NormOf(a[i])
    requires forall i :: 0 <= i < |b| ==> NormOf(b[i])
    ensures WellFormed(a + b)
  {
    forall i | 0 <= i < |a + b| ensures NormOf((a + b)[i]) {
      if i < |a| {
        assert (a + b)[i] == a[i];
      } else {
        assert (a + b)[i] == b[i - |a|];
      }
    }
  }

  /** The history only ever holds normalised entries of at least two UTF-16 units. */
  lemma ReconcileKeepsWellFormed(history: seq<Line>, meta: Meta, now: int)
    requires WellFormed(history)
    ensures WellFormed(Reconcile(history, meta, now))
  {
    ApplyKeepsWellFormed(history, Decide(history, meta, now));
  }

  /** Nothing changes when no text is chosen or its normal form has a `length` below two UTF-16 units. */
  lemma IgnoresBlankAndShort(history: seq<Line>, meta: Meta, now: int)
    requires Candidate(meta).None? || JsLength(NormalizeLine(Candidate(meta).value)) < 2
    ensures Reconcile(history, meta, now) == history
  {
  }

  /** A text whose normal form equals that of one of the last three entries is dropped. */
  lemma IgnoresRecentDuplicate(history: seq<Line>, meta: Meta, now: int)
    requires Candidate(meta).Some? && InRecent(history, NormalizeLine(Candidate(meta).value))
    ensures Reconcile(history, meta, now) == history
  {
  }

  /** The last entry is always inside the duplicate window, so the later "equals last" test never fires. */
  lemma EqualsLastUnreachable(history: seq<Line>, norm: string)
    requires history != [] && !InRecent(history, norm)
    ensures norm != history[|history| - 1].norm
  {
    assert RecentStart(history) <= |history| - 1;
  }

  /** A strictly longer refinement within the merge window replaces the last entry in place. */
  lemma LongerRefinementOverwrites(history: seq<Line>, meta: Meta, now: int)
    requires Candidate(meta).Some?
    requires var norm := NormalizeLine(Candidate(meta).value);
      && JsLength(norm) >= 2 && !InRecent(history, norm) && history != []
      && IsRefinement(history[|history| - 1], norm, now) && JsLength(norm) > JsLength(history[|history| - 1].norm)
    ensures var line := Candidate(meta).value;
      Reconcile(history, meta, now) == history[..|history| - 1] + [Line(line, NormalizeLine(line), now)]
    ensures |Reconcile(history, meta, now)| == |history|
  {
    var line := Candidate(meta).value;
    var norm := NormalizeLine(line);
    assert LastLineStep(history, line, norm, now) == Overwrite(Line(line, norm, now));
    assert Decide(history, meta, now) == Overwrite(Line(line, norm, now));
  }

  /** A refinement within the merge window that is not longer than the last entry is dropped. */
  lemma ShorterRefinementDropped(history: seq<Line>, meta: Meta, now: int)
    requires Candidate(meta).Some?
    requires var norm := NormalizeLine(Candidate(meta).value);
      && history != [] && IsRefinement(history[|history| - 1], norm, now) && JsLength(norm) <= JsLength(history[|history| - 1].norm)
    ensures Reconcile(history, meta, now) == history
  {
  }

  /** In every other case exactly one entry is appended, earlier entries untouched and no cap applied. */
  lemma OtherwiseAppends(history: seq<Line>, meta: Meta, now: int)
    requires Candidate(meta).Some?
    requires var norm := NormalizeLine(Candidate(meta).value);
      && JsLength(norm) >= 2 && !InRecent(history, norm)
      && (history == [] || !IsRefinement(history[|history| - 1], norm, now))
    ensures var line := Candidate(meta).value;
      Reconcile(history, meta, now) == history + [Line(line, NormalizeLine(line), now)]
  {
    if history != [] {
      EqualsLastUnreachable(history, NormalizeLine(Candidate(meta).value));
    }
  }

  /** A call keeps or overwrites the last entry or appends one: it never touches the entries before the last. */
  lemma ReconcileShape(history: seq<Line>, meta: Meta, now: int)
    ensures var h := Reconcile(history, meta, now);
      && |history| <= |h| <= |history| + 1
      && forall i :: 0 <= i < |history| - 1 ==> h[i] == history[i]
  {
    var d := Decide(history, meta, now);
    var h := Apply(history, d);
    match d
    case Ignore =>
    case Overwrite(line) =>
      if history != [] {
        forall i | 0 <= i < |history| - 1 ensures h[i] == history[i] {
          assert h[i] == history[..|history| - 1][i];
        }
      }
    case Append(line) =>
      forall i | 0 <= i < |history| - 1 ensures h[i] == history[i] {
        assert h[i] == (history + [line])[i];
      }
  }

  /** Past the length and duplicate checks, the outcome is decided by the comparison with the last entry. */
  lemma ReconcileIsLastLineStep(history: seq<Line>, meta: Meta, now: int)
    requires Candidate(meta).Some?
    requires var norm := NormalizeLine(Candidate(meta).value); JsLength(norm) >= 2 && !InRecent(history, norm)
    ensures var line := Candidate(meta).value;
      Reconcile(history, meta, now) == Apply(history, LastLineStep(history, line, NormalizeLine(line), now))
  {
  }

  /** Once a text has been taken in, pushing the same input again, at any time, changes nothing. */
  lemma RepeatedPushIgnored(history: seq<Line>, meta: Meta, now: int, later: int)
    requires Reconcile(history, meta, now) != history
    ensures var h1 := Reconcile(history, meta, now); Reconcile(h1, meta, later) == h1
  {
    var h1 := Reconcile(history, meta, now);
    var d := Decide(history, meta, now);
    assert !d.Ignore?;
    var norm := NormalizeLine(Candidate(meta).value);
    assert h1[|h1| - 1].norm == norm;
    assert RecentStart(h1) <= |h1| - 1;
    assert InRecent(h1, norm);
  }

  class Reconciler {
    /** `transcriptLines`, oldest first. */
    var lines: seq<Line>

    constructor ()
      ensures lines == []
    {
      lines := [];
    }

    /** `appendTranscript(meta)`, with `Date.now()` passed in as `now`. */
    method AppendTranscript(meta: Meta, now: int)
      modifies this
      ensures lines == Reconcile(old(lines), meta, now)
      ensures |old(lines)| <= |lines| <= |old(lines)| + 1
      ensures forall i :: 0 <= i < |old(lines)| - 1 ==> lines[i] == old(lines)[i]
    {
      ReconcileShape(lines, meta, now);
      var cand := Candidate(meta);
      if cand.None? {
        IgnoresBlankAndShort(lines, meta, now);
        return;
      }
      var line := cand.value;
      var norm := NormalizeLine(line);
      if JsLength(norm) < 2 {
        IgnoresBlankAndShort(lines, meta, now);
        return;
      }
      if InRecent(lines, norm) {
        IgnoresRecentDuplicate(lines, meta, now);
        return;
      }
      ReconcileIsLastLineStep(lines, meta, now);
      CompareWithLast(line, norm, now);
    }

    /** The part of `appendTranscript` after the duplicate check, which compares with the last entry. */
    method CompareWithLast(line: string, norm: string, now: int)
      modifies this
      ensures lines == Apply(old(lines), LastLineStep(old(lines), line, norm, now))
    {
      if |lines| > 0 {
        var last := lines[|lines| - 1];
        var timeDiff := now - last.timestamp;
        if timeDiff < MergeWindowMs {
          if Includes(norm, last.norm) || Includes(last.norm, norm) {
            if JsLength(norm) > JsLength(last.norm) {
              lines := lines[..|lines| - 1] + [Line(line, norm, now)];
              return;
            } else {
              return;
            }
          }
        }
        if norm == last.norm {
          return;
        }
      }
      lines := lines + [Line(line, norm, now)];
    }
  }

  // ---------------------------------------------------------------- worked examples

  lemma TrimWord(w: string)
    requires w != [] && !IsJsSpace(w[0]) && !IsJsSpace(w[|w| - 1])
    ensures Trim(w) == w
  {
    assert TrimStart(w) == w;
    assert TrimEnd(w) == w;
  }

  lemma NormalizeSingleChar(c: char)
    requires !IsJsSpace(c)
    ensures NormalizeLine([c]) == [ToLower(c)]
  {
    TrimWord([c]);
    assert Collapse([c]) == [c] by { assert [c][1..] == []; }
  }

  lemma CollapseTwoLetters(a: char, b: char)
    requires !IsJsSpace(a) && !IsJsSpace(b)
    ensures Collapse([a, ' ', b]) == [a, ' ', b]
  {
    var s := [a, ' ', b];
    assert s[1..] == [' ', b];
    assert [' ', b][1..] == [b];
    assert TrimStart([b]) == [b];
    assert Collapse([b]) == [b] by { assert [b][1..] == []; }
  }

  lemma NormalizeAB()
    ensures NormalizeLine("A B") == "a b"
  {
    var s := ['A', ' ', 'B'];
    assert "A B" == s;
    TrimWord(s);
    CollapseTwoLetters('A', 'B');
    assert LowerAll(s) == ['a', ' ', 'b'];
  }

  /** A single letter normalises to one UTF-16 unit, below the two-unit minimum. */
  lemma SingleLetterIsShort(c: char)
    requires 'A' <= c <= 'Z'
    ensures JsLength(NormalizeLine([c])) == 1
  {
    var n := NormalizeLine([c]);
    assert n == [ToLower(c)] by { NormalizeSingleChar(c); }
    OneChar(n, ToLower(c));
  }

  lemma OneChar(n: string, x: char)
    requires n == [x]
    ensures JsLength(n) == if x as int > 0xFFFF then 2 else 1
  {
    assert n[1..] == [];
  }

  /**
   * A single character outside the Basic Multilingual Plane, such as an emoji,
   * is two UTF-16 units long and so passes the two-unit minimum on its own.
   */
  lemma SingleAstralCharIsLongEnough(x: char)
    requires x as int > 0xFFFF
    ensures JsLength(NormalizeLine([x])) == 2
  {
    var n := NormalizeLine([x]);
    assert !IsJsSpace(x) && ToLower(x) == x;
    assert n == [x] by { NormalizeSingleChar(x); }
    OneChar(n, x);
  }

  lemma SingleLetterDropped(history: seq<Line>, c: char, now: int)
    requires 'A' <= c <= 'Z'
    ensures Reconcile(history, Text([c]), now) == history
  {
    SingleLetterIsShort(c);
    assert Candidate(Text([c])) == Some([c]);
    IgnoresBlankAndShort(history, Text([c]), now);
  }

  lemma FirstLineAppended(meta: Meta, now: int)
    requires Candidate(meta).Some? && JsLength(NormalizeLine(Candidate(meta).value)) >= 2
    ensures var line := Candidate(meta).value;
      Reconcile([], meta, now) == [Line(line, NormalizeLine(line), now)]
  {
    OtherwiseAppends([], meta, now);
  }

  lemma SoleLineRepeated(line: Line, now: int)
    requires NormOf(line)
    ensures Reconcile([line], Text(line.text), now) == [line]
  {
    assert InRecent([line], line.norm) by { assert [line][0].norm == line.norm; }
    IgnoresRecentDuplicate([line], Text(line.text), now);
  }

  /**
   * Texts "A", "A B", "A B", "C" arriving at 0, 200, 5000 and 5100 ms leave one
   * line: the single letters are below the two-character minimum and the
   * second "A B" is a recent duplicate.
   */
  lemma ScenarioShortLinesDropped()
    ensures var h1 := Reconcile([], Text("A"), 0);
            var h2 := Reconcile(h1, Text("A B"), 200);
            var h3 := Reconcile(h2, Text("A B"), 5000);
            Reconcile(h3, Text("C"), 5100) == [Line("A B", "a b", 200)]
  {
    var l := Line("A B", "a b", 200);
    assert "A" == ['A'] && "C" == ['C'];
    var h1 := Reconcile([], Text("A"), 0);
    SingleLetterDropped([], 'A', 0);
    assert h1 == [];
    var h2 := Reconcile(h1, Text("A B"), 200);
    NormalizeAB();
    FirstLineAppended(Text("A B"), 200);
    assert h2 == [l];
    var h3 := Reconcile(h2, Text("A B"), 5000);
    assert NormOf(l);
    SoleLineRepeated(l, 5000);
    assert h3 == [l];
    SingleLetterDropped([l], 'C', 5100);
  }
}
