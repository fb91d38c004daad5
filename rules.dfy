/**
 * The banned-word detector: a normaliser that drops white space and
 * punctuation, an exhaustive exact search over the banned words, a fuzzy
 * search (run only when no exact hit exists) whose overlapping candidates are
 * thinned out, and the assembly of all findings.
 */
module Rules {
  import opened Chars
  import opened Sorting

  datatype Label = Rrn | Email | Phone | CardLike | BannedWord | BannedWordFuzzy

  /** `Finding(label, start, end, confidence)`: a half-open character span of the text. */
  datatype Finding = Finding(kind: Label, start: int, end: int, confidence: real)

  /** `BANNED_WORDS` */
  const BannedWords: seq<string> := ["sk", "에스케이", "오백억", "500억"]

  /** The punctuation `_normalize_korean_text` removes. */
  const Punctuation: string := "-_.,:;()[]{}\"'`~!@#$%^&*+=|\\/<>?"

  /** The four ASCII ranges that make up exactly the characters of `Punctuation`. */
  predicate IsAsciiPunctuation(c: char) {
    ('!' <= c <= '/') || (':' <= c <= '@') || ('[' <= c <= '`') || ('{' <= c <= '~')
  }

  lemma PunctuationRanges(c: char)
    ensures c in Punctuation <==> IsAsciiPunctuation(c)
  {
    if c in Punctuation {
      ListedIsAsciiPunctuation(c);
    }
    if '!' <= c <= '/' {
      PunctuationRange0(c);
    } else if ':' <= c <= '@' {
      PunctuationRange1(c);
    } else if '[' <= c <= '`' {
      PunctuationRange2(c);
    } else if '{' <= c <= '~' {
      PunctuationRange3(c);
    }
  }

  lemma PunctuationRange0(c: char)
    requires '!' <= c <= '/'
    ensures c in Punctuation
  {
    var p := Punctuation;
    assert p[16] == '!' && p[12] == '"' && p[18] == '#' && p[19] == '$' && p[20] == '%' && p[22] == '&' && p[13] == '\'' && p[6] == '(' && p[7] == ')' && p[23] == '*' && p[24] == '+' && p[3] == ',' && p[0] == '-' && p[2] == '.' && p[28] == '/';
  }

  lemma PunctuationRange1(c: char)
    requires ':' <= c <= '@'
    ensures c in Punctuation
  {
    var p := Punctuation;
    assert p[4] == ':' && p[5] == ';' && p[29] == '<' && p[25] == '=' && p[30] == '>' && p[31] == '?' && p[17] == '@';
  }

  lemma PunctuationRange2(c: char)
    requires '[' <= c <= '`'
    ensures c in Punctuation
  {
    var p := Punctuation;
    assert p[8] == '[' && p[27] == '\\' && p[9] == ']' && p[21] == '^' && p[1] == '_' && p[14] == '`';
  }

  lemma PunctuationRange3(c: char)
    requires '{' <= c <= '~'
    ensures c in Punctuation
  {
    var p := Punctuation;
    assert p[10] == '{' && p[26] == '|' && p[11] == '}' && p[15] == '~';
  }

  lemma ListedIsAsciiPunctuation(c: char)
    requires c in Punctuation
    ensures IsAsciiPunctuation(c)
  {
    var i :| 0 <= i < |Punctuation| && Punctuation[i] == c;
    if i < 8 {
      PunctuationPart0(i);
    } else if i < 16 {
      PunctuationPart1(i);
    } else if i < 24 {
      PunctuationPart2(i);
    } else {
      PunctuationPart3(i);
    }
  }

  lemma PunctuationPart0(i: int)
    requires 0 <= i < 8
    ensures IsAsciiPunctuation(Punctuation[i])
  {
    var p := Punctuation;
    assert p[0] == '-' && p[1] == '_' && p[2] == '.' && p[3] == ',' && p[4] == ':' && p[5] == ';' && p[6] == '(' && p[7] == ')';
  }

  lemma PunctuationPart1(i: int)
    requires 8 <= i < 16
    ensures IsAsciiPunctuation(Punctuation[i])
  {
    var p := Punctuation;
    assert p[8] == '[' && p[9] == ']' && p[10] == '{' && p[11] == '}' && p[12] == '"' && p[13] == '\'' && p[14] == '`' && p[15] == '~';
  }

  lemma PunctuationPart2(i: int)
    requires 16 <= i < 24
    ensures IsAsciiPunctuation(Punctuation[i])
  {
    var p := Punctuation;
    assert p[16] == '!' && p[17] == '@' && p[18] == '#' && p[19] == '$' && p[20] == '%' && p[21] == '^' && p[22] == '&' && p[23] == '*';
  }

  lemma PunctuationPart3(i: int)
    requires 24 <= i < 32
    ensures IsAsciiPunctuation(Punctuation[i])
  {
    var p := Punctuation;
    assert p[24] == '+' && p[25] == '=' && p[26] == '|' && p[27] == '\\' && p[28] == '/' && p[29] == '<' && p[30] == '>' && p[31] == '?';
  }

  predicate Dropped(c: char) {
    IsPySpace(c) || IsAsciiPunctuation(c)
  }

  /** The characters the normaliser keeps, in order. */
  function Kept(s: string): (r: string)
    ensures |r| <= |s|
  {
    if s == [] then [] else (if Dropped(s[0]) then [] else [s[0]]) + Kept(s[1..])
  }

  /** What `_normalize_korean_text(s)` returns. */
  function Normalized(s: string): string {
    UpperAll(Kept(s))
  }

  /** `_normalize_korean_text`: the character loop, then `upper()`. */
  method NormalizeKoreanText(s: string) returns (r: string)
    ensures r == Normalized(s)
  {
    var out := "";
    for i := 0 to |s|
      invariant Kept(s) == out + Kept(s[i..])
    {
      KeptStep(s, i, out);
      PunctuationRanges(s[i]);
      if IsPySpace(s[i]) {
        continue;
      }
      if s[i] in Punctuation {
        continue;
      }
      out := out + [s[i]];
    }
    assert s[|s|..] == [];
    r := UpperAll(out);
  }

  lemma KeptStep(s: string, i: nat, out: string)
    requires i < |s|
    ensures out + Kept(s[i..]) == (if Dropped(s[i]) then out else out + [s[i]]) + Kept(s[i + 1..])
  {
    assert s[i..][1..] == s[i + 1..];
  }

  lemma UpperStaysKept(c: char)
    requires !Dropped(c)
    ensures !Dropped(ToUpper(c)) && !('a' <= ToUpper(c) <= 'z')
  {
    if 'a' <= c <= 'z' {
      assert 'A' <= ToUpper(c) <= 'Z';
    }
  }

  /** The normalised text has no white space, no listed punctuation and no lower-case ASCII letter. */
  lemma NormalizedIsClean(s: string)
    ensures forall i :: 0 <= i < |Normalized(s)| ==>
      !Dropped(Normalized(s)[i]) && !('a' <= Normalized(s)[i] <= 'z')
  {
    var k := Kept(s);
    KeptIsClean(s);
    forall i | 0 <= i < |k|
      ensures !Dropped(ToUpper(k[i])) && !('a' <= ToUpper(k[i]) <= 'z')
    {
      UpperStaysKept(k[i]);
    }
  }

  /** Normalising is compositional: it works character by character. */
  lemma {:induction false} KeptAppend(a: string, b: string)
    ensures Kept(a + b) == Kept(a) + Kept(b)
  {
    if a != [] {
      assert (a + b)[1..] == a[1..] + b;
      KeptAppend(a[1..], b);
    } else {
      assert a + b == b;
    }
  }

  /** The normaliser drops every white-space and listed punctuation character. */
  lemma {:induction false} KeptIsClean(s: string)
    ensures forall i :: 0 <= i < |Kept(s)| ==> !Dropped(Kept(s)[i])
  {
    if s != [] {
      KeptIsClean(s[1..]);
    }
  }

  lemma {:induction false} KeptClean(s: string)
    requires forall i :: 0 <= i < |s| ==> !Dropped(s[i])
    ensures Kept(s) == s
  {
    if s != [] {
      KeptClean(s[1..]);
    }
  }

  /** Normalising twice is normalising once. */
  lemma NormalizedIdempotent(s: string)
    ensures Normalized(Normalized(s)) == Normalized(s)
  {
    var n := Normalized(s);
    NormalizedIsClean(s);
    KeptClean(n);
    assert UpperAll(n) == n;
  }

  // The exact search.

  /** `text` holds `w` at `i`. */
  predicate OccursAt(text: string, w: string, i: int) {
    0 <= i && i + |w| <= |text| && text[i..i + |w|] == w
  }

  /** `text.find(w, start)`: the first occurrence at or after `start`, or -1. */
  function Find(text: string, w: string, start: nat): (idx: int)
    ensures idx == -1 || (start <= idx && OccursAt(text, w, idx))
    ensures idx == -1 ==> forall j :: start <= j ==> !OccursAt(text, w, j)
    ensures idx != -1 ==> forall j :: start <= j < idx ==> !OccursAt(text, w, j)
    decreases |text| + 1 - start
  {
    if start + |w| > |text| then -1
    else if OccursAt(text, w, start) then start
    else Find(text, w, start + 1)
  }

  /** `w.isascii() and len(w) <= 3`: words the exact loop leaves to the short-Latin pattern. */
  predicate SkippedByExactLoop(w: string) {
    (forall i :: 0 <= i < |w| ==> IsAscii(w[i])) && |w| <= 3
  }

  /** `f` is a 0.95 banned-word finding for an exact occurrence of one of the first `upTo` words the loop searches for. */
  predicate ExactHit(f: Finding, text: string, words: seq<string>, upTo: int)
    requires upTo <= |words|
  {
    && f.kind == BannedWord && f.confidence == 0.95
    && exists k :: 0 <= k < upTo && !SkippedByExactLoop(words[k])
         && f.end == f.start + |words[k]| && OccursAt(text, words[k], f.start)
  }

  /** Every exact occurrence of the searched word `w` before `upTo` is reported. */
  predicate AllOccurrencesFound(findings: seq<Finding>, text: string, w: string, upTo: int) {
    forall i :: 0 <= i < upTo && OccursAt(text, w, i) ==> Finding(BannedWord, i, i + |w|, 0.95) in findings
  }

  /**
   * The exact loop of `detect`: every occurrence, overlapping ones included,
   * of every banned word it does not skip.
   */
  method ExactFindings(text: string, words: seq<string>) returns (findings: seq<Finding>)
    ensures forall f :: f in findings ==> ExactHit(f, text, words, |words|)
    ensures forall k :: 0 <= k < |words| && !SkippedByExactLoop(words[k]) ==>
      AllOccurrencesFound(findings, text, words[k], |text| + 1)
  {
    findings := [];
    for k := 0 to |words|
      invariant forall f :: f in findings ==> ExactHit(f, text, words, k)
      invariant forall k' :: 0 <= k' < k && !SkippedByExactLoop(words[k']) ==>
        AllOccurrencesFound(findings, text, words[k'], |text| + 1)
    {
      var w := words[k];
      if SkippedByExactLoop(w) {
        continue;
      }
      var start := 0;
      while true
        invariant start <= |text| + 1
        invariant forall f :: f in findings ==> ExactHit(f, text, words, k + 1)
        invariant forall k' :: 0 <= k' < k && !SkippedByExactLoop(words[k']) ==>
          AllOccurrencesFound(findings, text, words[k'], |text| + 1)
        invariant AllOccurrencesFound(findings, text, w, start)
        decreases |text| + 1 - start
      {
        var idx := Find(text, w, start);
        if idx == -1 {
          break;
        }
        findings := findings + [Finding(BannedWord, idx, idx + |w|, 0.95)];
        start := idx + 1;
      }
    }
  }

  // The fuzzy search.

  function Len(f: Finding): int {
    f.end - f.start
  }

  /** `min(0.99, score / 100.0)` */
  function FuzzyConfidence(score: real): (c: real)
    ensures c <= 0.99
    ensures c == 0.99 || c == score / 100.0
  {
    if score / 100.0 < 0.99 then score / 100.0 else 0.99
  }

  /** `range(max(1, L - max_window_extra), L + max_window_extra + 1)` holds `n`. */
  predicate InWindowRange(n: int, wordLen: int, maxExtra: nat) {
    (if wordLen - maxExtra > 1 then wordLen - maxExtra else 1) <= n <= wordLen + maxExtra
  }

  /**
   * The window `text[i..i+n]` is reported for banned word `w`: it normalises
   * to something non-empty that scores at least the threshold against `w`.
   */
  predicate FuzzyHit(text: string, w: string, i: int, n: int, threshold: real, ratio: (string, string) -> real) {
    && 0 <= i && 0 < n && i + n <= |text|
    && Normalized(text[i..i + n]) != []
    && ratio(Normalized(text[i..i + n]), Normalized(w)) >= threshold
  }

  /** A candidate of `_find_fuzzy_banned_spans`: a window near some banned word's length that scores well. */
  predicate FuzzyCandidate(f: Finding, text: string, words: seq<string>, threshold: real, maxExtra: nat,
                           ratio: (string, string) -> real)
  {
    && f.kind == BannedWordFuzzy
    && exists k :: 0 <= k < |words| && InWindowRange(Len(f), |words[k]|, maxExtra)
         && FuzzyHit(text, words[k], f.start, Len(f), threshold, ratio)
         && f.confidence == FuzzyConfidence(ratio(Normalized(text[f.start..f.end]), Normalized(words[k])))
  }

  /** The finding appended for window `text[i..i+n]` scored against banned word `w`. */
  function WindowFinding(text: string, w: string, i: int, n: int, ratio: (string, string) -> real): Finding
    requires 0 <= i && 0 <= n && i + n <= |text|
  {
    Finding(BannedWordFuzzy, i, i + n, FuzzyConfidence(ratio(Normalized(text[i..i + n]), Normalized(w))))
  }

  /** `max(1, L - max_window_extra)`: the shortest window tried for a word of length `wordLen`. */
  function ShortestWindow(wordLen: int, maxExtra: nat): int {
    if wordLen - maxExtra > 1 then wordLen - maxExtra else 1
  }

  /** The findings for the windows of length `n` starting before `upTo`, in the order they are appended. */
  function WindowHits(text: string, w: string, n: int, upTo: int, threshold: real, ratio: (string, string) -> real): seq<Finding>
    decreases upTo
  {
    if upTo <= 0 then []
    else
      WindowHits(text, w, n, upTo - 1, threshold, ratio)
      + (if FuzzyHit(text, w, upTo - 1, n, threshold, ratio) then [WindowFinding(text, w, upTo - 1, n, ratio)] else [])
  }

  /** The findings for the window lengths `lo` to `hi - 1` against `w`; a length over the text's is skipped. */
  function LengthHits(text: string, w: string, lo: int, hi: int, threshold: real, ratio: (string, string) -> real): seq<Finding>
    decreases hi - lo
  {
    if hi <= lo then []
    else
      LengthHits(text, w, lo, hi - 1, threshold, ratio)
      + (if hi - 1 > |text| then [] else WindowHits(text, w, hi - 1, |text| - (hi - 1) + 1, threshold, ratio))
  }

  /** The findings for the first `k` banned words, each over its range of window lengths. */
  function WordsHits(text: string, words: seq<string>, k: int, threshold: real, maxExtra: nat,
                     ratio: (string, string) -> real): seq<Finding>
    requires k <= |words|
    decreases k
  {
    if k <= 0 then []
    else
      WordsHits(text, words, k - 1, threshold, maxExtra, ratio)
      + LengthHits(text, words[k - 1], ShortestWindow(|words[k - 1]|, maxExtra), |words[k - 1]| + maxExtra + 1, threshold, ratio)
  }

  lemma {:induction false} WindowHitsSound(text: string, w: string, n: int, upTo: int, threshold: real,
                                           ratio: (string, string) -> real)
    ensures forall f :: f in WindowHits(text, w, n, upTo, threshold, ratio) ==>
      Len(f) == n && FuzzyHit(text, w, f.start, n, threshold, ratio) && f == WindowFinding(text, w, f.start, n, ratio)
  {
    forall f | f in WindowHits(text, w, n, upTo, threshold, ratio)
      ensures Len(f) == n && FuzzyHit(text, w, f.start, n, threshold, ratio) && f == WindowFinding(text, w, f.start, n, ratio)
    {
      WindowHitIsHit(text, w, n, upTo, threshold, ratio, f);
    }
  }

  lemma {:induction false} WindowHitIsHit(text: string, w: string, n: int, upTo: int, threshold: real,
                                          ratio: (string, string) -> real, f: Finding)
    requires f in WindowHits(text, w, n, upTo, threshold, ratio)
    ensures Len(f) == n && FuzzyHit(text, w, f.start, n, threshold, ratio) && f == WindowFinding(text, w, f.start, n, ratio)
    decreases upTo
  {
    if upTo > 0 {
      var before := WindowHits(text, w, n, upTo - 1, threshold, ratio);
      var hit := FuzzyHit(text, w, upTo - 1, n, threshold, ratio);
      var last := if hit then [WindowFinding(text, w, upTo - 1, n, ratio)] else [];
      assert WindowHits(text, w, n, upTo, threshold, ratio) == before + last;
      if f in before {
        WindowHitIsHit(text, w, n, upTo - 1, threshold, ratio, f);
      } else {
        assert hit && f == WindowFinding(text, w, upTo - 1, n, ratio);
      }
    }
  }

  lemma {:induction false} WindowHitsComplete(text: string, w: string, n: int, upTo: int, threshold: real,
                                              ratio: (string, string) -> real)
    ensures forall i :: 0 <= i < upTo && FuzzyHit(text, w, i, n, threshold, ratio) ==>
      WindowFinding(text, w, i, n, ratio) in WindowHits(text, w, n, upTo, threshold, ratio)
  {
    forall i | 0 <= i < upTo && FuzzyHit(text, w, i, n, threshold, ratio)
      ensures WindowFinding(text, w, i, n, ratio) in WindowHits(text, w, n, upTo, threshold, ratio)
    {
      WindowHitFound(text, w, n, upTo, threshold, ratio, i);
    }
  }

  lemma {:induction false} WindowHitFound(text: string, w: string, n: int, upTo: int, threshold: real,
                                          ratio: (string, string) -> real, i: int)
    requires 0 <= i < upTo && FuzzyHit(text, w, i, n, threshold, ratio)
    ensures WindowFinding(text, w, i, n, ratio) in WindowHits(text, w, n, upTo, threshold, ratio)
    decreases upTo
  {
    var before := WindowHits(text, w, n, upTo - 1, threshold, ratio);
    var last := if FuzzyHit(text, w, upTo - 1, n, threshold, ratio) then [WindowFinding(text, w, upTo - 1, n, ratio)] else [];
    assert WindowHits(text, w, n, upTo, threshold, ratio) == before + last;
    if i < upTo - 1 {
      WindowHitFound(text, w, n, upTo - 1, threshold, ratio, i);
    } else {
      assert WindowFinding(text, w, i, n, ratio) in last;
    }
  }

  lemma {:induction false} LengthHitsSound(text: string, w: string, lo: int, hi: int, threshold: real,
                                           ratio: (string, string) -> real)
    ensures forall f :: f in LengthHits(text, w, lo, hi, threshold, ratio) ==>
      lo <= Len(f) < hi && FuzzyHit(text, w, f.start, Len(f), threshold, ratio)
      && f == WindowFinding(text, w, f.start, Len(f), ratio)
  {
    forall f | f in LengthHits(text, w, lo, hi, threshold, ratio)
      ensures lo <= Len(f) < hi && FuzzyHit(text, w, f.start, Len(f), threshold, ratio)
              && f == WindowFinding(text, w, f.start, Len(f), ratio)
    {
      LengthHitIsHit(text, w, lo, hi, threshold, ratio, f);
    }
  }

  lemma {:induction false} LengthHitIsHit(text: string, w: string, lo: int, hi: int, threshold: real,
                                          ratio: (string, string) -> real, f: Finding)
    requires f in LengthHits(text, w, lo, hi, threshold, ratio)
    ensures lo <= Len(f) < hi && FuzzyHit(text, w, f.start, Len(f), threshold, ratio)
            && f == WindowFinding(text, w, f.start, Len(f), ratio)
    decreases hi - lo
  {
    if hi > lo {
      var before := LengthHits(text, w, lo, hi - 1, threshold, ratio);
      var last := if hi - 1 > |text| then [] else WindowHits(text, w, hi - 1, |text| - (hi - 1) + 1, threshold, ratio);
      assert LengthHits(text, w, lo, hi, threshold, ratio) == before + last;
      if f in before {
        LengthHitIsHit(text, w, lo, hi - 1, threshold, ratio, f);
      } else {
        WindowHitIsHit(text, w, hi - 1, |text| - (hi - 1) + 1, threshold, ratio, f);
      }
    }
  }

  lemma {:induction false} LengthHitsComplete(text: string, w: string, lo: int, hi: int, threshold: real,
                                              ratio: (string, string) -> real)
    ensures forall n, i :: lo <= n < hi && FuzzyHit(text, w, i, n, threshold, ratio) ==>
      WindowFinding(text, w, i, n, ratio) in LengthHits(text, w, lo, hi, threshold, ratio)
  {
    forall n, i | lo <= n < hi && FuzzyHit(text, w, i, n, threshold, ratio)
      ensures WindowFinding(text, w, i, n, ratio) in LengthHits(text, w, lo, hi, threshold, ratio)
    {
      LengthHitFound(text, w, lo, hi, threshold, ratio, n, i);
    }
  }

  lemma {:induction false} LengthHitFound(text: string, w: string, lo: int, hi: int, threshold: real,
                                          ratio: (string, string) -> real, n: int, i: int)
    requires lo <= n < hi && FuzzyHit(text, w, i, n, threshold, ratio)
    ensures WindowFinding(text, w, i, n, ratio) in LengthHits(text, w, lo, hi, threshold, ratio)
    decreases hi - lo
  {
    if n < hi - 1 {
      LengthHitFound(text, w, lo, hi - 1, threshold, ratio, n, i);
      LengthHitsKeep(text, w, lo, hi, threshold, ratio, WindowFinding(text, w, i, n, ratio));
    } else {
      WindowHitFound(text, w, n, |text| - n + 1, threshold, ratio, i);
      LengthHitsTop(text, w, lo, hi, threshold, ratio, WindowFinding(text, w, i, n, ratio));
    }
  }

  lemma LengthHitsKeep(text: string, w: string, lo: int, hi: int, threshold: real,
                       ratio: (string, string) -> real, x: Finding)
    requires lo < hi && x in LengthHits(text, w, lo, hi - 1, threshold, ratio)
    ensures x in LengthHits(text, w, lo, hi, threshold, ratio)
  {
    var last := if hi - 1 > |text| then [] else WindowHits(text, w, hi - 1, |text| - (hi - 1) + 1, threshold, ratio);
    assert LengthHits(text, w, lo, hi, threshold, ratio) == LengthHits(text, w, lo, hi - 1, threshold, ratio) + last;
  }

  lemma LengthHitsTop(text: string, w: string, lo: int, hi: int, threshold: real,
                      ratio: (string, string) -> real, x: Finding)
    requires lo < hi <= |text| + 1 && x in WindowHits(text, w, hi - 1, |text| - (hi - 1) + 1, threshold, ratio)
    ensures x in LengthHits(text, w, lo, hi, threshold, ratio)
  {
    var last := WindowHits(text, w, hi - 1, |text| - (hi - 1) + 1, threshold, ratio);
    assert LengthHits(text, w, lo, hi, threshold, ratio) == LengthHits(text, w, lo, hi - 1, threshold, ratio) + last;
  }

  /** Every collected finding is a candidate: a window near a banned word's length that scores well. */
  lemma {:induction false} WordsHitsSound(text: string, words: seq<string>, k: int, threshold: real, maxExtra: nat,
                                          ratio: (string, string) -> real)
    requires k <= |words|
    ensures forall f :: f in WordsHits(text, words, k, threshold, maxExtra, ratio) ==>
      FuzzyCandidate(f, text, words, threshold, maxExtra, ratio) && 0 <= f.start < f.end <= |text| && f.confidence <= 0.99
  {
    forall f | f in WordsHits(text, words, k, threshold, maxExtra, ratio)
      ensures FuzzyCandidate(f, text, words, threshold, maxExtra, ratio) && 0 <= f.start < f.end <= |text| && f.confidence <= 0.99
    {
      WordsHitIsCandidate(text, words, k, threshold, maxExtra, ratio, f);
    }
  }

  lemma {:induction false} WordsHitIsCandidate(text: string, words: seq<string>, k: int, threshold: real, maxExtra: nat,
                                               ratio: (string, string) -> real, f: Finding)
    requires k <= |words| && f in WordsHits(text, words, k, threshold, maxExtra, ratio)
    ensures FuzzyCandidate(f, text, words, threshold, maxExtra, ratio) && 0 <= f.start < f.end <= |text| && f.confidence <= 0.99
    decreases k
  {
    if k > 0 {
      WordsHitsSplit(text, words, k, threshold, maxExtra, ratio, f);
      if f in WordsHits(text, words, k - 1, threshold, maxExtra, ratio) {
        WordsHitIsCandidate(text, words, k - 1, threshold, maxExtra, ratio, f);
      } else {
        WordHitIsCandidate(text, words, k - 1, threshold, maxExtra, ratio, f);
      }
    }
  }

  /** A finding for banned word `words[j]` is a candidate. */
  lemma WordHitIsCandidate(text: string, words: seq<string>, j: int, threshold: real, maxExtra: nat,
                           ratio: (string, string) -> real, f: Finding)
    requires 0 <= j < |words|
    requires f in LengthHits(text, words[j], ShortestWindow(|words[j]|, maxExtra), |words[j]| + maxExtra + 1, threshold, ratio)
    ensures FuzzyCandidate(f, text, words, threshold, maxExtra, ratio) && 0 <= f.start < f.end <= |text| && f.confidence <= 0.99
  {
    var w := words[j];
    LengthHitIsHit(text, w, ShortestWindow(|w|, maxExtra), |w| + maxExtra + 1, threshold, ratio, f);
    assert InWindowRange(Len(f), |words[j]|, maxExtra);
  }

  lemma WordsHitsSplit(text: string, words: seq<string>, k: int, threshold: real, maxExtra: nat,
                       ratio: (string, string) -> real, x: Finding)
    requires 0 < k <= |words| && x in WordsHits(text, words, k, threshold, maxExtra, ratio)
    ensures || x in WordsHits(text, words, k - 1, threshold, maxExtra, ratio)
            || x in LengthHits(text, words[k - 1], ShortestWindow(|words[k - 1]|, maxExtra), |words[k - 1]| + maxExtra + 1, threshold, ratio)
  {
  }

  lemma WordsHitsKeep(text: string, words: seq<string>, k: int, threshold: real, maxExtra: nat,
                      ratio: (string, string) -> real, x: Finding)
    requires 0 < k <= |words| && x in WordsHits(text, words, k - 1, threshold, maxExtra, ratio)
    ensures x in WordsHits(text, words, k, threshold, maxExtra, ratio)
  {
  }

  lemma WordsHitsTop(text: string, words: seq<string>, k: int, threshold: real, maxExtra: nat,
                     ratio: (string, string) -> real, x: Finding)
    requires 0 < k <= |words|
    requires x in LengthHits(text, words[k - 1], ShortestWindow(|words[k - 1]|, maxExtra), |words[k - 1]| + maxExtra + 1, threshold, ratio)
    ensures x in WordsHits(text, words, k, threshold, maxExtra, ratio)
  {
  }

  /** Every window near a banned word's length that scores well is collected. */
  lemma {:induction false} WordsHitsComplete(text: string, words: seq<string>, k: int, threshold: real, maxExtra: nat,
                                             ratio: (string, string) -> real)
    requires k <= |words|
    ensures forall j, n, i :: 0 <= j < k && InWindowRange(n, |words[j]|, maxExtra)
                              && FuzzyHit(text, words[j], i, n, threshold, ratio) ==>
      WindowFinding(text, words[j], i, n, ratio) in WordsHits(text, words, k, threshold, maxExtra, ratio)
  {
    forall j, n, i | 0 <= j < k && InWindowRange(n, |words[j]|, maxExtra) && FuzzyHit(text, words[j], i, n, threshold, ratio)
      ensures WindowFinding(text, words[j], i, n, ratio) in WordsHits(text, words, k, threshold, maxExtra, ratio)
    {
      var w := words[j];
      LengthHitFound(text, w, ShortestWindow(|w|, maxExtra), |w| + maxExtra + 1, threshold, ratio, n, i);
      WordsHitsInclude(text, words, k, threshold, maxExtra, ratio, j, WindowFinding(text, w, i, n, ratio));
    }
  }

  /** The findings for banned word `words[j]` are among those collected for the first `k` words, `j < k`. */
  lemma {:induction false} WordsHitsInclude(text: string, words: seq<string>, k: int, threshold: real, maxExtra: nat,
                                            ratio: (string, string) -> real, j: int, x: Finding)
    requires k <= |words| && 0 <= j < k
    requires x in LengthHits(text, words[j], ShortestWindow(|words[j]|, maxExtra), |words[j]| + maxExtra + 1, threshold, ratio)
    ensures x in WordsHits(text, words, k, threshold, maxExtra, ratio)
    decreases k
  {
    if j < k - 1 {
      WordsHitsInclude(text, words, k - 1, threshold, maxExtra, ratio, j, x);
      WordsHitsKeep(text, words, k, threshold, maxExtra, ratio, x);
    } else {
      WordsHitsTop(text, words, k, threshold, maxExtra, ratio, x);
    }
  }

  /**
   * The three nested loops of `_find_fuzzy_banned_spans` that collect
   * candidates, in the order they are appended. `WordsHitsSound` and
   * `WordsHitsComplete` say what that list holds: every window of a length
   * near some banned word's that scores at least the threshold, and nothing else.
   */
  method FuzzyCandidates(text: string, words: seq<string>, threshold: real, maxExtra: nat,
                         ratio: (string, string) -> real) returns (cands: seq<Finding>)
    ensures cands == WordsHits(text, words, |words|, threshold, maxExtra, ratio)
  {
    cands := [];
    for k := 0 to |words|
      invariant cands == WordsHits(text, words, k, threshold, maxExtra, ratio)
    {
      cands := WordCandidates(text, words[k], threshold, maxExtra, ratio, cands);
    }
  }

  /** The two inner loops, for banned word `w`: every window length near `|w|`, every start. */
  method WordCandidates(text: string, w: string, threshold: real, maxExtra: nat,
                        ratio: (string, string) -> real, before: seq<Finding>) returns (cands: seq<Finding>)
    ensures cands == before + LengthHits(text, w, ShortestWindow(|w|, maxExtra), |w| + maxExtra + 1, threshold, ratio)
  {
    var wNorm := NormalizeKoreanText(w);
    var wordLen := |w|;
    var lo := if wordLen - maxExtra > 1 then wordLen - maxExtra else 1;
    cands := before;
    for n := lo to wordLen + maxExtra + 1
      invariant cands == before + LengthHits(text, w, lo, n, threshold, ratio)
    {
      ghost var prior := cands;
      if n <= |text| {
        cands := ScanWindows(text, w, n, wNorm, threshold, ratio, cands);
      }
      LengthHitsStep(text, w, lo, n, threshold, ratio, before, prior, cands);
    }
  }

  /** Scanning the windows of one more length extends the collected list by that length's findings. */
  lemma LengthHitsStep(text: string, w: string, lo: int, n: int, threshold: real, ratio: (string, string) -> real,
                       before: seq<Finding>, prior: seq<Finding>, after: seq<Finding>)
    requires lo <= n
    requires prior == before + LengthHits(text, w, lo, n, threshold, ratio)
    requires after == prior + (if n > |text| then [] else WindowHits(text, w, n, |text| - n + 1, threshold, ratio))
    ensures after == before + LengthHits(text, w, lo, n + 1, threshold, ratio)
  {
    var more := if n > |text| then [] else WindowHits(text, w, n, |text| - n + 1, threshold, ratio);
    var done := LengthHits(text, w, lo, n, threshold, ratio);
    assert LengthHits(text, w, lo, n + 1, threshold, ratio) == done + more;
    AppendStep(before, done, more, prior, after);
  }

  lemma AppendStep<T>(before: seq<T>, done: seq<T>, more: seq<T>, prior: seq<T>, after: seq<T>)
    requires prior == before + done && after == prior + more
    ensures after == before + (done + more)
  {
  }

  /** The innermost loop: every start of a window of length `n`, scored against `w`. */
  method ScanWindows(text: string, w: string, n: nat, wNorm: string, threshold: real,
                     ratio: (string, string) -> real, before: seq<Finding>) returns (cands: seq<Finding>)
    requires 0 < n <= |text| && wNorm == Normalized(w)
    ensures cands == before + WindowHits(text, w, n, |text| - n + 1, threshold, ratio)
  {
    cands := before;
    for i := 0 to |text| - n + 1
      invariant cands == before + WindowHits(text, w, n, i, threshold, ratio)
    {
      var chunkNorm := NormalizeKoreanText(text[i..i + n]);
      if chunkNorm == [] {
        continue;
      }
      var score := ratio(chunkNorm, wNorm);
      if score >= threshold {
        cands := cands + [Finding(BannedWordFuzzy, i, i + n, FuzzyConfidence(score))];
      }
    }
  }

  /** `key=lambda f: (f.start, -(f.end - f.start), -f.confidence)`, compared as tuples. */
  function FuzzyKeyLe(a: Finding, b: Finding): bool {
    a.start < b.start || (a.start == b.start && (Len(a) > Len(b) || (Len(a) == Len(b) && a.confidence >= b.confidence)))
  }

  lemma FuzzyKeyLeIsPreorder()
    ensures TotalPreorder(FuzzyKeyLe)
  {
  }

  /** `(f.confidence, len) > (prev.confidence, prev_len)` as tuples. */
  predicate Outranks(f: Finding, prev: Finding) {
    f.confidence > prev.confidence || (f.confidence == prev.confidence && Len(f) > Len(prev))
  }

  /** One of the two starts within the other finding's span: the overlap test of the pass below. */
  predicate Touches(a: Finding, b: Finding) {
    (a.start <= b.start <= a.end) || (b.start <= a.start <= b.end)
  }

  /** Some other candidate touches `f` and outranks or ties it. */
  ghost predicate Outdone(f: Finding, fs: seq<Finding>) {
    exists d :: d in fs && d != f && Touches(f, d) && !Outranks(f, d)
  }

  /** Starts never decrease and each finding starts after the previous one ends. */
  predicate Disjoint(ms: seq<Finding>) {
    forall k :: 0 <= k < |ms| - 1 ==> ms[k].start <= ms[k + 1].start && ms[k + 1].start > ms[k].end
  }

  predicate StartsSorted(fs: seq<Finding>) {
    forall i :: 0 < i < |fs| ==> fs[i - 1].start <= fs[i].start
  }

  /** Each kept finding is the candidate at its recorded index. */
  ghost predicate Picked(merged: seq<Finding>, fs: seq<Finding>, src: seq<nat>) {
    |src| == |merged| && forall k :: 0 <= k < |merged| ==> src[k] < |fs| && merged[k] == fs[src[k]]
  }

  /**
   * The overlap pass: walking the sorted candidates, one that starts within the
   * last kept finding replaces it if it outranks it and is dropped otherwise.
   */
  method MergeOverlapping(fs: seq<Finding>) returns (merged: seq<Finding>)
    requires StartsSorted(fs)
    ensures Disjoint(merged)
    ensures forall k :: 0 <= k < |merged| ==> merged[k] in fs
    ensures |merged| <= |fs| && (fs != [] ==> merged != [])
    ensures forall j {:trigger Outdone(fs[j], fs)} :: 0 <= j < |fs| && fs[j] !in merged ==> Outdone(fs[j], fs)
  {
    merged := [];
    ghost var src: seq<nat> := [];
    for i := 0 to |fs|
      invariant Disjoint(merged) && |merged| <= i && Picked(merged, fs, src)
      invariant i > 0 ==> merged != [] && merged[|merged| - 1].start <= fs[i - 1].start
      invariant forall j {:trigger Outdone(fs[j], fs)} :: 0 <= j < i && fs[j] !in merged ==> Outdone(fs[j], fs)
    {
      merged, src := MergeOverlappingOne(fs, i, merged, src);
    }
    forall k | 0 <= k < |merged|
      ensures merged[k] in fs
    {
      assert merged[k] == fs[src[k]];
    }
  }

  /** One iteration of the overlap pass, on candidate `fs[i]`. */
  method MergeOverlappingOne(fs: seq<Finding>, i: nat, merged: seq<Finding>, ghost src: seq<nat>)
    returns (merged': seq<Finding>, ghost src': seq<nat>)
    requires i < |fs| && StartsSorted(fs)
    requires Disjoint(merged) && |merged| <= i && Picked(merged, fs, src)
    requires i > 0 ==> merged != [] && merged[|merged| - 1].start <= fs[i - 1].start
    requires forall j {:trigger Outdone(fs[j], fs)} :: 0 <= j < i && fs[j] !in merged ==> Outdone(fs[j], fs)
    ensures Disjoint(merged') && |merged'| <= i + 1 && Picked(merged', fs, src')
    ensures merged' != [] && merged'[|merged'| - 1].start <= fs[i].start
    ensures forall j {:trigger Outdone(fs[j], fs)} :: 0 <= j <= i && fs[j] !in merged' ==> Outdone(fs[j], fs)
  {
    var f := fs[i];
    if merged == [] {
      return [f], [i];
    }
    var prev := merged[|merged| - 1];
    assert prev.start <= f.start;
    if f.start <= prev.end {
      if Outranks(f, prev) {
        merged' := merged[..|merged| - 1] + [f];
        src' := src[..|merged| - 1] + [i];
        ReplaceLastKeepsShape(fs, i, merged, src);
        ReplacedIsOutdone(fs, i, merged);
      } else {
        merged', src' := merged, src;
        DroppedIsOutdone(fs, i, merged, fs[src[|merged| - 1]]);
      }
    } else {
      merged' := merged + [f];
      src' := src + [i];
      AppendKeepsShape(fs, i, merged, src);
      AppendedKeepsOutdone(fs, i, merged);
    }
  }

  /** Replacing the last kept finding by a candidate that starts no earlier keeps the list disjoint and picked from `fs`. */
  lemma ReplaceLastKeepsShape(fs: seq<Finding>, i: nat, merged: seq<Finding>, src: seq<nat>)
    requires i < |fs| && merged != [] && Disjoint(merged) && Picked(merged, fs, src)
    requires merged[|merged| - 1].start <= fs[i].start
    ensures Disjoint(merged[..|merged| - 1] + [fs[i]])
    ensures Picked(merged[..|merged| - 1] + [fs[i]], fs, src[..|merged| - 1] + [i])
  {
    var merged' := merged[..|merged| - 1] + [fs[i]];
    var src' := src[..|merged| - 1] + [i];
    forall k | 0 <= k < |merged'| - 1
      ensures merged'[k].start <= merged'[k + 1].start && merged'[k + 1].start > merged'[k].end
    {
      assert merged'[k] == merged[k];
      if k + 1 < |merged| - 1 {
        assert merged'[k + 1] == merged[k + 1];
      }
    }
    forall k | 0 <= k < |merged'|
      ensures src'[k] < |fs| && merged'[k] == fs[src'[k]]
    {
      if k < |merged| - 1 {
        assert merged'[k] == merged[k] && src'[k] == src[k];
      }
    }
  }

  /** Appending a candidate that starts after the last kept finding ends keeps the list disjoint and picked from `fs`. */
  lemma AppendKeepsShape(fs: seq<Finding>, i: nat, merged: seq<Finding>, src: seq<nat>)
    requires i < |fs| && merged != [] && Disjoint(merged) && Picked(merged, fs, src)
    requires merged[|merged| - 1].start <= fs[i].start && fs[i].start > merged[|merged| - 1].end
    ensures Disjoint(merged + [fs[i]]) && Picked(merged + [fs[i]], fs, src + [i])
  {
    var merged' := merged + [fs[i]];
    forall k | 0 <= k < |merged'| - 1
      ensures merged'[k].start <= merged'[k + 1].start && merged'[k + 1].start > merged'[k].end
    {
      assert merged'[k] == merged[k];
    }
  }

  /** A kept finding replaced by candidate `fs[i]` is outdone by it; the findings dropped before stay outdone. */
  lemma ReplacedIsOutdone(fs: seq<Finding>, i: nat, merged: seq<Finding>)
    requires i < |fs| && merged != [] && merged[|merged| - 1] in fs
    requires merged[|merged| - 1].start <= fs[i].start <= merged[|merged| - 1].end
    requires Outranks(fs[i], merged[|merged| - 1])
    requires forall j {:trigger Outdone(fs[j], fs)} :: 0 <= j < i && fs[j] !in merged ==> Outdone(fs[j], fs)
    ensures forall j {:trigger Outdone(fs[j], fs)} :: 0 <= j <= i && fs[j] !in merged[..|merged| - 1] + [fs[i]] ==> Outdone(fs[j], fs)
  {
    var prev := merged[|merged| - 1];
    var merged' := merged[..|merged| - 1] + [fs[i]];
    forall x | x in merged && x != prev
      ensures x in merged'
    {
      var m :| 0 <= m < |merged| && merged[m] == x;
      assert merged'[m] == merged[m];
    }
    assert fs[i] in fs && fs[i] != prev && Touches(prev, fs[i]) && !Outranks(prev, fs[i]);
  }

  /** Candidate `fs[i]`, dropped for touching the last kept finding `prev` without outranking it, is outdone by it. */
  lemma DroppedIsOutdone(fs: seq<Finding>, i: nat, merged: seq<Finding>, prev: Finding)
    requires i < |fs| && merged != [] && prev == merged[|merged| - 1] && prev in fs
    requires prev.start <= fs[i].start <= prev.end && !Outranks(fs[i], prev)
    requires forall j {:trigger Outdone(fs[j], fs)} :: 0 <= j < i && fs[j] !in merged ==> Outdone(fs[j], fs)
    ensures forall j {:trigger Outdone(fs[j], fs)} :: 0 <= j <= i && fs[j] !in merged ==> Outdone(fs[j], fs)
  {
    if fs[i] !in merged {
      assert prev != fs[i] && Touches(fs[i], prev);
    }
  }

  lemma AppendedKeepsOutdone(fs: seq<Finding>, i: nat, merged: seq<Finding>)
    requires i < |fs|
    requires forall j {:trigger Outdone(fs[j], fs)} :: 0 <= j < i && fs[j] !in merged ==> Outdone(fs[j], fs)
    ensures forall j {:trigger Outdone(fs[j], fs)} :: 0 <= j <= i && fs[j] !in merged + [fs[i]] ==> Outdone(fs[j], fs)
  {
    forall j | 0 <= j <= i && fs[j] !in merged + [fs[i]]
      ensures Outdone(fs[j], fs)
    {
      assert fs[j] !in merged;
    }
  }

  /** Window `text[i..i+n]` scores well against banned word `k` at a length the search tries. */
  ghost predicate WindowScores(text: string, words: seq<string>, k: int, n: int, i: int, threshold: real, maxExtra: nat,
                               ratio: (string, string) -> real)
  {
    0 <= k < |words| && InWindowRange(n, |words[k]|, maxExtra) && FuzzyHit(text, words[k], i, n, threshold, ratio)
  }

  ghost predicate SomeWindowScores(text: string, words: seq<string>, threshold: real, maxExtra: nat,
                                   ratio: (string, string) -> real)
  {
    exists k, n, i :: WindowScores(text, words, k, n, i, threshold, maxExtra, ratio)
  }

  /** `f` was kept, or another candidate that touches it outranks or ties it. */
  ghost predicate KeptOrOutdone(f: Finding, merged: seq<Finding>, text: string, words: seq<string>, threshold: real,
                                maxExtra: nat, ratio: (string, string) -> real)
  {
    || f in merged
    || exists d :: FuzzyCandidate(d, text, words, threshold, maxExtra, ratio) && d != f && Touches(f, d) && !Outranks(f, d)
  }

  /**
   * `_find_fuzzy_banned_spans`: candidates, sorted by the key, then thinned
   * out. What is reported is disjoint and made of candidates; every window
   * that scores well is reported or loses to a touching candidate; so something
   * is reported exactly when some window scores well.
   */
  method FindFuzzyBannedSpans(text: string, words: seq<string>, threshold: real, maxExtra: nat,
                              ratio: (string, string) -> real) returns (merged: seq<Finding>)
    ensures Disjoint(merged)
    ensures forall k :: 0 <= k < |merged| ==> FuzzyCandidate(merged[k], text, words, threshold, maxExtra, ratio)
    ensures forall k :: 0 <= k < |merged| ==> 0 <= merged[k].start < merged[k].end <= |text|
    ensures forall k, n, i :: WindowScores(text, words, k, n, i, threshold, maxExtra, ratio) ==>
      KeptOrOutdone(WindowFinding(text, words[k], i, n, ratio), merged, text, words, threshold, maxExtra, ratio)
    ensures merged != [] <==> SomeWindowScores(text, words, threshold, maxExtra, ratio)
  {
    var cands := FuzzyCandidates(text, words, threshold, maxExtra, ratio);
    FuzzyKeyLeIsPreorder();
    var sorted := SortBy(cands, FuzzyKeyLe);
    assert StartsSorted(sorted) by {
      forall i | 0 < i < |sorted| ensures sorted[i - 1].start <= sorted[i].start {
        assert FuzzyKeyLe(sorted[i - 1], sorted[i]);
      }
    }
    merged := MergeOverlapping(sorted);
    FuzzyOutcome(text, words, threshold, maxExtra, ratio, cands, sorted, merged);
  }

  /** What the overlap pass keeps of the sorted candidates, told in terms of the windows. */
  lemma FuzzyOutcome(text: string, words: seq<string>, threshold: real, maxExtra: nat, ratio: (string, string) -> real,
                     cands: seq<Finding>, sorted: seq<Finding>, merged: seq<Finding>)
    requires cands == WordsHits(text, words, |words|, threshold, maxExtra, ratio)
    requires multiset(sorted) == multiset(cands)
    requires forall k :: 0 <= k < |merged| ==> merged[k] in sorted
    requires |merged| <= |sorted| && (sorted != [] ==> merged != [])
    requires forall j {:trigger Outdone(sorted[j], sorted)} :: 0 <= j < |sorted| && sorted[j] !in merged ==> Outdone(sorted[j], sorted)
    ensures forall k :: 0 <= k < |merged| ==> FuzzyCandidate(merged[k], text, words, threshold, maxExtra, ratio)
    ensures forall k :: 0 <= k < |merged| ==> 0 <= merged[k].start < merged[k].end <= |text|
    ensures forall k, n, i :: WindowScores(text, words, k, n, i, threshold, maxExtra, ratio) ==>
      KeptOrOutdone(WindowFinding(text, words[k], i, n, ratio), merged, text, words, threshold, maxExtra, ratio)
    ensures merged != [] <==> SomeWindowScores(text, words, threshold, maxExtra, ratio)
  {
    WordsHitsSound(text, words, |words|, threshold, maxExtra, ratio);
    WordsHitsComplete(text, words, |words|, threshold, maxExtra, ratio);
    forall f | f in sorted
      ensures f in cands
    {
      assert f in multiset(sorted);
    }
    forall k | 0 <= k < |merged|
      ensures FuzzyCandidate(merged[k], text, words, threshold, maxExtra, ratio)
      ensures 0 <= merged[k].start < merged[k].end <= |text|
    {
      assert merged[k] in cands;
    }
    forall k, n, i | WindowScores(text, words, k, n, i, threshold, maxExtra, ratio)
      ensures KeptOrOutdone(WindowFinding(text, words[k], i, n, ratio), merged, text, words, threshold, maxExtra, ratio)
    {
      var f := WindowFinding(text, words[k], i, n, ratio);
      assert f in cands;
      assert f in sorted by {
        assert f in multiset(cands);
      }
      if f !in merged {
        var j :| 0 <= j < |sorted| && sorted[j] == f;
        assert Outdone(sorted[j], sorted);
        var d :| d in sorted && d != f && Touches(f, d) && !Outranks(f, d);
        assert d in cands;
      }
    }
    if merged != [] {
      var f := merged[0];
      assert f in cands;
      assert FuzzyCandidate(f, text, words, threshold, maxExtra, ratio);
      var k :| 0 <= k < |words| && InWindowRange(Len(f), |words[k]|, maxExtra)
               && FuzzyHit(text, words[k], f.start, Len(f), threshold, ratio);
      assert WindowScores(text, words, k, Len(f), f.start, threshold, maxExtra, ratio);
    }
    if SomeWindowScores(text, words, threshold, maxExtra, ratio) {
      var k, n, i :| WindowScores(text, words, k, n, i, threshold, maxExtra, ratio);
      assert WindowFinding(text, words[k], i, n, ratio) in cands;
      assert sorted != [] by {
        assert |sorted| == |multiset(sorted)| == |multiset(cands)| == |cands|;
      }
    }
  }

  // The assembly of all findings.

  /** `any(f.label == "BANNED_WORD" for f in findings)` */
  predicate HasBanned(fs: seq<Finding>) {
    exists f :: f in fs && f.kind == BannedWord
  }

  /**
   * `detect`. The regex detectors (RRN, e-mail, phone, card and the short
   * Latin banned-word patterns) come in as `patternFindings`; the exact search
   * follows; the fuzzy search runs only when no banned-word finding exists yet.
   */
  method Detect(text: string, patternFindings: seq<Finding>, ratio: (string, string) -> real)
    returns (findings: seq<Finding>)
    ensures |patternFindings| <= |findings| && findings[..|patternFindings|] == patternFindings
    ensures forall k, i :: 0 <= k < |BannedWords| && !SkippedByExactLoop(BannedWords[k]) && OccursAt(text, BannedWords[k], i) ==>
      Finding(BannedWord, i, i + |BannedWords[k]|, 0.95) in findings
    ensures HasBanned(findings) ==> forall f :: f in findings[|patternFindings|..] ==>
      f.kind == BannedWord && f.confidence == 0.95
      && exists k :: 0 <= k < |BannedWords| && !SkippedByExactLoop(BannedWords[k])
           && f.end == f.start + |BannedWords[k]| && OccursAt(text, BannedWords[k], f.start)
    ensures !HasBanned(findings) ==> Disjoint(findings[|patternFindings|..])
    ensures !HasBanned(findings) ==> forall f :: f in findings[|patternFindings|..] ==>
      FuzzyCandidate(f, text, BannedWords, 92.0, 2, ratio) && 0 <= f.start < f.end <= |text|
    ensures !HasBanned(findings) ==> forall k, n, i :: WindowScores(text, BannedWords, k, n, i, 92.0, 2, ratio) ==>
      KeptOrOutdone(WindowFinding(text, BannedWords[k], i, n, ratio), findings[|patternFindings|..], text, BannedWords, 92.0, 2, ratio)
    ensures !HasBanned(findings) ==> (|findings| > |patternFindings| <==> SomeWindowScores(text, BannedWords, 92.0, 2, ratio))
  {
    var exact := ExactFindings(text, BannedWords);
    findings := patternFindings + exact;
    assert findings[|patternFindings|..] == exact;
    if !HasBanned(findings) {
      BannedSuffix(patternFindings, exact);
      var fuzzy := FindFuzzyBannedSpans(text, BannedWords, 92.0, 2, ratio);
      findings := findings + fuzzy;
      assert findings[|patternFindings|..] == fuzzy;
      assert !HasBanned(findings) by {
        forall f | f in findings
          ensures f.kind != BannedWord
        {
          if f in fuzzy {
            var k :| 0 <= k < |fuzzy| && fuzzy[k] == f;
          }
        }
      }
    }
  }

  /** Appending exact banned-word findings makes the list hold one exactly when something was appended or one was there. */
  lemma BannedSuffix(fs: seq<Finding>, exact: seq<Finding>)
    requires forall f :: f in exact ==> f.kind == BannedWord
    ensures HasBanned(fs + exact) <==> HasBanned(fs) || exact != []
  {
    if exact != [] {
      assert exact[0] in fs + exact;
    }
    forall f | f in fs
      ensures f in fs + exact
    {
    }
  }

  /** A finding list never mixes exact banned-word findings with fuzzy ones added by the search. */
  lemma FuzzyOnlyWithoutExact(findings: seq<Finding>, m: nat)
    requires m <= |findings|
    requires HasBanned(findings) ==> forall f :: f in findings[m..] ==> f.kind == BannedWord
    ensures forall i, j :: m <= i < |findings| && 0 <= j < |findings| && findings[i].kind == BannedWordFuzzy ==>
      findings[j].kind != BannedWord
  {
    forall i, j | m <= i < |findings| && 0 <= j < |findings| && findings[i].kind == BannedWordFuzzy
      ensures findings[j].kind != BannedWord
    {
      assert findings[i] in findings[m..];
      assert findings[j] in findings;
    }
  }
}
