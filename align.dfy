/**
 * Word/character alignment: the recognised words are joined with single
 * spaces, each word's character range is recorded, and a character span found
 * by the detector is mapped back to the first and last word it overlaps.
 */
module Align {
  import opened Wrappers

  /** `CharSpan(start, end)`, end exclusive. */
  datatype CharSpan = CharSpan(start: int, end: int)

  /** `WordSpan(w_start, w_end)`, both inclusive. */
  datatype WordSpan = WordSpan(wStart: int, wEnd: int)

  /** `" ".join(words)` */
  function JoinWords(words: seq<string>): (text: string)
  {
    if words == [] then ""
    else if |words| == 1 then words[0]
    else JoinWords(words[..|words| - 1]) + " " + words[|words| - 1]
  }

  /** Each word sits at its range of `text`. */
  predicate Placed(text: string, ranges: seq<(int, int)>, words: seq<string>) {
    |ranges| == |words| && forall i :: 0 <= i < |ranges| ==> WordAt(text, ranges, words, i)
  }

  /** Word `i` is the text of range `i`. */
  predicate WordAt(text: string, ranges: seq<(int, int)>, words: seq<string>, i: int)
    requires 0 <= i < |ranges| == |words|
  {
    0 <= ranges[i].0 <= ranges[i].1 <= |text| && text[ranges[i].0..ranges[i].1] == words[i]
  }

  /** Consecutive ranges are separated by exactly one space. */
  predicate Spaced(text: string, ranges: seq<(int, int)>) {
    forall i :: 0 <= i < |ranges| - 1 ==> SpaceAfter(text, ranges, i)
  }

  /** Range `i + 1` starts one past range `i`, and the character between them is a space. */
  predicate SpaceAfter(text: string, ranges: seq<(int, int)>, i: int)
    requires 0 <= i < |ranges| - 1
  {
    ranges[i + 1].0 == ranges[i].1 + 1 && 0 <= ranges[i].1 < |text| && text[ranges[i].1] == ' '
  }

  /** The ranges run from the start to the end of `text`. */
  predicate Spans(text: string, ranges: seq<(int, int)>) {
    |ranges| > 0 ==> ranges[0].0 == 0 && ranges[|ranges| - 1].1 == |text|
  }

  predicate Layout(text: string, ranges: seq<(int, int)>, words: seq<string>) {
    Placed(text, ranges, words) && Spaced(text, ranges) && Spans(text, ranges)
  }

  lemma PlacedExtend(text: string, ranges: seq<(int, int)>, words: seq<string>, sep: string, w: string)
    requires Placed(text, ranges, words)
    ensures Placed(text + sep + w, ranges + [(|text + sep|, |text + sep| + |w|)], words + [w])
  {
    var t := text + sep + w;
    var rs := ranges + [(|text + sep|, |text + sep| + |w|)];
    var ws := words + [w];
    forall i | 0 <= i < |rs|
      ensures WordAt(t, rs, ws, i)
    {
      if i < |ranges| {
        assert WordAt(text, ranges, words, i);
        assert rs[i] == ranges[i] && ws[i] == words[i];
        assert t[ranges[i].0..ranges[i].1] == text[ranges[i].0..ranges[i].1];
      } else {
        assert t[|text + sep|..] == w;
      }
    }
  }

  lemma SpacedExtend(text: string, ranges: seq<(int, int)>, sep: string, w: string)
    requires Spaced(text, ranges) && Spans(text, ranges)
    requires ranges != [] ==> sep == " "
    ensures Spaced(text + sep + w, ranges + [(|text + sep|, |text + sep| + |w|)])
  {
    var t := text + sep + w;
    var rs := ranges + [(|text + sep|, |text + sep| + |w|)];
    forall i | 0 <= i < |rs| - 1
      ensures SpaceAfter(t, rs, i)
    {
      assert rs[i] == ranges[i];
      if i < |ranges| - 1 {
        assert SpaceAfter(text, ranges, i);
        assert rs[i + 1] == ranges[i + 1];
        assert t[ranges[i].1] == text[ranges[i].1];
      } else {
        assert t[|text|] == ' ';
      }
    }
  }

  /** One more word laid out after the others. */
  lemma LayoutExtend(text: string, ranges: seq<(int, int)>, words: seq<string>, w: string, first: bool)
    requires Layout(text, ranges, words) && (words == [] ==> text == "")
    requires first <==> words == []
    ensures var sep := if first then "" else " ";
      Layout(text + sep + w, ranges + [(|text + sep|, |text + sep| + |w|)], words + [w])
  {
    var sep := if first then "" else " ";
    PlacedExtend(text, ranges, words, sep, w);
    SpacedExtend(text, ranges, sep, w);
  }

  /**
   * `build_text_and_word_char_ranges`: the joined text and, per word, the
   * half-open character range it occupies.
   */
  method BuildTextAndWordCharRanges(words: seq<string>) returns (text: string, ranges: seq<(int, int)>)
    ensures text == JoinWords(words)
    ensures Layout(text, ranges, words)
  {
    text := "";
    ranges := [];
    var cursor := 0;
    ghost var done: seq<string> := [];
    for i := 0 to |words|
      invariant done == words[..i]
      invariant text == JoinWords(done) && cursor == |text|
      invariant Layout(text, ranges, done)
    {
      var w := words[i];
      LayoutExtend(text, ranges, done, w, i == 0);
      JoinAppendWord(done, w);
      if i > 0 {
        text := text + " ";
        cursor := cursor + 1;
      }
      var s := cursor;
      text := text + w;
      cursor := cursor + |w|;
      var e := cursor;
      ranges := ranges + [(s, e)];
      done := done + [w];
      assert done == words[..i + 1];
    }
    assert words[..|words|] == words;
  }

  /** Joining one more word adds a space and the word, or just the word when it is the first. */
  lemma JoinAppendWord(done: seq<string>, w: string)
    ensures JoinWords(done + [w]) == JoinWords(done) + (if |done| == 0 then "" else " ") + w
  {
    var p := done + [w];
    assert p[..|p| - 1] == done && p[|p| - 1] == w;
  }

  /** `not (span.end <= s or span.start >= e)` */
  predicate Overlaps(span: CharSpan, range: (int, int)) {
    !(span.end <= range.0 || span.start >= range.1)
  }

  /** The first range at or after `i` that the span overlaps, or `|ranges|`. */
  function FirstHit(span: CharSpan, ranges: seq<(int, int)>, i: nat): (h: nat)
    requires i <= |ranges|
    ensures i <= h <= |ranges|
    ensures h < |ranges| ==> Overlaps(span, ranges[h])
    ensures forall j :: i <= j < h ==> !Overlaps(span, ranges[j])
    decreases |ranges| - i
  {
    if i == |ranges| || Overlaps(span, ranges[i]) then i else FirstHit(span, ranges, i + 1)
  }

  /** The last range before `n` that the span overlaps, or -1. */
  function LastHitBelow(span: CharSpan, ranges: seq<(int, int)>, n: nat): (h: int)
    requires n <= |ranges|
    ensures -1 <= h < n
    ensures h >= 0 ==> Overlaps(span, ranges[h])
    ensures forall j :: h < j < n ==> !Overlaps(span, ranges[j])
  {
    if n == 0 then -1 else if Overlaps(span, ranges[n - 1]) then n - 1 else LastHitBelow(span, ranges, n - 1)
  }

  /** The word span that `charspan_to_wordspan` answers. */
  function WordSpanOf(span: CharSpan, ranges: seq<(int, int)>): (r: Option<WordSpan>)
    ensures r == None <==> forall j :: 0 <= j < |ranges| ==> !Overlaps(span, ranges[j])
    ensures r.Some? ==>
      && 0 <= r.value.wStart <= r.value.wEnd < |ranges|
      && Overlaps(span, ranges[r.value.wStart]) && Overlaps(span, ranges[r.value.wEnd])
      && (forall j :: 0 <= j < r.value.wStart ==> !Overlaps(span, ranges[j]))
      && (forall j :: r.value.wEnd < j < |ranges| ==> !Overlaps(span, ranges[j]))
  {
    var first := FirstHit(span, ranges, 0);
    if first == |ranges| then None
    else
      var last := LastHitBelow(span, ranges, |ranges|);
      assert last >= first;
      Some(WordSpan(first, last))
  }

  /** `charspan_to_wordspan`: collects the overlapping indices, then takes the first and the last. */
  method CharspanToWordspan(span: CharSpan, wordRanges: seq<(int, int)>) returns (r: Option<WordSpan>)
    ensures r == WordSpanOf(span, wordRanges)
  {
    var hits: seq<nat> := [];
    for i := 0 to |wordRanges|
      invariant forall k :: 0 <= k < |hits| ==> hits[k] < i
      invariant hits == [] ==> FirstHit(span, wordRanges, 0) >= i && LastHitBelow(span, wordRanges, i) == -1
      invariant hits != [] ==>
        hits[0] == FirstHit(span, wordRanges, 0) && hits[|hits| - 1] == LastHitBelow(span, wordRanges, i)
    {
      if Overlaps(span, wordRanges[i]) {
        hits := hits + [i];
      }
    }
    if hits == [] {
      return None;
    }
    return Some(WordSpan(hits[0], hits[|hits| - 1]));
  }

  /** Ranges in reading order, as `build_text_and_word_char_ranges` produces them. */
  predicate Ordered(ranges: seq<(int, int)>) {
    forall i, j :: 0 <= i <= j < |ranges| ==> ranges[i].0 <= ranges[j].0 && ranges[i].1 <= ranges[j].1
  }

  /** Over ordered ranges the overlapping words are contiguous: every word between the first and the last overlaps. */
  lemma HitsAreContiguous(span: CharSpan, ranges: seq<(int, int)>, j: int)
    requires Ordered(ranges)
    requires WordSpanOf(span, ranges).Some?
    requires WordSpanOf(span, ranges).value.wStart <= j <= WordSpanOf(span, ranges).value.wEnd
    ensures Overlaps(span, ranges[j])
  {
    var w := WordSpanOf(span, ranges).value;
    assert ranges[w.wStart].1 <= ranges[j].1;
    assert ranges[j].0 <= ranges[w.wEnd].0;
  }

  /** The ranges built from any word list are ordered. */
  lemma BuiltRangesOrdered(text: string, ranges: seq<(int, int)>, words: seq<string>)
    requires Layout(text, ranges, words)
    ensures Ordered(ranges)
  {
    forall i | 0 <= i < |ranges| ensures ranges[i].0 <= ranges[i].1 {
      assert WordAt(text, ranges, words, i);
    }
    forall i | 0 <= i < |ranges| - 1 ensures ranges[i + 1].0 == ranges[i].1 + 1 {
      assert SpaceAfter(text, ranges, i);
    }
    forall i, j | 0 <= i <= j < |ranges|
      ensures ranges[i].0 <= ranges[j].0 && ranges[i].1 <= ranges[j].1
    {
      OrderedStep(ranges, i, j);
    }
  }

  lemma {:induction false} OrderedStep(ranges: seq<(int, int)>, i: nat, j: nat)
    requires forall i :: 0 <= i < |ranges| ==> ranges[i].0 <= ranges[i].1
    requires forall i :: 0 <= i < |ranges| - 1 ==> ranges[i + 1].0 == ranges[i].1 + 1
    requires i <= j < |ranges|
    ensures ranges[i].0 <= ranges[j].0 && ranges[i].1 <= ranges[j].1
    decreases j - i
  {
    if i < j {
      OrderedStep(ranges, i + 1, j);
    }
  }
}
