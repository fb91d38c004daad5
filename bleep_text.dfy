/**
 * The dashboard's rendering of a transcript line: every redacted word, a "삐-"
 * marker followed by a run of non-white-space characters, is shown in bold and
 * the text between such words is shown plain. Modelled as the text-to-segments
 * function that the DOM rendering follows.
 */
module BleepText {
  import opened Chars

  datatype Segment = Plain(text: string) | Strong(text: string)

  /** `/(삐-[^\s]+)/` matches starting at index `i` of `s`. */
  predicate MatchStartsAt(s: string, i: int) {
    0 <= i && i + 2 < |s| && s[i] == '삐' && s[i + 1] == '-' && !IsJsSpace(s[i + 2])
  }

  /** A whole emphasised segment: the marker and one or more non-white-space characters. */
  predicate IsBleepWord(t: string) {
    |t| >= 3 && t[0] == '삐' && t[1] == '-' && forall k :: 2 <= k < |t| ==> !IsJsSpace(t[k])
  }

  /** No match of the pattern starts within the first `m` characters of `t`. */
  predicate NoMatchBefore(t: string, m: int) {
    forall i | 0 <= i < m :: !MatchStartsAt(t, i)
  }

  /** End of the greedy `[^\s]+` run that starts at `j`. */
  function RunEnd(s: string, j: nat): (e: nat)
    requires j <= |s|
    ensures j <= e <= |s|
    ensures forall k :: j <= k < e ==> !IsJsSpace(s[k])
    ensures e == |s| || IsJsSpace(s[e])
    decreases |s| - j
  {
    if j < |s| && !IsJsSpace(s[j]) then RunEnd(s, j + 1) else j
  }

  /** Where `regex.exec` finds the next match at or after `from`; `|s|` when there is none. */
  function NextMatch(s: string, from: nat): (i: nat)
    requires from <= |s|
    ensures from <= i <= |s|
    ensures i < |s| ==> MatchStartsAt(s, i)
    ensures forall k :: from <= k < i ==> !MatchStartsAt(s, k)
    decreases |s| - from
  {
    if from == |s| then from
    else if MatchStartsAt(s, from) then from
    else NextMatch(s, from + 1)
  }

  /** The segments of `s[from..]`, `from` playing the part of `lastIdx`. */
  function SplitFrom(s: string, from: nat): seq<Segment>
    requires from <= |s|
    decreases |s| - from
  {
    var start := NextMatch(s, from);
    if start == |s| then
      if from < |s| then [Plain(s[from..])] else []
    else
      var end := RunEnd(s, start + 2);
      (if start > from then [Plain(s[from..start])] else []) + [Strong(s[start..end])] + SplitFrom(s, end)
  }

  /** `renderTextWithBleep` as a function from the text to its segments. */
  function SplitBleeps(s: string): seq<Segment> {
    SplitFrom(s, 0)
  }

  function Join(segs: seq<Segment>): string {
    if segs == [] then [] else segs[0].text + Join(segs[1..])
  }

  lemma {:induction false} JoinAppend(a: seq<Segment>, b: seq<Segment>)
    ensures Join(a + b) == Join(a) + Join(b)
    decreases |a|
  {
    if a == [] {
      assert a + b == b;
    } else {
      assert (a + b)[1..] == a[1..] + b;
      JoinAppend(a[1..], b);
    }
  }

  /** The shape every split has: non-empty plain runs in which no match starts, maximal bleep words. */
  predicate WellSplit(segs: seq<Segment>) {
    forall k {:trigger SegmentFits(segs, k)} :: 0 <= k < |segs| ==> SegmentFits(segs, k)
  }

  /** The text of the segment after segment `k`, empty for the last one. */
  function NextText(segs: seq<Segment>, k: int): string
    requires 0 <= k < |segs|
  {
    if k + 1 < |segs| then segs[k + 1].text else []
  }

  /**
   * Segment `k` is a non-empty plain run followed by a bleep word, where no
   * match starts at any of the run's characters (reading on into that word),
   * or a bleep word followed by a plain run that starts with white space.
   */
  predicate SegmentFits(segs: seq<Segment>, k: int)
    requires 0 <= k < |segs|
  {
    && (segs[k].Plain? ==> && segs[k].text != []
                           && NoMatchBefore(segs[k].text + NextText(segs, k), |segs[k].text|)
                           && (k + 1 < |segs| ==> segs[k + 1].Strong?))
    && (segs[k].Strong? ==> IsBleepWord(segs[k].text)
                            && (k + 1 < |segs| ==> segs[k + 1].Plain? && segs[k + 1].text != [] && IsJsSpace(segs[k + 1].text[0])))
  }

  /** A match inside a slice is a match in the whole text, at the shifted index, and back. */
  lemma MatchInSlice(s: string, a: nat, b: nat, i: int)
    requires a <= b <= |s| && 0 <= i && i + 2 < b - a
    ensures MatchStartsAt(s[a..b], i) <==> MatchStartsAt(s, a + i)
  {
    var t := s[a..b];
    assert t[i] == s[a + i] && t[i + 1] == s[a + i + 1] && t[i + 2] == s[a + i + 2];
  }

  lemma PlainRunHasNoMatch(s: string, from: nat, upTo: nat, to: nat)
    requires from <= upTo <= to <= |s|
    requires forall k :: from <= k < upTo ==> !MatchStartsAt(s, k)
    ensures NoMatchBefore(s[from..to], upTo - from)
  {
    var t := s[from..to];
    forall i | 0 <= i < upTo - from ensures !MatchStartsAt(t, i) {
      if i + 2 < to - from {
        MatchInSlice(s, from, to, i);
      }
    }
  }

  lemma {:induction false} SplitFromJoin(s: string, from: nat)
    requires from <= |s|
    ensures Join(SplitFrom(s, from)) == s[from..]
    decreases |s| - from
  {
    var start := NextMatch(s, from);
    var r := SplitFrom(s, from);
    if start == |s| {
      if from < |s| {
        assert Join(r) == s[from..] + Join([]);
      }
    } else {
      var end := RunEnd(s, start + 2);
      var rest := SplitFrom(s, end);
      SplitFromJoin(s, end);
      var head := if start > from then [Plain(s[from..start])] else [];
      var w := Strong(s[start..end]);
      assert r == head + [w] + rest;
      JoinThree(head, w, rest);
      assert Join(head) == s[from..start] by {
        if start > from {
          assert Join(head) == s[from..start] + Join([]);
        }
      }
      SliceThree(s, from, start, end);
    }
  }

  lemma JoinThree(head: seq<Segment>, w: Segment, rest: seq<Segment>)
    ensures Join(head + [w] + rest) == Join(head) + w.text + Join(rest)
  {
    JoinAppend(head + [w], rest);
    JoinAppend(head, [w]);
    assert Join([w]) == w.text + Join([]);
  }

  lemma SliceThree(s: string, a: nat, b: nat, c: nat)
    requires a <= b <= c <= |s|
    ensures s[a..] == s[a..b] + s[b..c] + s[c..]
  {
    assert s[a..] == s[a..b] + s[b..];
    assert s[b..] == s[b..c] + s[c..];
  }

  lemma WellSplitCompose(head: seq<Segment>, w: Segment, rest: seq<Segment>)
    requires |head| <= 1 && (head != [] ==> head[0].Plain? && head[0].text != []
                                            && NoMatchBefore(head[0].text + w.text, |head[0].text|))
    requires w.Strong? && IsBleepWord(w.text)
    requires WellSplit(rest)
    requires rest != [] ==> rest[0].Plain? && rest[0].text != [] && IsJsSpace(rest[0].text[0])
    ensures WellSplit(head + [w] + rest)
  {
    var r := head + [w] + rest;
    var h := |head|;
    forall k | 0 <= k < |r| ensures SegmentFits(r, k) {
      if k < h {
        assert r[k] == head[0] && r[k + 1] == w;
      } else if k == h {
        assert r[k] == w;
        if k + 1 < |r| {
          assert r[k + 1] == rest[0];
        }
      } else {
        assert SegmentFits(rest, k - h - 1);
        assert r[k] == rest[k - h - 1];
        if k + 1 < |r| {
          assert r[k + 1] == rest[k - h];
        }
      }
    }
  }

  lemma WellSplitSingle(t: string)
    requires t != [] && NoMatchBefore(t, |t|)
    ensures WellSplit([Plain(t)])
  {
    assert t + [] == t;
    assert SegmentFits([Plain(t)], 0);
  }

  /** A split starting at white space starts with a plain run holding that white space. */
  lemma SplitFromStartsPlain(s: string, from: nat)
    requires from < |s| && IsJsSpace(s[from])
    ensures SplitFrom(s, from) != [] && SplitFrom(s, from)[0].Plain?
    ensures SplitFrom(s, from)[0].text != [] && SplitFrom(s, from)[0].text[0] == s[from]
  {
    var start := NextMatch(s, from);
    assert !MatchStartsAt(s, from);
    if start < |s| {
      var end := RunEnd(s, start + 2);
      assert SplitFrom(s, from) == [Plain(s[from..start])] + [Strong(s[start..end])] + SplitFrom(s, end);
    }
  }

  lemma {:induction false} SplitFromShape(s: string, from: nat)
    requires from <= |s|
    ensures WellSplit(SplitFrom(s, from))
    decreases |s| - from
  {
    var start := NextMatch(s, from);
    var r := SplitFrom(s, from);
    if start == |s| {
      if from < |s| {
        PlainRunHasNoMatch(s, from, |s|, |s|);
        assert s[from..|s|] == s[from..];
        WellSplitSingle(s[from..]);
      }
    } else {
      var end := RunEnd(s, start + 2);
      var rest := SplitFrom(s, end);
      SplitFromShape(s, end);
      if end < |s| {
        SplitFromStartsPlain(s, end);
      }
      var head := if start > from then [Plain(s[from..start])] else [];
      if start > from {
        PlainRunHasNoMatch(s, from, start, end);
        assert s[from..end] == s[from..start] + s[start..end];
      }
      assert r == head + [Strong(s[start..end])] + rest;
      WellSplitCompose(head, Strong(s[start..end]), rest);
    }
  }

  /** `renderTextWithBleep` shows exactly the raw text, split into plain runs and maximal bleep words. */
  lemma SplitBleepsCorrect(s: string)
    ensures Join(SplitBleeps(s)) == s
    ensures WellSplit(SplitBleeps(s))
  {
    SplitFromJoin(s, 0);
    SplitFromShape(s, 0);
  }

  /** ... and it is the only split of that shape: any well-shaped segments that join to `s` are the rendered ones. */
  lemma SplitIsUnique(s: string, segs: seq<Segment>)
    requires Join(segs) == s && WellSplit(segs)
    ensures segs == SplitBleeps(s)
  {
    SplitBleepsCorrect(s);
    WellSplitUnique(segs, SplitBleeps(s));
  }

  /** Two well-shaped splits of the same text are the same split. */
  lemma {:induction false} WellSplitUnique(a: seq<Segment>, b: seq<Segment>)
    requires Join(a) == Join(b) && WellSplit(a) && WellSplit(b)
    ensures a == b
    decreases |a|
  {
    if a != [] && b != [] {
      SameFirst(a, b);
      WellSplitTail(a);
      WellSplitTail(b);
      WellSplitUnique(a[1..], b[1..]);
      assert a == [a[0]] + a[1..];
      assert b == [b[0]] + b[1..];
    } else if a != [] {
      HeadShape(a);
    } else if b != [] {
      HeadShape(b);
    }
  }

  /** Well-shaped splits of the same text start with the same segment, and what follows it joins to the same rest. */
  lemma SameFirst(a: seq<Segment>, b: seq<Segment>)
    requires a != [] && b != [] && Join(a) == Join(b) && WellSplit(a) && WellSplit(b)
    ensures a[0] == b[0] && Join(a[1..]) == Join(b[1..])
  {
    HeadShape(a);
    HeadShape(b);
    var u, ha, hb := Join(a), a[0].text, b[0].text;
    if a[0].Strong? && b[0].Strong? {
      BleepHeadsAgree(u, ha, hb);
      BleepHeadsAgree(u, hb, ha);
    } else if a[0].Strong? {
      BleepWordAt(u, 0, ha);
    } else if b[0].Strong? {
      BleepWordAt(u, 0, hb);
    } else {
      PlainHeadsAgree(u, ha, hb);
      PlainHeadsAgree(u, hb, ha);
    }
    assert ha == hb by {
      assert ha == u[..|ha|] && hb == u[..|hb|];
    }
    assert u == ha + Join(a[1..]) == hb + Join(b[1..]);
    assert Join(a[1..]) == u[|ha|..];
  }

  /** A bleep word at the start of the text, followed by white space or the end, is not shorter than another one there. */
  lemma BleepHeadsAgree(u: string, h: string, g: string)
    requires IsBleepWord(h) && IsBleepWord(g) && |h| <= |u| && |g| <= |u|
    requires u[..|h|] == h && u[..|g|] == g
    requires |h| < |u| ==> IsJsSpace(u[|h|])
    ensures |g| <= |h|
  {
  }

  /** A plain first run ends where the first match starts, so a second one is not longer. */
  lemma PlainHeadsAgree(u: string, h: string, g: string)
    requires |h| <= |u| && |g| <= |u|
    requires |h| < |u| ==> MatchStartsAt(u, |h|)
    requires NoMatchBefore(u, |g|)
    ensures |g| <= |h|
  {
  }

  /** What the first segment of a well-shaped split says about the text the split joins to. */
  lemma HeadShape(segs: seq<Segment>)
    requires segs != [] && WellSplit(segs)
    ensures var u, h := Join(segs), segs[0].text;
      && |h| <= |u| && u[..|h|] == h && u[|h|..] == Join(segs[1..]) && h != []
      && (segs[0].Plain? ==> NoMatchBefore(u, |h|) && (|h| < |u| ==> MatchStartsAt(u, |h|)))
      && (segs[0].Strong? ==> IsBleepWord(h) && (|h| < |u| ==> IsJsSpace(u[|h|])))
  {
    var u, h, rest := Join(segs), segs[0].text, Join(segs[1..]);
    assert u == h + rest;
    assert SegmentFits(segs, 0);
    if |segs| == 1 {
      assert rest == [] && NextText(segs, 0) == [];
      assert h + NextText(segs, 0) == u;
    } else {
      assert SegmentFits(segs, 1);
      var n := segs[1].text;
      assert rest == n + Join(segs[2..]);
      assert u[|h|] == n[0];
      if segs[0].Plain? {
        var p := h + n;
        assert u[..|p|] == p;
        BleepWordAt(u, |h|, n);
        forall i | 0 <= i < |h| ensures !MatchStartsAt(u, i) {
          MatchInPrefix(u, |p|, i);
        }
      }
    }
  }

  /** A match that starts well before the end of a prefix is a match in the prefix, and back. */
  lemma MatchInPrefix(u: string, m: nat, i: int)
    requires m <= |u| && 0 <= i && i + 2 < m
    ensures MatchStartsAt(u[..m], i) <==> MatchStartsAt(u, i)
  {
    MatchInSlice(u, 0, m, i);
    assert u[0..m] == u[..m];
  }

  lemma WellSplitTail(segs: seq<Segment>)
    requires segs != [] && WellSplit(segs)
    ensures WellSplit(segs[1..])
  {
    var tail := segs[1..];
    forall k | 0 <= k < |tail| ensures SegmentFits(tail, k) {
      assert SegmentFits(segs, k + 1);
      assert segs[k + 1] == tail[k];
      if k + 1 < |tail| {
        assert segs[k + 2] == tail[k + 1];
      }
    }
  }

  /** A bleep word sitting at `start` is a match there. */
  lemma BleepWordAt(s: string, start: nat, b: string)
    requires start + |b| <= |s| && s[start..start + |b|] == b && IsBleepWord(b)
    ensures MatchStartsAt(s, start)
  {
    assert s[start] == b[0] && s[start + 1] == b[1] && s[start + 2] == b[2];
  }
}
