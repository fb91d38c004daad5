/**
 * The bookkeeping of the meeting socket handler: merging bleep regions within
 * a chunk, the fixed holdback of K chunks before anything is sent, and the
 * "bleep until" sample index that carries a bleep over chunk boundaries.
 */
module Meeting {
  import opened Wrappers
  import opened Sorting
  import opened Numbers

  /** A region `(t0, t1)` in seconds from the start of a chunk. */
  type Region = (real, real)

  /** `inner` lies within `outer`. */
  predicate Covers(outer: Region, inner: Region) {
    outer.0 <= inner.0 && inner.1 <= outer.1
  }

  /** `key=lambda x: x[0]` */
  function StartLe(a: Region, b: Region): bool {
    a.0 <= b.0
  }

  lemma StartLeIsPreorder()
    ensures TotalPreorder(StartLe)
  {
  }

  /** Merged regions in order, each starting more than `gap` after the previous one ends. */
  predicate Separated(out: seq<Region>, gap: real) {
    forall k :: 0 <= k < |out| - 1 ==> out[k].0 <= out[k + 1].0 && out[k + 1].0 > out[k].1 + gap
  }

  /** Region `r` lies within some merged region. */
  predicate CoveredBy(out: seq<Region>, r: Region) {
    exists k :: 0 <= k < |out| && Covers(out[k], r)
  }

  /** Every input region lies within some merged region. */
  predicate CoversAll(out: seq<Region>, regions: seq<Region>) {
    forall j {:trigger CoveredBy(out, regions[j])} :: 0 <= j < |regions| ==> CoveredBy(out, regions[j])
  }

  /**
   * Point `t` is bridged inside merged region `o`: some input region that `o`
   * covers starts at or before `t` and ends no more than `gap` before it.
   */
  predicate Bridged(o: Region, regions: seq<Region>, gap: real, t: real) {
    exists j :: 0 <= j < |regions| && Covers(o, regions[j]) && regions[j].0 <= t <= regions[j].1 + gap
  }

  /**
   * No merged region spans a hole wider than `gap`: every point from its start
   * to `gap` past its end is bridged by an input region it covers.
   */
  ghost predicate NoWideGaps(out: seq<Region>, regions: seq<Region>, gap: real) {
    forall k, t :: 0 <= k < |out| && out[k].0 <= t <= out[k].1 + gap ==> Bridged(out[k], regions, gap, t)
  }

  /** Every merged start and end is the start or end of some input region. */
  predicate FromInput(out: seq<Region>, regions: seq<Region>) {
    forall k :: 0 <= k < |out| ==> IsStartIn(out[k].0, regions) && IsEndIn(out[k].1, regions)
  }

  /** `t` is the start of one of `regions`. */
  predicate IsStartIn(t: real, regions: seq<Region>) {
    exists j :: 0 <= j < |regions| && t == regions[j].0
  }

  /** `t` is the end of one of `regions`. */
  predicate IsEndIn(t: real, regions: seq<Region>) {
    exists j :: 0 <= j < |regions| && t == regions[j].1
  }

  // Loop bookkeeping: which merged region covers each input seen so far, and
  // which input each merged start and end came from.

  ghost predicate Grouped(out: seq<Region>, rs: seq<Region>, group: seq<nat>) {
    |group| <= |rs| && forall j :: 0 <= j < |group| ==> group[j] < |out| && Covers(out[group[j]], rs[j])
  }

  ghost predicate Sourced(out: seq<Region>, rs: seq<Region>, startSrc: seq<nat>, endSrc: seq<nat>) {
    && |startSrc| == |out| && |endSrc| == |out|
    && (forall k :: 0 <= k < |out| ==> startSrc[k] < |rs| && out[k].0 == rs[startSrc[k]].0)
    && (forall k :: 0 <= k < |out| ==> endSrc[k] < |rs| && out[k].1 == rs[endSrc[k]].1)
  }

  lemma GroupedExtendLast(out: seq<Region>, rs: seq<Region>, group: seq<nat>, end: real)
    requires out != [] && |group| < |rs| && Grouped(out, rs, group)
    requires out[|out| - 1].0 <= rs[|group|].0 && out[|out| - 1].1 <= end && rs[|group|].1 <= end
    ensures Grouped(out[..|out| - 1] + [(out[|out| - 1].0, end)], rs, group + [|out| - 1])
  {
    var out' := out[..|out| - 1] + [(out[|out| - 1].0, end)];
    var g' := group + [|out| - 1];
    forall j | 0 <= j < |g'|
      ensures g'[j] < |out'| && Covers(out'[g'[j]], rs[j])
    {
      if j < |group| {
        assert Covers(out[group[j]], rs[j]);
      }
    }
  }

  lemma SourcedExtendLast(out: seq<Region>, rs: seq<Region>, startSrc: seq<nat>, endSrc: seq<nat>,
                          end: real, endSrc': seq<nat>)
    requires out != [] && Sourced(out, rs, startSrc, endSrc)
    requires |endSrc'| == |out| && endSrc'[..|out| - 1] == endSrc[..|out| - 1]
    requires endSrc'[|out| - 1] < |rs| && end == rs[endSrc'[|out| - 1]].1
    ensures Sourced(out[..|out| - 1] + [(out[|out| - 1].0, end)], rs, startSrc, endSrc')
  {
    var out' := out[..|out| - 1] + [(out[|out| - 1].0, end)];
    forall k | 0 <= k < |out'|
      ensures endSrc'[k] < |rs| && out'[k].1 == rs[endSrc'[k]].1
    {
      if k < |out| - 1 {
        assert endSrc'[k] == endSrc[..|out| - 1][k];
      }
    }
  }

  lemma SeparatedExtendLast(out: seq<Region>, gap: real, end: real)
    requires out != [] && Separated(out, gap) && out[|out| - 1].1 <= end
    ensures Separated(out[..|out| - 1] + [(out[|out| - 1].0, end)], gap)
  {
    var out' := out[..|out| - 1] + [(out[|out| - 1].0, end)];
    forall k | 0 <= k < |out'| - 1
      ensures out'[k].0 <= out'[k + 1].0 && out'[k + 1].0 > out'[k].1 + gap
    {
      assert out'[k] == out[k];
      assert out'[k + 1].0 == out[k + 1].0;
    }
  }

  lemma ExtendLast(out: seq<Region>, rs: seq<Region>, group: seq<nat>, startSrc: seq<nat>, endSrc: seq<nat>,
                   gap: real, i: nat, end: real, endSrc': seq<nat>)
    requires out != [] && i == |group| < |rs|
    requires Grouped(out, rs, group) && Sourced(out, rs, startSrc, endSrc) && Separated(out, gap)
    requires NoWideGaps(out, rs, gap)
    requires out[|out| - 1].0 <= rs[i].0 <= out[|out| - 1].1 + gap
    requires end == if out[|out| - 1].1 >= rs[i].1 then out[|out| - 1].1 else rs[i].1
    requires endSrc' == if out[|out| - 1].1 >= rs[i].1 then endSrc else endSrc[..|out| - 1] + [i]
    ensures var out' := out[..|out| - 1] + [(out[|out| - 1].0, end)];
      && Grouped(out', rs, group + [|out| - 1]) && Sourced(out', rs, startSrc, endSrc')
      && Separated(out', gap) && NoWideGaps(out', rs, gap)
  {
    GroupedExtendLast(out, rs, group, end);
    SourcedExtendLast(out, rs, startSrc, endSrc, end, endSrc');
    SeparatedExtendLast(out, gap, end);
    NoWideGapsExtendLast(out, rs, gap, i, end);
  }

  lemma AppendNew(out: seq<Region>, rs: seq<Region>, group: seq<nat>, startSrc: seq<nat>, endSrc: seq<nat>, gap: real)
    requires out != [] && |group| < |rs|
    requires Grouped(out, rs, group) && Sourced(out, rs, startSrc, endSrc) && Separated(out, gap)
    requires out[|out| - 1].0 <= rs[|group|].0 && rs[|group|].0 > out[|out| - 1].1 + gap
    ensures Grouped(out + [rs[|group|]], rs, group + [|out|])
    ensures Sourced(out + [rs[|group|]], rs, startSrc + [|group|], endSrc + [|group|])
    ensures Separated(out + [rs[|group|]], gap)
  {
    GroupedAppend(out, rs, group);
    SourcedAppend(out, rs, startSrc, endSrc, |group|);
    SeparatedAppend(out, gap, rs[|group|]);
  }

  lemma GroupedAppend(out: seq<Region>, rs: seq<Region>, group: seq<nat>)
    requires |group| < |rs| && Grouped(out, rs, group)
    ensures Grouped(out + [rs[|group|]], rs, group + [|out|])
  {
    var out' := out + [rs[|group|]];
    var g' := group + [|out|];
    forall j | 0 <= j < |g'|
      ensures g'[j] < |out'| && Covers(out'[g'[j]], rs[j])
    {
      if j < |group| {
        assert Covers(out[group[j]], rs[j]);
        assert out'[g'[j]] == out[group[j]];
      }
    }
  }

  lemma SourcedAppend(out: seq<Region>, rs: seq<Region>, startSrc: seq<nat>, endSrc: seq<nat>, j: nat)
    requires j < |rs| && Sourced(out, rs, startSrc, endSrc)
    ensures Sourced(out + [rs[j]], rs, startSrc + [j], endSrc + [j])
  {
    var out' := out + [rs[j]];
    forall k | 0 <= k < |out'|
      ensures (startSrc + [j])[k] < |rs| && out'[k].0 == rs[(startSrc + [j])[k]].0
      ensures (endSrc + [j])[k] < |rs| && out'[k].1 == rs[(endSrc + [j])[k]].1
    {
      if k < |out| {
        assert out'[k] == out[k] && (startSrc + [j])[k] == startSrc[k] && (endSrc + [j])[k] == endSrc[k];
      }
    }
  }

  lemma SeparatedAppend(out: seq<Region>, gap: real, r: Region)
    requires out != [] && Separated(out, gap)
    requires out[|out| - 1].0 <= r.0 && r.0 > out[|out| - 1].1 + gap
    ensures Separated(out + [r], gap)
  {
    var out' := out + [r];
    forall k | 0 <= k < |out'| - 1
      ensures out'[k].0 <= out'[k + 1].0 && out'[k + 1].0 > out'[k].1 + gap
    {
      assert out'[k] == out[k];
      if k + 1 < |out| {
        assert out'[k + 1] == out[k + 1];
      }
    }
  }

  /** Starts in non-decreasing order, as `sorted(regions, key=lambda x: x[0])` leaves them. */
  predicate StartsSorted(rs: seq<Region>) {
    forall i :: 0 < i < |rs| ==> rs[i - 1].0 <= rs[i].0
  }

  /**
   * `merge_regions(regions, gap)`: regions sorted by start; each one that
   * begins within `gap` of the previous merged end extends it, any other
   * starts a new merged region.
   */
  method MergeRegions(regions: seq<Region>, gap: real) returns (out: seq<Region>)
    ensures regions == [] <==> out == []
    ensures |out| <= |regions|
    ensures Separated(out, gap)
    ensures CoversAll(out, regions)
    ensures FromInput(out, regions)
    ensures NoWideGaps(out, regions, gap)
  {
    if regions == [] {
      return [];
    }
    StartLeIsPreorder();
    var rs := SortBy(regions, StartLe);
    assert |rs| == |regions| by { assert |multiset(rs)| == |multiset(regions)|; }
    assert StartsSorted(rs) by {
      forall i | 0 < i < |rs| ensures rs[i - 1].0 <= rs[i].0 {
        assert StartLe(rs[i - 1], rs[i]);
      }
    }
    ghost var group, startSrc, endSrc;
    out, group, startSrc, endSrc := MergeSorted(rs, gap);
    CoversBack(regions, rs, out, group);
    SourcedBack(regions, rs, out, startSrc, endSrc);
    BridgedBack(regions, rs, out, gap);
  }

  /** The loop of `merge_regions` over the sorted regions, which rewrites the last merged region in place. */
  method MergeSorted(rs: seq<Region>, gap: real) returns (out: seq<Region>, ghost group: seq<nat>,
                                                          ghost startSrc: seq<nat>, ghost endSrc: seq<nat>)
    requires rs != [] && StartsSorted(rs)
    ensures 1 <= |out| <= |rs| && |group| == |rs|
    ensures Grouped(out, rs, group) && Sourced(out, rs, startSrc, endSrc) && Separated(out, gap)
    ensures NoWideGaps(out, rs, gap)
  {
    out := [rs[0]];
    NoWideGapsAppend([], rs, gap, 0);
    assert [] + [rs[0]] == out;
    group := [0];
    startSrc := [0];
    endSrc := [0];
    var i := 1;
    while i < |rs|
      invariant 1 <= i <= |rs| && 1 <= |out| <= i && |group| == i
      invariant Grouped(out, rs, group) && Sourced(out, rs, startSrc, endSrc) && Separated(out, gap)
      invariant out[|out| - 1].0 <= rs[i - 1].0
      invariant NoWideGaps(out, rs, gap)
    {
      out, group, startSrc, endSrc := MergeOne(rs, i, gap, out, group, startSrc, endSrc);
      i := i + 1;
    }
  }

  /** One iteration: `rs[i]` extends the last merged region or starts a new one. */
  method MergeOne(rs: seq<Region>, i: nat, gap: real, out: seq<Region>, ghost group: seq<nat>,
                  ghost startSrc: seq<nat>, ghost endSrc: seq<nat>)
    returns (out': seq<Region>, ghost group': seq<nat>, ghost startSrc': seq<nat>, ghost endSrc': seq<nat>)
    requires 1 <= i < |rs| && StartsSorted(rs) && 1 <= |out| <= i && |group| == i
    requires Grouped(out, rs, group) && Sourced(out, rs, startSrc, endSrc) && Separated(out, gap)
    requires out[|out| - 1].0 <= rs[i - 1].0
    requires NoWideGaps(out, rs, gap)
    ensures 1 <= |out'| <= i + 1 && |group'| == i + 1
    ensures Grouped(out', rs, group') && Sourced(out', rs, startSrc', endSrc') && Separated(out', gap)
    ensures out'[|out'| - 1].0 <= rs[i].0
    ensures NoWideGaps(out', rs, gap)
  {
    var s := rs[i].0;
    var e := rs[i].1;
    var ps := out[|out| - 1].0;
    var pe := out[|out| - 1].1;
    if s <= pe + gap {
      var end := if pe >= e then pe else e;
      endSrc' := if pe >= e then endSrc else endSrc[..|out| - 1] + [i];
      ExtendLast(out, rs, group, startSrc, endSrc, gap, i, end, endSrc');
      out' := out[..|out| - 1] + [(ps, end)];
      group' := group + [|out| - 1];
      startSrc' := startSrc;
    } else {
      AppendNew(out, rs, group, startSrc, endSrc, gap);
      NoWideGapsAppend(out, rs, gap, |group|);
      out' := out + [(s, e)];
      group' := group + [|out|];
      startSrc' := startSrc + [i];
      endSrc' := endSrc + [i];
    }
  }

  /** Extending the last merged region to `end` leaves no wide hole: the new stretch is bridged by `rs[i]`. */
  lemma NoWideGapsExtendLast(out: seq<Region>, rs: seq<Region>, gap: real, i: nat, end: real)
    requires out != [] && i < |rs| && NoWideGaps(out, rs, gap)
    requires out[|out| - 1].0 <= rs[i].0 <= out[|out| - 1].1 + gap
    requires end == if out[|out| - 1].1 >= rs[i].1 then out[|out| - 1].1 else rs[i].1
    ensures NoWideGaps(out[..|out| - 1] + [(out[|out| - 1].0, end)], rs, gap)
  {
    var last := out[|out| - 1];
    var out' := out[..|out| - 1] + [(last.0, end)];
    forall k, t | 0 <= k < |out'| && out'[k].0 <= t <= out'[k].1 + gap
      ensures Bridged(out'[k], rs, gap, t)
    {
      if k < |out| - 1 {
        assert out'[k] == out[k];
        assert Bridged(out[k], rs, gap, t);
      } else if t <= last.1 + gap {
        assert Bridged(last, rs, gap, t);
        var j :| 0 <= j < |rs| && Covers(last, rs[j]) && rs[j].0 <= t <= rs[j].1 + gap;
        assert Covers(out'[k], rs[j]);
      } else {
        assert Covers(out'[k], rs[i]);
      }
    }
  }

  /** A new merged region made of `rs[i]` alone is bridged by `rs[i]` itself. */
  lemma NoWideGapsAppend(out: seq<Region>, rs: seq<Region>, gap: real, i: nat)
    requires i < |rs| && NoWideGaps(out, rs, gap)
    ensures NoWideGaps(out + [rs[i]], rs, gap)
  {
    var out' := out + [rs[i]];
    forall k, t | 0 <= k < |out'| && out'[k].0 <= t <= out'[k].1 + gap
      ensures Bridged(out'[k], rs, gap, t)
    {
      if k < |out| {
        assert out'[k] == out[k];
        assert Bridged(out[k], rs, gap, t);
      } else {
        assert Covers(out'[k], rs[i]);
      }
    }
  }

  lemma BridgedBack(regions: seq<Region>, rs: seq<Region>, out: seq<Region>, gap: real)
    requires multiset(rs) == multiset(regions)
    requires NoWideGaps(out, rs, gap)
    ensures NoWideGaps(out, regions, gap)
  {
    forall k, t | 0 <= k < |out| && out[k].0 <= t <= out[k].1 + gap
      ensures Bridged(out[k], regions, gap, t)
    {
      assert Bridged(out[k], rs, gap, t);
      var j :| 0 <= j < |rs| && Covers(out[k], rs[j]) && rs[j].0 <= t <= rs[j].1 + gap;
      assert rs[j] in multiset(regions);
      var a :| 0 <= a < |regions| && regions[a] == rs[j];
    }
  }

  lemma CoversBack(regions: seq<Region>, rs: seq<Region>, out: seq<Region>, group: seq<nat>)
    requires multiset(rs) == multiset(regions)
    requires Grouped(out, rs, group) && |group| == |rs|
    ensures CoversAll(out, regions)
  {
    forall j | 0 <= j < |regions|
      ensures CoveredBy(out, regions[j])
    {
      assert regions[j] in multiset(rs);
      var m :| 0 <= m < |rs| && rs[m] == regions[j];
      assert group[m] < |out| && Covers(out[group[m]], rs[m]);
      assert 0 <= group[m] < |out| && Covers(out[group[m]], regions[j]);
    }
  }

  lemma SourcedBack(regions: seq<Region>, rs: seq<Region>, out: seq<Region>, startSrc: seq<nat>, endSrc: seq<nat>)
    requires multiset(rs) == multiset(regions)
    requires Sourced(out, rs, startSrc, endSrc)
    ensures FromInput(out, regions)
  {
    forall k | 0 <= k < |out|
      ensures IsStartIn(out[k].0, regions)
    {
      assert rs[startSrc[k]] in multiset(regions);
      var a :| 0 <= a < |regions| && regions[a] == rs[startSrc[k]];
      assert out[k].0 == regions[a].0;
    }
    forall k | 0 <= k < |out|
      ensures IsEndIn(out[k].1, regions)
    {
      assert rs[endSrc[k]] in multiset(regions);
      var b :| 0 <= b < |regions| && regions[b] == rs[endSrc[k]];
      assert out[k].1 == regions[b].1;
    }
  }

  // The holdback.

  /** `math.ceil(a / b)` for a non-zero divisor. */
  function CeilDiv(a: int, b: int): (q: int)
    requires b != 0
    ensures b > 0 ==> (q - 1) * b < a <= q * b
    ensures b < 0 ==> q * b <= a < (q - 1) * b
  {
    if b > 0 then
      var d := (-a) / b;
      assert (-a) == d * b + (-a) % b;
      -d
    else
      var d := a / (-b);
      assert a == d * (-b) + a % (-b);
      -d
  }

  /**
   * `K = max(1, math.ceil(holdback_ms / CHUNK_MS))`, or None where Python
   * raises for a zero chunk length.
   */
  function HoldbackChunks(holdbackMs: int, chunkMs: int): (k: Option<int>)
    ensures k == None <==> chunkMs == 0
    ensures k.Some? ==> k.value >= 1
    ensures chunkMs > 0 && k.Some? ==> k.value * chunkMs >= holdbackMs
    ensures chunkMs > 0 && k.Some? ==> k.value == 1 || (k.value - 1) * chunkMs < holdbackMs
  {
    if chunkMs == 0 then None
    else
      var c := CeilDiv(holdbackMs, chunkMs);
      Some(if c < 1 then 1 else c)
  }

  /** K is the fewest whole chunks that span the holdback (and at least one). */
  lemma HoldbackIsFewestChunks(holdbackMs: int, chunkMs: int, n: int)
    requires chunkMs > 0 && n >= 1 && n * chunkMs >= holdbackMs
    ensures HoldbackChunks(holdbackMs, chunkMs).value <= n
  {
    var k := HoldbackChunks(holdbackMs, chunkMs).value;
    if k > 1 {
      CancelFactor(k - 1, n, chunkMs);
    }
  }

  lemma CancelFactor(a: int, b: int, c: int)
    requires c > 0 && a * c < b * c
    ensures a < b
  {
    if a >= b {
      MulMonotone(b, a, c);
    }
  }

  lemma MulMonotone(a: int, b: int, c: int)
    requires c > 0 && a <= b
    ensures a * c <= b * c
  {
    assert b * c - a * c == (b - a) * c;
  }

  /** The default settings (2000 ms holdback, 1000 ms chunks) hold back two chunks. */
  lemma DefaultHoldback()
    ensures HoldbackChunks(2000, 1000) == Some(2)
  {
    assert CeilDiv(2000, 1000) == 2;
  }

  /**
   * `emit_q`: every chunk goes in at the tail; once more than K are held, the
   * oldest comes out.
   */
  class EmitQueue<T> {
    const k: int
    var q: seq<T>
    /** All chunks offered, and all chunks emitted, so far. */
    ghost var offered: seq<T>
    ghost var emitted: seq<T>

    /** Emission is first in, first out, and the queue holds the last min(offered, K) chunks. */
    ghost predicate Valid()
      reads this
    {
      && k >= 1
      && offered == emitted + q
      && |q| == if |offered| < k then |offered| else k
    }

    constructor (k: int)
      requires k >= 1
      ensures Valid() && this.k == k && q == [] && offered == []
    {
      this.k := k;
      q := [];
      offered := [];
      emitted := [];
    }

    /** `emit_q.append(...)`, then `emit_q.popleft()` unless `len(emit_q) <= K`. */
    method Offer(chunk: T) returns (out: Option<T>)
      requires Valid()
      modifies this
      ensures Valid()
      ensures offered == old(offered) + [chunk]
      ensures out.Some? <==> |offered| > k
      ensures out.None? ==> q == old(q) + [chunk] && emitted == old(emitted)
      ensures out.Some? ==> out.value == (old(q) + [chunk])[0] && q == old(q)[1..] + [chunk]
      ensures out.Some? ==> emitted == old(emitted) + [out.value] && out.value == offered[|emitted| - 1]
    {
      q := q + [chunk];
      offered := offered + [chunk];
      if |q| <= k {
        return None;
      }
      out := Some(q[0]);
      emitted := emitted + [q[0]];
      q := q[1..];
    }
  }

  // The bleep hold.

  /** `min(s for s, _ in regions)` */
  function MinStart(rs: seq<Region>): (m: real)
    requires rs != []
    ensures forall k :: 0 <= k < |rs| ==> m <= rs[k].0
    ensures IsStartIn(m, rs)
  {
    if |rs| == 1 then rs[0].0
    else
      var m := MinStart(rs[1..]);
      assert forall k :: 1 <= k < |rs| ==> rs[k] == rs[1..][k - 1];
      if rs[0].0 <= m then rs[0].0 else m
  }

  /** `max(e for _, e in regions)` */
  function MaxEnd(rs: seq<Region>): (m: real)
    requires rs != []
    ensures forall k :: 0 <= k < |rs| ==> rs[k].1 <= m
    ensures IsEndIn(m, rs)
  {
    if |rs| == 1 then rs[0].1
    else
      var m := MaxEnd(rs[1..]);
      assert forall k :: 1 <= k < |rs| ==> rs[k] == rs[1..][k - 1];
      if rs[0].1 >= m then rs[0].1 else m
  }

  /** Merging keeps the earliest start and the latest end. */
  lemma MergeKeepsExtremes(regions: seq<Region>, out: seq<Region>)
    requires regions != [] && out != []
    requires CoversAll(out, regions) && FromInput(out, regions)
    ensures MinStart(out) == MinStart(regions) && MaxEnd(out) == MaxEnd(regions)
  {
    MergeKeepsMin(regions, out);
    MergeKeepsMax(regions, out);
  }

  lemma MergeKeepsMin(regions: seq<Region>, out: seq<Region>)
    requires regions != [] && out != []
    requires CoversAll(out, regions) && FromInput(out, regions)
    ensures MinStart(out) == MinStart(regions)
  {
    var a :| 0 <= a < |regions| && MinStart(regions) == regions[a].0;
    assert CoveredBy(out, regions[a]);
    var ka :| 0 <= ka < |out| && Covers(out[ka], regions[a]);
    assert MinStart(out) <= out[ka].0;
    var sa :| 0 <= sa < |out| && MinStart(out) == out[sa].0;
    assert IsStartIn(out[sa].0, regions);
    var ja :| 0 <= ja < |regions| && out[sa].0 == regions[ja].0;
    assert MinStart(regions) <= regions[ja].0;
  }

  lemma MergeKeepsMax(regions: seq<Region>, out: seq<Region>)
    requires regions != [] && out != []
    requires CoversAll(out, regions) && FromInput(out, regions)
    ensures MaxEnd(out) == MaxEnd(regions)
  {
    var b :| 0 <= b < |regions| && MaxEnd(regions) == regions[b].1;
    assert CoveredBy(out, regions[b]);
    var kb :| 0 <= kb < |out| && Covers(out[kb], regions[b]);
    assert out[kb].1 <= MaxEnd(out);
    var sb :| 0 <= sb < |out| && MaxEnd(out) == out[sb].1;
    assert IsEndIn(out[sb].1, regions);
    var jb :| 0 <= jb < |regions| && out[sb].1 == regions[jb].1;
    assert regions[jb].1 <= MaxEnd(regions);
  }

  /** `BLEEP_TAIL_MS` */
  const BleepTailMs := 200

  /** `min(emit_len_samples, bleep_until_abs_sample - chunk_start_sample)` */
  function CarryEnd(emitLen: nat, bleepUntil: int, chunkStart: int): (c: int)
    requires bleepUntil > chunkStart
    ensures 0 <= c <= emitLen && c <= bleepUntil - chunkStart
    ensures c == emitLen || c == bleepUntil - chunkStart
  {
    if emitLen < bleepUntil - chunkStart then emitLen else bleepUntil - chunkStart
  }

  /**
   * The per-connection sample counters of `handle_meeting_ws`: how many
   * samples have been sent, and up to which absolute sample a bleep is held.
   */
  class BleepHold {
    const sampleRate: nat
    var emittedSamples: int
    var bleepUntil: int

    constructor (sampleRate: nat)
      ensures this.sampleRate == sampleRate && emittedSamples == 0 && bleepUntil == 0
    {
      this.sampleRate := sampleRate;
      emittedSamples := 0;
      bleepUntil := 0;
    }

    /** The warm-up path: the chunk is sent unmasked and only the sample count moves. */
    method Warmup(emitLen: nat)
      modifies this
      ensures emittedSamples == old(emittedSamples) + emitLen && bleepUntil == old(bleepUntil)
    {
      emittedSamples := emittedSamples + emitLen;
    }

    /**
     * Steps (A) to (C) for one emitted chunk of `emitLen` samples whose
     * detections map to `found` (seconds within the chunk): extend the hold,
     * add the carried-in bleep, merge, and collapse to a single region.
     */
    method Step(emitLen: nat, found: seq<Region>) returns (regions: seq<Region>, chunkStart: int)
      requires sampleRate > 0
      modifies this
      ensures chunkStart == old(emittedSamples) && emittedSamples == old(emittedSamples) + emitLen
      ensures bleepUntil == (if found != [] && HoldEnd(chunkStart, MaxEnd(found)) > old(bleepUntil)
                             then HoldEnd(chunkStart, MaxEnd(found)) else old(bleepUntil))
      ensures bleepUntil >= old(bleepUntil)
      ensures |regions| <= 1
      ensures regions == [] <==> found == [] && bleepUntil <= chunkStart
      ensures regions != [] ==> forall j :: 0 <= j < |found| ==> Covers(regions[0], found[j])
      ensures regions != [] && bleepUntil > chunkStart ==>
        Covers(regions[0], (0.0, CarryEnd(emitLen, bleepUntil, chunkStart) as real / sampleRate as real))
      ensures regions != [] ==> IsStartIn(regions[0].0, found) || (bleepUntil > chunkStart && regions[0].0 == 0.0)
      ensures regions == Span(found + if bleepUntil > chunkStart
                                      then [(0.0, CarryEnd(emitLen, bleepUntil, chunkStart) as real / sampleRate as real)]
                                      else [])
    {
      chunkStart := emittedSamples;
      var merged := MergeRegions(found, 0.25);
      ExtendHold(chunkStart, found, merged);
      var carry := None;
      if bleepUntil > chunkStart {
        var carryEnd := CarryEnd(emitLen, bleepUntil, chunkStart);
        carry := Some((0.0, carryEnd as real / sampleRate as real));
      }
      regions := CollapseWithCarry(found, merged, carry);
      emittedSamples := emittedSamples + emitLen;
    }

    /** Step (A): the hold is raised to the end of the latest merged region plus the tail, when that is later. */
    method ExtendHold(chunkStart: int, found: seq<Region>, merged: seq<Region>)
      requires merged == [] <==> found == []
      requires CoversAll(merged, found) && FromInput(merged, found)
      modifies this
      ensures emittedSamples == old(emittedSamples)
      ensures bleepUntil == (if found != [] && HoldEnd(chunkStart, MaxEnd(found)) > old(bleepUntil)
                             then HoldEnd(chunkStart, MaxEnd(found)) else old(bleepUntil))
    {
      if merged != [] {
        MergeKeepsExtremes(found, merged);
        assert MaxEnd(merged) == MaxEnd(found);
        var endAbs := HoldEnd(chunkStart, MaxEnd(merged));
        if endAbs > bleepUntil {
          bleepUntil := endAbs;
        }
      }
    }

    /** `chunk_start_sample + int(max_t1 * SAMPLE_RATE) + int((BLEEP_TAIL_MS / 1000.0) * SAMPLE_RATE)` */
    function HoldEnd(chunkStart: int, maxT1: real): int
      reads this
    {
      chunkStart + Trunc(maxT1 * sampleRate as real) + Trunc((BleepTailMs as real / 1000.0) * sampleRate as real)
    }
  }

  /** The single region from the earliest start to the latest end of `rs`; none for no regions. */
  function Span(rs: seq<Region>): (r: seq<Region>)
    ensures |r| <= 1 && (r == [] <==> rs == [])
    ensures r != [] ==> forall j :: 0 <= j < |rs| ==> Covers(r[0], rs[j])
    ensures r != [] ==> IsStartIn(r[0].0, rs) && IsEndIn(r[0].1, rs)
  {
    if rs == [] then [] else [(MinStart(rs), MaxEnd(rs))]
  }

  function CarryList(carry: Option<Region>): seq<Region> {
    if carry.Some? then [carry.value] else []
  }

  /** Adding the same regions to both sides keeps a merge's covering and sourcing. */
  lemma MergedPlusExtra(merged: seq<Region>, found: seq<Region>, extra: seq<Region>)
    requires CoversAll(merged, found) && FromInput(merged, found)
    ensures CoversAll(merged + extra, found + extra) && FromInput(merged + extra, found + extra)
  {
    var m' := merged + extra;
    var f' := found + extra;
    forall j | 0 <= j < |f'| ensures CoveredBy(m', f'[j]) {
      if j < |found| {
        assert CoveredBy(merged, found[j]);
        var k :| 0 <= k < |merged| && Covers(merged[k], found[j]);
        assert m'[k] == merged[k] && f'[j] == found[j];
      } else {
        assert m'[|merged| + j - |found|] == f'[j];
      }
    }
    forall k | 0 <= k < |m'| ensures IsStartIn(m'[k].0, f') && IsEndIn(m'[k].1, f') {
      if k < |merged| {
        assert m'[k] == merged[k];
        assert IsStartIn(merged[k].0, found) && IsEndIn(merged[k].1, found);
        var a :| 0 <= a < |found| && merged[k].0 == found[a].0;
        var b :| 0 <= b < |found| && merged[k].1 == found[b].1;
        assert f'[a] == found[a] && f'[b] == found[b];
      } else {
        assert m'[k] == f'[|found| + k - |merged|];
      }
    }
  }

  /**
   * Steps (B) and (C): the carried-in span, when there is one, joins the merged
   * regions, which are merged again and collapsed to the single span from the
   * earliest start to the latest end. The result is the span of the detected
   * regions and the carry together.
   */
  method CollapseWithCarry(found: seq<Region>, merged: seq<Region>, carry: Option<Region>) returns (regions: seq<Region>)
    requires merged == [] <==> found == []
    requires CoversAll(merged, found) && FromInput(merged, found)
    ensures regions == Span(found + CarryList(carry))
    ensures |regions| <= 1
    ensures regions == [] <==> found == [] && carry.None?
    ensures regions != [] ==> forall j :: 0 <= j < |found| ==> Covers(regions[0], found[j])
    ensures regions != [] && carry.Some? ==> Covers(regions[0], carry.value)
    ensures regions != [] ==> IsStartIn(regions[0].0, found) || (carry.Some? && regions[0].0 == carry.value.0)
  {
    var all := merged;
    if carry.Some? {
      all := merged + [carry.value];
    }
    assert all == merged + CarryList(carry);
    assert all[..|merged|] == merged;
    var final := MergeRegions(all, 0.25);
    if final == [] {
      assert found + CarryList(carry) == [];
      return [];
    }
    MergeKeepsExtremes(all, final);
    regions := [(MinStart(final), MaxEnd(final))];
    MergedPlusExtra(merged, found, CarryList(carry));
    MergeKeepsExtremes(found + CarryList(carry), all);
    CollapseCovers(found, merged, all, regions[0]);
    if carry.Some? {
      assert Covers(regions[0], all[|all| - 1]);
    }
    StartOrigin(found, merged, all, carry);
  }

  /** The earliest start of the merged regions plus the carry is a found start or the carry's start. */
  lemma StartOrigin(found: seq<Region>, merged: seq<Region>, all: seq<Region>, carry: Option<Region>)
    requires all != [] && FromInput(merged, found)
    requires all == if carry.Some? then merged + [carry.value] else merged
    ensures IsStartIn(MinStart(all), found) || (carry.Some? && MinStart(all) == carry.value.0)
  {
    var a :| 0 <= a < |all| && MinStart(all) == all[a].0;
    if a < |merged| {
      assert all[a] == merged[a];
      assert IsStartIn(merged[a].0, found);
    }
  }

  /** The collapsed region covers every detected region, given the first merge covered them. */
  lemma CollapseCovers(found: seq<Region>, merged: seq<Region>, all: seq<Region>, r: Region)
    requires CoversAll(merged, found)
    requires all != [] && |merged| <= |all| && all[..|merged|] == merged
    requires r == (MinStart(all), MaxEnd(all))
    ensures forall j :: 0 <= j < |found| ==> Covers(r, found[j])
  {
    forall j | 0 <= j < |found|
      ensures Covers(r, found[j])
    {
      assert CoveredBy(merged, found[j]);
      var k :| 0 <= k < |merged| && Covers(merged[k], found[j]);
      assert all[k] == merged[k];
    }
  }
}
