/**
 * `PCM16RingBuffer`: the most recent PCM frames, at most `max_ms` of them.
 * A push appends at the tail and evicts from the front until the total fits.
 */
module Ring {
  import opened Chunker

  /** `a` is what remains of `b` after dropping some of its front. */
  predicate IsSuffix<T(==)>(a: seq<T>, b: seq<T>) {
    |a| <= |b| && a == b[|b| - |a|..]
  }

  predicate NonNegative(fs: seq<AudioFrame>) {
    forall k :: 0 <= k < |fs| ==> fs[k].ms >= 0
  }

  /**
   * How many leading entries the `while self.total_ms > self.max_ms and self.q`
   * loop evicts, having already evicted `k`: up to the first suffix whose
   * duration fits, or all of them.
   */
  function EvictCount(fs: seq<AudioFrame>, maxMs: int, k: nat): (n: nat)
    requires k <= |fs|
    ensures k <= n <= |fs|
    ensures n == |fs| || TotalMs(fs[n..]) <= maxMs
    ensures forall j :: k <= j < n ==> TotalMs(fs[j..]) > maxMs
    decreases |fs| - k
  {
    if k == |fs| || TotalMs(fs[k..]) <= maxMs then k else EvictCount(fs, maxMs, k + 1)
  }

  class RingBuffer {
    const sampleRate: int
    const maxMs: int
    var q: seq<AudioFrame>
    var totalMs: int

    /** `total_ms` is the total duration of the stored entries. */
    ghost predicate Valid()
      reads this
    {
      totalMs == TotalMs(q)
    }

    constructor (sampleRate: int, maxMs: int)
      ensures Valid() && this.sampleRate == sampleRate && this.maxMs == maxMs && q == []
    {
      this.sampleRate := sampleRate;
      this.maxMs := maxMs;
      q := [];
      totalMs := 0;
    }

    /** `dump`: the stored PCM joined in order. */
    function Dump(): (pcm: seq<byte>)
      reads this
      ensures q == [] ==> pcm == []
    {
      JoinData(q)
    }

    /** `push(pcm, ms)`: append, then evict from the front while over `max_ms`. */
    method Push(pcm: seq<byte>, ms: int)
      requires Valid()
      modifies this
      ensures Valid()
      ensures var s := old(q) + [AudioFrame(pcm, ms)];
        q == s[EvictCount(s, maxMs, 0)..]
      ensures maxMs >= 0 ==> totalMs <= maxMs
      ensures IsSuffix(Dump(), old(Dump()) + pcm)
    {
      ghost var s := q + [AudioFrame(pcm, ms)];
      assert s[..|q|] == q;
      assert TotalMs(s) == totalMs + ms;
      q := q + [AudioFrame(pcm, ms)];
      totalMs := totalMs + ms;
      ghost var evicted := 0;
      assert s[0..] == s;
      while totalMs > maxMs && |q| > 0
        invariant evicted <= |s| && q == s[evicted..] && totalMs == TotalMs(q)
        invariant EvictCount(s, maxMs, 0) == EvictCount(s, maxMs, evicted)
        decreases |q|
      {
        DropFirst(s, evicted);
        totalMs := totalMs - q[0].ms;
        q := q[1..];
        evicted := evicted + 1;
      }
      EvictedDump(old(q), AudioFrame(pcm, ms), evicted);
      assert Dump() == JoinData(s[evicted..]);
    }
  }

  lemma DropFirst(s: seq<AudioFrame>, k: nat)
    requires k < |s|
    ensures TotalMs(s[k + 1..]) == TotalMs(s[k..]) - s[k].ms
    ensures s[k..][1..] == s[k + 1..]
  {
    var t := s[k..];
    SplitFrames(t, 1);
    assert t[..1] == [s[k]];
    assert TotalMs([s[k]]) == s[k].ms by { assert [s[k]][..0] == []; }
    assert t[1..] == s[k + 1..];
  }

  /** What remains after eviction dumps as a suffix of the old dump followed by the new PCM. */
  lemma EvictedDump(old_q: seq<AudioFrame>, e: AudioFrame, d: nat)
    requires d <= |old_q| + 1
    ensures IsSuffix(JoinData((old_q + [e])[d..]), JoinData(old_q) + e.data)
  {
    var s := old_q + [e];
    assert s[..|s| - 1] == old_q;
    SplitFrames(s, d);
  }

  /** An entry longer than the whole capacity leaves the buffer empty, given non-negative durations. */
  lemma {:induction false} OversizedEntryEmpties(old_q: seq<AudioFrame>, e: AudioFrame, maxMs: int)
    requires NonNegative(old_q) && e.ms > maxMs
    ensures var s := old_q + [e]; EvictCount(s, maxMs, 0) == |s|
  {
    var s := old_q + [e];
    forall j | 0 <= j < |s|
      ensures TotalMs(s[j..]) > maxMs
    {
      SuffixAtLeastLast(s, j);
    }
    EvictAll(s, maxMs, 0);
  }

  lemma {:induction false} EvictAll(s: seq<AudioFrame>, maxMs: int, k: nat)
    requires k <= |s|
    requires forall j :: 0 <= j < |s| ==> TotalMs(s[j..]) > maxMs
    ensures EvictCount(s, maxMs, k) == |s|
    decreases |s| - k
  {
    if k < |s| {
      EvictAll(s, maxMs, k + 1);
    }
  }

  /** A suffix of non-negative leading entries lasts at least as long as its last entry. */
  lemma {:induction false} SuffixAtLeastLast(s: seq<AudioFrame>, j: nat)
    requires 0 <= j < |s| && NonNegative(s[..|s| - 1])
    ensures TotalMs(s[j..]) >= s[|s| - 1].ms
    decreases |s| - j
  {
    var t := s[j..];
    var u := t[..|t| - 1];
    SplitFrames(t, |t| - 1);
    forall k | 0 <= k < |u|
      ensures u[k].ms >= 0
    {
      assert u[k] == s[..|s| - 1][j + k];
    }
    NonNegativeTotal(u);
    assert t[|t| - 1..] == [s[|s| - 1]];
    assert TotalMs([s[|s| - 1]]) == s[|s| - 1].ms by { assert [s[|s| - 1]][..0] == []; }
  }

  lemma {:induction false} NonNegativeTotal(fs: seq<AudioFrame>)
    requires NonNegative(fs)
    ensures TotalMs(fs) >= 0
  {
    if fs != [] {
      NonNegativeTotal(fs[..|fs| - 1]);
    }
  }
}
