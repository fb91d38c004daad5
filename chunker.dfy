/**
 * `AudioChunker`: PCM frames of known duration are queued with a running
 * millisecond total and released as chunks of at least `chunk_ms`.
 */
module Chunker {
  import opened Wrappers

  type byte = bv8

  /** `AudioFrame(data, ms)`: PCM16 bytes and their duration. */
  datatype AudioFrame = AudioFrame(data: seq<byte>, ms: int)

  /** The summed duration of a run of frames. */
  function TotalMs(fs: seq<AudioFrame>): int
  {
    if fs == [] then 0 else TotalMs(fs[..|fs| - 1]) + fs[|fs| - 1].ms
  }

  /** The frames' bytes joined in order. */
  function JoinData(fs: seq<AudioFrame>): seq<byte>
  {
    if fs == [] then [] else JoinData(fs[..|fs| - 1]) + fs[|fs| - 1].data
  }

  /** Splitting a run of frames splits its duration and its bytes. */
  lemma {:induction false} SplitFrames(fs: seq<AudioFrame>, k: nat)
    requires k <= |fs|
    ensures TotalMs(fs) == TotalMs(fs[..k]) + TotalMs(fs[k..])
    ensures JoinData(fs) == JoinData(fs[..k]) + JoinData(fs[k..])
    decreases |fs|
  {
    if k < |fs| {
      var init := fs[..|fs| - 1];
      SplitFrames(init, k);
      assert init[..k] == fs[..k];
      assert init[k..] == fs[k..][..|fs[k..]| - 1];
    } else {
      assert fs[..k] == fs;
    }
  }

  /**
   * How many frames the `while self.q and used_ms < target` loop takes, having
   * already taken `k`: it stops at the first prefix whose duration reaches the
   * target, or when the queue runs out.
   */
  function TakeCount(fs: seq<AudioFrame>, target: int, k: nat): (n: nat)
    requires k <= |fs|
    ensures k <= n <= |fs|
    ensures n == |fs| || TotalMs(fs[..n]) >= target
    ensures forall j :: k <= j < n ==> TotalMs(fs[..j]) < target
    decreases |fs| - k
  {
    if k == |fs| || TotalMs(fs[..k]) >= target then k else TakeCount(fs, target, k + 1)
  }

  /** When the queue holds at least the target, the frames taken add up to at least the target. */
  lemma TakenReachesTarget(fs: seq<AudioFrame>, target: int)
    requires TotalMs(fs) >= target
    ensures TotalMs(fs[..TakeCount(fs, target, 0)]) >= target
  {
    assert fs[..|fs|] == fs;
  }

  class AudioChunker {
    const chunkMs: int
    var q: seq<AudioFrame>
    var accMs: int

    /** `acc_ms` is the total duration of the queued frames. */
    ghost predicate Valid()
      reads this
    {
      accMs == TotalMs(q)
    }

    constructor (chunkMs: int)
      ensures Valid() && this.chunkMs == chunkMs && q == [] && accMs == 0
    {
      this.chunkMs := chunkMs;
      q := [];
      accMs := 0;
    }

    method Push(frame: AudioFrame)
      requires Valid()
      modifies this
      ensures Valid()
      ensures q == old(q) + [frame] && accMs == old(accMs) + frame.ms
    {
      assert (q + [frame])[..|q|] == q;
      q := q + [frame];
      accMs := accMs + frame.ms;
    }

    /**
     * `pop_chunk_if_ready`: nothing while less than `chunk_ms` is queued;
     * otherwise the leading frames until `chunk_ms` is reached, their bytes
     * joined and their summed duration.
     */
    method PopChunkIfReady() returns (r: Option<(seq<byte>, int)>)
      requires Valid()
      modifies this
      ensures Valid()
      ensures old(accMs) < chunkMs ==> r == None && q == old(q) && accMs == old(accMs)
      ensures old(accMs) >= chunkMs ==>
        var n := TakeCount(old(q), chunkMs, 0);
        && r == Some((JoinData(old(q)[..n]), TotalMs(old(q)[..n])))
        && q == old(q)[n..]
        && accMs == old(accMs) - r.value.1
        && r.value.1 >= chunkMs
    {
      if accMs < chunkMs {
        return None;
      }
      ghost var all := q;
      var target := chunkMs;
      var out := [];
      var usedMs := 0;
      var taken := 0;
      while |q| > 0 && usedMs < target
        invariant accMs == old(accMs) && taken <= |all| && q == all[taken..]
        invariant out == JoinData(all[..taken]) && usedMs == TotalMs(all[..taken])
        invariant TakeCount(all, target, 0) == TakeCount(all, target, taken)
        decreases |q|
      {
        var f := q[0];
        assert all[..taken + 1] == all[..taken] + [f];
        assert all[..taken + 1][..taken] == all[..taken];
        out := out + f.data;
        usedMs := usedMs + f.ms;
        q := q[1..];
        taken := taken + 1;
      }
      SplitFrames(all, taken);
      TakenReachesTarget(all, target);
      accMs := accMs - usedMs;
      r := Some((out, usedMs));
    }
  }
}
