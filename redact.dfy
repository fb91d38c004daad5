/**
 * Masking of 16-bit PCM audio: silencing a whole block, and overwriting the
 * sample windows of given time regions with a tone. Samples are integers;
 * the tone is an abstract function of the absolute sample index, which keeps
 * its phase continuous across chunks.
 */
module Redact {
  import opened Numbers

  /** `pcm16_silence`: zero bytes, as many as the input has. */
  function Silence(pcm: seq<bv8>): (r: seq<bv8>)
    ensures |r| == |pcm|
    ensures forall i :: 0 <= i < |r| ==> r[i] == 0
  {
    seq(|pcm|, _ => 0)
  }

  /** `max(0, int(t0 * sample_rate))`: the first sample of a region's window. */
  function WindowStart(t0: real, rate: int): (s: int)
    ensures 0 <= s
    ensures t0 * rate as real >= 1.0 ==> s as real <= t0 * rate as real
  {
    var x := Trunc(t0 * rate as real);
    if x > 0 then x else 0
  }

  /** `min(n, int(t1 * sample_rate))`: one past the last sample of a region's window. */
  function WindowEnd(t1: real, rate: int, n: nat): (e: int)
    ensures e <= n
  {
    var x := Trunc(t1 * rate as real);
    if x < n then x else n
  }

  /** Sample `i` lies in the clamped window of `region`. */
  predicate InWindow(i: int, region: (real, real), rate: int, n: nat) {
    WindowStart(region.0, rate) <= i < WindowEnd(region.1, rate, n)
  }

  /** Sample `i` lies in the window of one of the first `j` regions. */
  predicate Masked(i: int, regions: seq<(real, real)>, j: int, rate: int, n: nat)
    requires j <= |regions|
  {
    exists k :: 0 <= k < j && InWindow(i, regions[k], rate, n)
  }

  /** The sample at `i` after the regions' windows have been painted: a tone sample or the original. */
  function Bleeped(samples: seq<int>, rate: int, regions: seq<(real, real)>, tone: int -> int, chunkStart: int, i: int): int
    requires 0 <= i < |samples|
  {
    if Masked(i, regions, |regions|, rate, |samples|) then tone(chunkStart + i) else samples[i]
  }

  /** The region loop as written: each region's window is overwritten in turn. */
  function Paint(samples: seq<int>, rate: int, regions: seq<(real, real)>, tone: int -> int, chunkStart: int): (r: seq<int>)
    ensures |r| == |samples|
  {
    if regions == [] then samples
    else
      var prev := Paint(samples, rate, regions[..|regions| - 1], tone, chunkStart);
      var last := regions[|regions| - 1];
      seq(|prev|, i requires 0 <= i < |prev| =>
        if InWindow(i, last, rate, |samples|) then tone(chunkStart + i) else prev[i])
  }

  /**
   * Overwriting in order ends where painting every window at once does: all
   * windows write the same tone sample at a given index, so later regions
   * never undo earlier ones.
   */
  lemma {:induction false} PaintIsBleeped(samples: seq<int>, rate: int, regions: seq<(real, real)>, tone: int -> int, chunkStart: int)
    ensures forall i :: 0 <= i < |samples| ==>
      Paint(samples, rate, regions, tone, chunkStart)[i] == Bleeped(samples, rate, regions, tone, chunkStart, i)
  {
    if regions != [] {
      var front := regions[..|regions| - 1];
      PaintIsBleeped(samples, rate, front, tone, chunkStart);
      forall i | 0 <= i < |samples|
        ensures Paint(samples, rate, regions, tone, chunkStart)[i] == Bleeped(samples, rate, regions, tone, chunkStart, i)
      {
        var last := regions[|regions| - 1];
        assert Paint(samples, rate, regions, tone, chunkStart)[i]
            == if InWindow(i, last, rate, |samples|) then tone(chunkStart + i) else Paint(samples, rate, front, tone, chunkStart)[i];
        MaskedStep(i, regions, |regions| - 1, rate, |samples|);
        assert Masked(i, front, |front|, rate, |samples|) <==> Masked(i, regions, |regions| - 1, rate, |samples|) by {
          forall k | 0 <= k < |front| ensures front[k] == regions[k] { }
        }
      }
    }
  }

  lemma MaskedStep(i: int, regions: seq<(real, real)>, j: int, rate: int, n: nat)
    requires 0 <= j < |regions|
    ensures Masked(i, regions, j + 1, rate, n) <==> Masked(i, regions, j, rate, n) || InWindow(i, regions[j], rate, n)
  {
    if InWindow(i, regions[j], rate, n) {
      assert Masked(i, regions, j + 1, rate, n);
    }
  }

  /**
   * `pcm16_bleep_regions` on the decoded samples: every sample in some
   * region's clamped window becomes the tone at its absolute index, every
   * other sample is kept, and with no regions the input comes back as it is.
   */
  method BleepRegions(samples: seq<int>, rate: int, regions: seq<(real, real)>, tone: int -> int, chunkStart: int)
    returns (r: seq<int>)
    ensures |r| == |samples|
    ensures regions == [] ==> r == samples
    ensures forall i :: 0 <= i < |r| ==> r[i] == Bleeped(samples, rate, regions, tone, chunkStart, i)
    ensures r == Paint(samples, rate, regions, tone, chunkStart)
  {
    if regions == [] {
      return samples;
    }
    var n := |samples|;
    var audio := new int[n](i requires 0 <= i < n => samples[i]);
    for j := 0 to |regions|
      invariant forall y :: 0 <= y < n ==>
        audio[y] == if Masked(y, regions, j, rate, n) then tone(chunkStart + y) else samples[y]
    {
      var (t0, t1) := regions[j];
      var s := WindowStart(t0, rate);
      var e := WindowEnd(t1, rate, n);
      forall y | 0 <= y < n
        ensures Masked(y, regions, j + 1, rate, n) <==> Masked(y, regions, j, rate, n) || s <= y < e
      {
        MaskedStep(y, regions, j, rate, n);
      }
      if e <= s {
        continue;
      }
      for x := s to e
        invariant forall y :: 0 <= y < n ==>
          audio[y] == if Masked(y, regions, j, rate, n) || s <= y < x then tone(chunkStart + y) else samples[y]
      {
        audio[x] := tone(chunkStart + x);
      }
    }
    r := audio[..];
    PaintIsBleeped(samples, rate, regions, tone, chunkStart);
  }

  /** Samples outside every clamped window come back unchanged. */
  lemma OutsideWindowsUnchanged(samples: seq<int>, rate: int, regions: seq<(real, real)>, tone: int -> int, chunkStart: int, i: int)
    requires 0 <= i < |samples|
    requires forall k :: 0 <= k < |regions| ==> !InWindow(i, regions[k], rate, |samples|)
    ensures Paint(samples, rate, regions, tone, chunkStart)[i] == samples[i]
  {
    PaintIsBleeped(samples, rate, regions, tone, chunkStart);
  }

  /** A region whose clamped window is empty changes nothing: dropping it gives the same samples. */
  lemma EmptyWindowIgnored(samples: seq<int>, rate: int, regions: seq<(real, real)>, tone: int -> int, chunkStart: int, k: int)
    requires 0 <= k < |regions|
    requires WindowEnd(regions[k].1, rate, |samples|) <= WindowStart(regions[k].0, rate)
    ensures Paint(samples, rate, regions, tone, chunkStart)
         == Paint(samples, rate, regions[..k] + regions[k + 1..], tone, chunkStart)
  {
    var rest := regions[..k] + regions[k + 1..];
    PaintIsBleeped(samples, rate, regions, tone, chunkStart);
    PaintIsBleeped(samples, rate, rest, tone, chunkStart);
    forall i | 0 <= i < |samples|
      ensures Masked(i, regions, |regions|, rate, |samples|) <==> Masked(i, rest, |rest|, rate, |samples|)
    {
      if Masked(i, regions, |regions|, rate, |samples|) {
        var m :| 0 <= m < |regions| && InWindow(i, regions[m], rate, |samples|);
        if m < k {
          assert rest[m] == regions[m];
        } else {
          assert rest[m - 1] == regions[m];
        }
      }
      if Masked(i, rest, |rest|, rate, |samples|) {
        var m :| 0 <= m < |rest| && InWindow(i, rest[m], rate, |samples|);
        if m < k {
          assert rest[m] == regions[m];
        } else {
          assert rest[m] == regions[m + 1];
        }
      }
    }
  }
}
