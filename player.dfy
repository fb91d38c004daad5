/**
 * `PcmPlayerProcessor`: the playback jitter buffer. Incoming chunks are queued
 * with a running sample count; playback starts once a prebuffer of 1.5 s has
 * accumulated, and from then on each render quantum drains the queue in order,
 * filling with silence on underrun.
 */
module Player {
  import opened Seqs

  /** `Math.floor(sampleRate * 1.5)` */
  function StartSamples(sampleRate: nat): (n: nat)
    ensures 2 * n <= 3 * sampleRate < 2 * n + 2
  {
    (3 * sampleRate) / 2
  }

  predicate AllZero(s: seq<real>) {
    forall k :: 0 <= k < |s| ==> s[k] == 0.0
  }

  class PcmPlayer {
    var queue: seq<seq<real>>
    var queued: int
    var started: bool
    const startSamples: nat

    /** The running count matches the queue, and no queued chunk is empty. */
    ghost predicate Valid()
      reads this
    {
      queued == |Concat(queue)| && forall k :: 0 <= k < |queue| ==> |queue[k]| > 0
    }

    constructor (sampleRate: nat)
      ensures Valid() && queue == [] && queued == 0 && !started
      ensures startSamples == StartSamples(sampleRate)
    {
      queue := [];
      queued := 0;
      started := false;
      startSamples := StartSamples(sampleRate);
    }

    /** `port.onmessage`: a missing or empty chunk is ignored, any other goes to the tail. */
    method OnMessage(chunk: seq<real>, present: bool)
      requires Valid()
      modifies this
      ensures Valid() && started == old(started)
      ensures present && |chunk| > 0 ==> queue == old(queue) + [chunk] && queued == old(queued) + |chunk|
      ensures !(present && |chunk| > 0) ==> queue == old(queue) && queued == old(queued)
      ensures Concat(queue) == if present then Concat(old(queue)) + chunk else Concat(old(queue))
    {
      if present && |chunk| > 0 {
        ConcatSnoc(queue, chunk);
        queue := queue + [chunk];
        queued := queued + |chunk|;
      }
    }

    /**
     * `process`: fills `out` with the next queued samples. Before playback has
     * started it only outputs silence and decides whether to start.
     */
    method Process(out: array<real>) returns (keepAlive: bool)
      requires Valid()
      modifies this, out
      ensures Valid() && keepAlive
      ensures started == (old(started) || old(queued) >= startSamples)
      ensures !old(started) ==> AllZero(out[..]) && queue == old(queue) && queued == old(queued)
      ensures old(started) ==>
        var n := if out.Length < old(queued) then out.Length else old(queued);
        && out[..n] == Concat(old(queue))[..n]
        && AllZero(out[n..])
        && Concat(queue) == Concat(old(queue))[n..]
        && queued == old(queued) - n
    {
      keepAlive := true;
      if !started {
        if queued >= startSamples {
          started := true;
        }
        forall j | 0 <= j < out.Length {
          out[j] := 0.0;
        }
      } else {
        Drain(out);
      }
    }

    /** The started branch of `process`: the copy loop with its underrun fill. */
    method Drain(out: array<real>)
      requires Valid() && started
      modifies this, out
      ensures Valid() && started
      ensures var n := if out.Length < old(queued) then out.Length else old(queued);
        && out[..n] == Concat(old(queue))[..n]
        && AllZero(out[n..])
        && Concat(queue) == Concat(old(queue))[n..]
        && queued == old(queued) - n
    {
      ghost var all := Concat(queue);
      var i := 0;
      while i < out.Length
        invariant Valid() && started
        invariant 0 <= i <= out.Length && i <= |all|
        invariant out[..i] == all[..i]
        invariant Concat(queue) == all[i..]
        decreases out.Length - i
      {
        if |queue| == 0 {
          ghost var filled := out[..i];
          forall j | i <= j < out.Length {
            out[j] := 0.0;
          }
          assert out[..i] == filled;
          break;
        }
        ghost var before := out[..i];
        var copyLen := TakeFromHead(out, i);
        assert all[..i + copyLen] == before + all[i..][..copyLen];
        i := i + copyLen;
      }
    }

    /** One pass of the copy loop: the head chunk's samples, as many as fit, go to `out` at `i`. */
    method TakeFromHead(out: array<real>, i: nat) returns (copyLen: nat)
      requires Valid() && queue != [] && i < out.Length
      modifies this, out
      ensures Valid() && started == old(started)
      ensures 0 < copyLen <= out.Length - i && copyLen <= |Concat(old(queue))|
      ensures out[..i + copyLen] == old(out[..i]) + Concat(old(queue))[..copyLen]
      ensures Concat(queue) == Concat(old(queue))[copyLen..]
      ensures queued == old(queued) - copyLen
    {
      var head := queue[0];
      ghost var all := Concat(queue);
      copyLen := if |head| < out.Length - i then |head| else out.Length - i;
      HeadSlice(all, 0, queue, copyLen);
      ghost var before := out[..i];
      forall k | 0 <= k < copyLen {
        out[i + k] := head[k];
      }
      assert out[..i + copyLen] == before + head[..copyLen];
      if copyLen == |head| {
        assert head[copyLen..] + Concat(queue[1..]) == Concat(queue[1..]);
        queue := queue[1..];
      } else {
        ConcatCons(head[copyLen..], queue[1..]);
        queue := [head[copyLen..]] + queue[1..];
      }
      queued := queued - copyLen;
    }
  }

  /** The next `n` samples of the stream are the first `n` of the head chunk. */
  lemma HeadSlice<T>(all: seq<T>, i: nat, queue: seq<seq<T>>, n: nat)
    requires i <= |all| && queue != [] && Concat(queue) == all[i..] && n <= |queue[0]|
    ensures i + n <= |all|
    ensures all[..i + n] == all[..i] + queue[0][..n]
    ensures queue[0][n..] + Concat(queue[1..]) == all[i + n..]
  {
    assert Concat(queue) == queue[0] + Concat(queue[1..]);
    assert all[i..][..n] == queue[0][..n];
    assert all[..i + n] == all[..i] + all[i..][..n];
    assert all[i + n..] == all[i..][n..];
  }

  lemma ConcatCons<T>(x: seq<T>, rest: seq<seq<T>>)
    ensures Concat([x] + rest) == x + Concat(rest)
  {
    assert ([x] + rest)[1..] == rest;
  }
}
