/**
 * The capture side of the dashboard: blocks of 16 kHz samples arrive from the
 * audio worklet, are appended to a carry buffer, and are sent as frames of
 * exactly FrameSamples samples while the socket is open; the remainder waits
 * in the carry for the next block.
 */
module Framing {
  import opened Seqs

  const TargetRate := 16000
  const FrameMs := 20
  /** `FRAME_SAMPLES = (TARGET_SR * FRAME_MS) / 1000`, i.e. 320. */
  const FrameSamples := TargetRate * FrameMs / 1000

  /** The `while (offset + FRAME_SAMPLES <= merged.length)` loop: the frames cut from `merged`, and where the carry starts. */
  method CutFrames<T>(merged: seq<T>) returns (frames: seq<seq<T>>, offset: nat)
    ensures forall k :: 0 <= k < |frames| ==> |frames[k]| == FrameSamples
    ensures offset <= |merged| && |merged| - offset < FrameSamples
    ensures Concat(frames) == merged[..offset]
  {
    frames := [];
    offset := 0;
    while offset + FrameSamples <= |merged|
      invariant offset <= |merged|
      invariant forall k :: 0 <= k < |frames| ==> |frames[k]| == FrameSamples
      invariant Concat(frames) == merged[..offset]
    {
      var frame := merged[offset..offset + FrameSamples];
      ConcatSnoc(frames, frame);
      assert merged[..offset + FrameSamples] == merged[..offset] + frame;
      frames := frames + [frame];
      offset := offset + FrameSamples;
    }
  }

  class ClientFramer<T> {
    /** Samples received but not yet sent: always fewer than one frame. */
    var carry: seq<T>
    /** Every sample accepted so far, and every frame sent so far. */
    ghost var received: seq<T>
    ghost var sent: seq<seq<T>>

    ghost predicate Valid()
      reads this
    {
      && |carry| < FrameSamples
      && (forall k :: 0 <= k < |sent| ==> |sent[k]| == FrameSamples)
      && Concat(sent) + carry == received
    }

    constructor ()
      ensures Valid() && carry == [] && received == [] && sent == []
    {
      carry := [];
      received := [];
      sent := [];
    }

    /**
     * `workletNode.port.onmessage` for one block, already at the target rate:
     * returns the frames handed to `ws.send`, in order.
     */
    method OnMessage(block: seq<T>, socketOpen: bool) returns (frames: seq<seq<T>>)
      requires Valid()
      modifies this
      ensures Valid()
      ensures !socketOpen ==> frames == [] && carry == old(carry) && received == old(received) && sent == old(sent)
      ensures socketOpen ==> Concat(frames) + carry == old(carry) + block
      ensures socketOpen ==> received == old(received) + block && sent == old(sent) + frames
      ensures forall k :: 0 <= k < |frames| ==> |frames[k]| == FrameSamples
    {
      if !socketOpen {
        return [];
      }
      var merged := carry + block;
      var offset;
      frames, offset := CutFrames(merged);
      carry := merged[offset..];
      assert merged == merged[..offset] + carry;
      ConcatAppend(sent, frames);
      received := received + block;
      sent := sent + frames;
    }
  }
}
