/** Cutting a byte stream into frames of one size, however it arrives. */
module Framing {

  import opened Types
  import opened Wire
  import opened Ouch

  /** The complete 47-byte frames at the front of a stream, in order. */
  function Frames(stream: seq<Byte>): (frames: seq<seq<Byte>>)
    ensures forall i :: 0 <= i < |frames| ==> |frames[i]| == ENTER_ORDER_SIZE
  {
    if |stream| < ENTER_ORDER_SIZE then []
    else [stream[..ENTER_ORDER_SIZE]] + Frames(stream[ENTER_ORDER_SIZE..])
  }

  /** What follows the last complete frame. */
  function Partial(stream: seq<Byte>): (rest: seq<Byte>)
    ensures |rest| < ENTER_ORDER_SIZE
  {
    if |stream| < ENTER_ORDER_SIZE then stream else Partial(stream[ENTER_ORDER_SIZE..])
  }

  /** More bytes extend the partial frame, or complete it. */
  lemma {:induction false} MoreBytes(stream: seq<Byte>, bytes: seq<Byte>)
    requires |Partial(stream)| + |bytes| <= ENTER_ORDER_SIZE
    ensures |Partial(stream)| + |bytes| < ENTER_ORDER_SIZE ==>
      Frames(stream + bytes) == Frames(stream) && Partial(stream + bytes) == Partial(stream) + bytes
    ensures |Partial(stream)| + |bytes| == ENTER_ORDER_SIZE ==>
      Frames(stream + bytes) == Frames(stream) + [Partial(stream) + bytes] && Partial(stream + bytes) == []
  {
    var all := stream + bytes;
    if |stream| < ENTER_ORDER_SIZE {
      if |all| == ENTER_ORDER_SIZE {
        assert all[..ENTER_ORDER_SIZE] == all && all[ENTER_ORDER_SIZE..] == [];
      }
    } else {
      MoreBytes(stream[ENTER_ORDER_SIZE..], bytes);
      assert all[..ENTER_ORDER_SIZE] == stream[..ENTER_ORDER_SIZE];
      assert all[ENTER_ORDER_SIZE..] == stream[ENTER_ORDER_SIZE..] + bytes;
    }
  }

  /** Frame i is the i-th block of 47 bytes of the stream; nothing is skipped or repeated. */
  lemma {:induction false} FrameIsBlock(stream: seq<Byte>, i: nat)
    requires i < |Frames(stream)|
    ensures 47 * (i + 1) <= |stream|
    ensures Frames(stream)[i] == stream[47 * i..47 * (i + 1)]
  {
    if i > 0 {
      FrameIsBlock(stream[ENTER_ORDER_SIZE..], i - 1);
    }
  }

  /** Frames and the partial one make up the stream. */
  lemma {:induction false} FramesCover(stream: seq<Byte>)
    ensures |Frames(stream)| == |stream| / 47
    ensures Partial(stream) == stream[47 * |Frames(stream)|..]
  {
    if |stream| >= ENTER_ORDER_SIZE {
      FramesCover(stream[ENTER_ORDER_SIZE..]);
    }
  }

  // ---- Answers ----

  /** What the handler answers to frame i of a connection: none, or a response. */
  type Handler = (nat, seq<Byte>) -> Option<seq<Byte>>

  /** The responses to the frames, one after the other. */
  function Answers(handler: Handler, frames: seq<seq<Byte>>): seq<Byte> {
    if frames == [] then []
    else
      var last := |frames| - 1;
      var r := handler(last, frames[last]);
      Answers(handler, frames[..last]) + if r.Some? then r.value else []
  }

  lemma OneMoreAnswer(handler: Handler, frames: seq<seq<Byte>>, frame: seq<Byte>)
    ensures var r := handler(|frames|, frame);
      Answers(handler, frames + [frame]) == Answers(handler, frames) + if r.Some? then r.value else []
  {
    assert (frames + [frame])[..|frames|] == frames;
  }
}
