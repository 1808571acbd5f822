/** One client connection: frames out of split inbound, responses through partial outbound. */
module ClientSessions {

  import opened Types
  import opened Wire
  import opened Ouch
  import opened Framing

  /** The outcome of a read: some bytes, would block, interrupted, or closed or failed. */
  datatype Read = Got(bytes: seq<Byte>) | ReadBlocked | ReadInterrupted | ReadEnded

  /** The outcome of a write: up to so many bytes taken, would block, interrupted, or failed. */
  datatype Write = Took(count: nat) | WriteBlocked | WriteInterrupted | WriteFailed

  /** What the event loop reports for a connection. */
  datatype Ready = Ready(writable: bool, readable: bool)

  /** How many events report input. */
  function Readable(events: seq<Ready>): nat {
    if events == [] then 0
    else Readable(events[..|events| - 1]) + if events[|events| - 1].readable then 1 else 0
  }

  function Weight(inbound: seq<Read>): nat {
    if inbound == [] then 0 else (if inbound[0].Got? then |inbound[0].bytes| else 0) + 1 + Weight(inbound[1..])
  }

  /** The bytes a script of reads delivers. */
  function Stream(inbound: seq<Read>): seq<Byte> {
    if inbound == [] then [] else (if inbound[0].Got? then inbound[0].bytes else []) + Stream(inbound[1..])
  }

  lemma FirstRead(inbound: seq<Read>)
    requires inbound != []
    ensures Stream(inbound) == (if inbound[0].Got? then inbound[0].bytes else []) + Stream(inbound[1..])
    ensures Weight(inbound) > Weight(inbound[1..])
  {
  }

  /** Taking the front of an arrival leaves the rest of it at the front of the script. */
  lemma SplitArrival(bytes: seq<Byte>, limit: nat, later: seq<Read>)
    requires limit < |bytes|
    ensures Stream([Got(bytes)] + later) == bytes[..limit] + Stream([Got(bytes[limit..])] + later)
    ensures Weight([Got(bytes)] + later) == limit + Weight([Got(bytes[limit..])] + later)
  {
    assert ([Got(bytes)] + later)[1..] == later && ([Got(bytes[limit..])] + later)[1..] == later;
    assert bytes == bytes[..limit] + bytes[limit..];
  }

  lemma SplitWrite(before: seq<Byte>, waiting: seq<Byte>, count: nat)
    requires count <= |waiting|
    ensures before + waiting[..count] + waiting[count..] == before + waiting
  {
    assert waiting[..count] + waiting[count..] == waiting;
  }

  /** The socket and its event registration; the scripts say what they will do, call by call. */
  class Transport {
    const tls: bool
    var inbound: seq<Read>
    var outbound: seq<Write>
    var registrations: seq<bool>
    var received: seq<Byte>
    var written: seq<Byte>
    /** How often it was asked, and its last answers. */
    var receives: nat
    var lastRead: Read
    var sends: nat
    var lastWrite: Write
    var registered: bool

    /** A write failed for good, or the event registration did. */
    predicate Broken()
      reads this
    {
      !registered || (sends > 0 && (lastWrite.WriteFailed? || (tls && lastWrite.WriteInterrupted?)))
    }

    constructor (tls: bool, inbound: seq<Read>, outbound: seq<Write>, registrations: seq<bool>)
      ensures this.tls == tls && this.inbound == inbound && this.outbound == outbound
        && this.registrations == registrations
      ensures received == [] && written == [] && !Broken()
    {
      this.tls, this.inbound, this.outbound, this.registrations := tls, inbound, outbound, registrations;
      received, written := [], [];
      receives, lastRead, sends, lastWrite, registered := 0, ReadBlocked, 0, WriteBlocked, true;
    }

    /** At most `limit` bytes of what arrived next; the rest stays for the next call. */
    method Recv(limit: nat) returns (r: Read)
      requires limit > 0
      modifies this`inbound, this`received, this`receives, this`lastRead
      ensures receives == old(receives) + 1 && lastRead == r
      ensures r.Got? ==> 0 < |r.bytes| <= limit
      ensures received == if r.Got? then old(received) + r.bytes else old(received)
      ensures received + Stream(inbound) == old(received + Stream(inbound))
      ensures Weight(inbound) <= Weight(old(inbound))
      ensures r.Got? || r.ReadInterrupted? ==> Weight(inbound) < Weight(old(inbound))
    {
      hide Weight, Stream;
      receives := receives + 1;
      if inbound == [] {
        lastRead := ReadBlocked;
        return ReadBlocked;
      }
      r := inbound[0];
      FirstRead(inbound);
      if r.Got? && |r.bytes| > limit {
        SplitArrival(r.bytes, limit, inbound[1..]);
        assert inbound == [r] + inbound[1..];
        inbound := [Got(r.bytes[limit..])] + inbound[1..];
        received := received + r.bytes[..limit];
        r := Got(r.bytes[..limit]);
      } else {
        inbound := inbound[1..];
        if r.Got? {
          received := received + r.bytes;
        }
        r := if r == Got([]) then ReadEnded else r;
      }
      lastRead := r;
    }

    /** Takes a non-empty front part of the bytes, or none. */
    method Send(bytes: seq<Byte>) returns (r: Write)
      requires bytes != []
      modifies this`outbound, this`written, this`sends, this`lastWrite
      ensures sends == old(sends) + 1 && lastWrite == r
      ensures r.Took? ==> 0 < r.count <= |bytes|
      ensures written == if r.Took? then old(written) + bytes[..r.count] else old(written)
      ensures r.WriteInterrupted? ==> |outbound| < |old(outbound)|
    {
      sends := sends + 1;
      if outbound == [] {
        lastWrite := WriteBlocked;
        return WriteBlocked;
      }
      r := outbound[0];
      outbound := outbound[1..];
      if r.Took? {
        r := if r.count == 0 then WriteFailed else Took(if r.count < |bytes| then r.count else |bytes|);
      }
      if r.Took? {
        written := written + bytes[..r.count];
      }
      lastWrite := r;
    }

    method UpdateEvents() returns (ok: bool)
      modifies this`registrations, this`registered
      ensures ok == registered
    {
      ok := true;
      if registrations != [] {
        ok, registrations := registrations[0], registrations[1..];
      }
      registered := ok;
    }
  }

  class ClientSession {
    const handler: Handler
    const transport: Transport
    const receiveBuffer: array<Byte>
    var receivedBytes: nat
    var sendBuffer: seq<Byte>
    var sentBytes: nat

    /** The frames handed to the handler so far, and how many of their answers went to the send buffer. */
    var handled: seq<seq<Byte>>
    ghost var answered: nat

    /** The handler has seen exactly the complete frames of what was received. */
    ghost predicate Framed()
      reads this, transport, receiveBuffer
    {
      && receiveBuffer.Length == ENTER_ORDER_SIZE
      && handled == Frames(transport.received)
      && (if receivedBytes < ENTER_ORDER_SIZE
          then receiveBuffer[..receivedBytes] == Partial(transport.received)
          else receivedBytes == ENTER_ORDER_SIZE && Partial(transport.received) == [])
    }

    /** What was written and what still waits make up the responses, in order. */
    ghost predicate Queued()
      reads this, transport
    {
      && sentBytes <= |sendBuffer|
      && answered <= |handled|
      && transport.written + sendBuffer[sentBytes..] == Answers(handler, handled[..answered])
    }

    /** Bytes wait only because the last write would have blocked. */
    ghost predicate Waits()
      reads this`sendBuffer, this`sentBytes, transport`sends, transport`lastWrite
    {
      sendBuffer != [] ==> sentBytes < |sendBuffer| && transport.sends > 0 && transport.lastWrite.WriteBlocked?
    }

    /** An open connection: mid-frame, every handled frame answered, nothing broken, waiting bytes really wait. */
    ghost predicate Open()
      reads this, transport, receiveBuffer
    {
      && Framed() && Queued()
      && receivedBytes < ENTER_ORDER_SIZE
      && answered == |handled|
      && Waits() && !transport.Broken()
    }

    constructor (handler: Handler, transport: Transport)
      requires transport.received == [] && transport.written == [] && !transport.Broken()
      ensures Open() && this.handler == handler && this.transport == transport && fresh(receiveBuffer)
      ensures handled == [] && sendBuffer == []
    {
      this.handler, this.transport := handler, transport;
      receiveBuffer := new Byte[ENTER_ORDER_SIZE](_ => 0);
      receivedBytes, sendBuffer, sentBytes := 0, [], 0;
      handled, answered := [], 0;
    }

    /** Writes until all is written or the transport blocks; false means close, because it broke. */
    method FlushPendingWrite() returns (ok: bool)
      requires Queued() && !transport.Broken()
      modifies this`sendBuffer, this`sentBytes, transport`outbound, transport`written, transport`registrations
      modifies transport`sends, transport`lastWrite, transport`registered
      ensures Queued()
      ensures ok <==> !transport.Broken()
      ensures ok ==> Waits()
      ensures transport.sends >= old(transport.sends)
      ensures old(sentBytes < |sendBuffer|) ==> transport.sends > old(transport.sends)
      ensures old(transport.written) <= transport.written
    {
      hide Answers;
      while sentBytes < |sendBuffer|
        invariant Queued() && old(transport.written) <= transport.written && sendBuffer == old(sendBuffer)
        invariant !transport.Broken() && sentBytes >= old(sentBytes) && transport.sends >= old(transport.sends)
        invariant sentBytes > old(sentBytes) ==> transport.sends > old(transport.sends)
        decreases |sendBuffer| - sentBytes, |transport.outbound|
      {
        var waiting := sendBuffer[sentBytes..];
        ghost var before := transport.written;
        var r := transport.Send(waiting);
        if r.Took? {
          sentBytes := sentBytes + r.count;
          assert sendBuffer[sentBytes..] == waiting[r.count..];
          SplitWrite(before, waiting, r.count);
        } else if r.WriteBlocked? {
          ok := transport.UpdateEvents();
          return;
        } else if transport.tls || r.WriteFailed? {
          return false;
        }
      }
      assert sendBuffer[sentBytes..] == [];
      sendBuffer, sentBytes := [], 0;
      ok := transport.UpdateEvents();
    }

    /** Queues a response and starts writing it; refused while an earlier one waits. */
    method SendAll(response: seq<Byte>) returns (ok: bool)
      requires Queued() && answered < |handled| && handler(answered, handled[answered]) == Some(response)
      requires Waits() && !transport.Broken()
      modifies this`sendBuffer, this`sentBytes, this`answered
      modifies transport`outbound, transport`written, transport`registrations
      modifies transport`sends, transport`lastWrite, transport`registered
      ensures Queued() && old(transport.written) <= transport.written
      ensures old(sendBuffer) != [] ==> answered == old(answered) && sendBuffer[sentBytes..] != []
      ensures old(sendBuffer) == [] ==> answered == old(answered) + 1
      ensures ok <==> old(sendBuffer) == [] && !transport.Broken()
      ensures ok ==> Waits()
      ensures transport.sends >= old(transport.sends)
    {
      if sendBuffer != [] {
        return false;
      }
      OneMoreAnswer(handler, handled[..answered], handled[answered]);
      assert handled[..answered + 1] == handled[..answered] + [handled[answered]];
      assert sendBuffer[sentBytes..] == [];
      sendBuffer, sentBytes, answered := response, 0, answered + 1;
      assert response[0..] == response;
      ok := FlushPendingWrite();
    }

    /** Appends received bytes to the frame being assembled. */
    method Store(bytes: seq<Byte>)
      requires receiveBuffer.Length == ENTER_ORDER_SIZE && receivedBytes + |bytes| <= ENTER_ORDER_SIZE
      modifies this`receivedBytes, receiveBuffer
      ensures receivedBytes == old(receivedBytes) + |bytes|
      ensures receiveBuffer[..receivedBytes] == old(receiveBuffer[..receivedBytes]) + bytes
    {
      forall i | 0 <= i < |bytes| {
        receiveBuffer[receivedBytes + i] := bytes[i];
      }
      receivedBytes := receivedBytes + |bytes|;
    }

    /**
     Handles a complete frame and sends the answer; false means close. A frame that completes while an
     earlier answer still waits is handled all the same, but its answer is dropped and the connection
     closes: that is the only way an answer is lost.
     */
    method HandleFrame() returns (ok: bool)
      requires receiveBuffer.Length == ENTER_ORDER_SIZE == receivedBytes
      requires Partial(transport.received) == [] && handled + [receiveBuffer[..]] == Frames(transport.received)
      requires Queued() && answered == |handled| && Waits() && !transport.Broken()
      modifies this`receivedBytes, this`sendBuffer, this`sentBytes, this`handled, this`answered
      modifies transport`outbound, transport`written, transport`registrations
      modifies transport`sends, transport`lastWrite, transport`registered
      ensures handled == old(handled) + [receiveBuffer[..]] && Framed() && Queued()
      ensures ok ==> Open()
      ensures answered == |handled| || (!ok && answered == |handled| - 1 && sendBuffer[sentBytes..] != [])
      ensures answered == |handled| <==> old(sendBuffer) == [] || handler(|old(handled)|, receiveBuffer[..]).None?
      ensures ok <==> handler(|old(handled)|, receiveBuffer[..]).Some? && old(sendBuffer) == [] && !transport.Broken()
      ensures !ok ==> transport.Broken() || FrameFailed()
      ensures transport.sends >= old(transport.sends)
      ensures old(transport.written) <= transport.written
    {
      var frame := receiveBuffer[..];
      var response := handler(|handled|, frame);
      OneMoreAnswer(handler, handled, frame);
      assert (handled + [frame])[..answered] == handled[..answered] == handled;
      assert (handled + [frame])[..answered + 1] == handled + [frame];
      handled := handled + [frame];
      if response.None? {
        answered := answered + 1;
        return false;
      }
      ok := SendAll(response.value);
      if ok {
        receivedBytes := 0;
        assert receiveBuffer[..0] == [];
      }
    }

    /** The last frame handled was refused by the handler, or its answer was dropped. */
    ghost predicate FrameFailed()
      reads this`handled, this`answered
    {
      handled != [] && (answered < |handled| || handler(|handled| - 1, handled[|handled| - 1]).None?)
    }

    /** One read and what follows from it; `more` means read again, else `open` says whether to stay open. */
    method ReadOnce() returns (open: bool, more: bool)
      requires Open()
      modifies this`receivedBytes, this`sendBuffer, this`sentBytes, this`handled, this`answered
      modifies transport, receiveBuffer
      ensures transport.receives == old(transport.receives) + 1 && transport.sends >= old(transport.sends)
      ensures Weight(transport.inbound) <= old(Weight(transport.inbound))
      ensures more ==> open && Weight(transport.inbound) < old(Weight(transport.inbound))
      ensures !more ==> (open <==> !transport.Broken() && transport.lastRead.ReadBlocked?)
      ensures !open && transport.lastRead.Got? ==> transport.Broken() || FrameFailed()
      ensures open ==> Open()
      ensures Framed() && Queued()
      ensures answered == |handled| || (!open && answered == |handled| - 1 && sendBuffer[sentBytes..] != [])
      ensures old(handled) <= handled && old(transport.written) <= transport.written
      ensures transport.received + Stream(transport.inbound) == old(transport.received + Stream(transport.inbound))
    {
      hide Stream, Weight, Answers;
      open, more := true, true;
      var r := transport.Recv(ENTER_ORDER_SIZE - receivedBytes);
      if r.Got? {
        MoreBytes(old(transport.received), r.bytes);
        Store(r.bytes);
        if receivedBytes == ENTER_ORDER_SIZE {
          assert receiveBuffer[..receivedBytes] == receiveBuffer[..];
          open := HandleFrame();
          more := open;
        }
      } else if r.ReadBlocked? {
        more := false;
        if transport.tls {
          open := transport.UpdateEvents();
        }
      } else if transport.tls || r.ReadEnded? {
        open, more := false, false;
      }
    }

    /**
     Reads until the transport blocks, handling each frame as it completes. False means close: because
     the transport broke, the input ended, or the last frame failed.
     */
    method HandleClientReadable() returns (open: bool)
      requires Open()
      modifies this`receivedBytes, this`sendBuffer, this`sentBytes, this`handled, this`answered
      modifies transport, receiveBuffer
      ensures transport.receives > old(transport.receives) && transport.sends >= old(transport.sends)
      ensures open <==> !transport.Broken() && transport.lastRead.ReadBlocked?
      ensures !open && transport.lastRead.Got? ==> transport.Broken() || FrameFailed()
      ensures open ==> Open()
      ensures Framed() && Queued()
      ensures answered == |handled| || (!open && answered == |handled| - 1 && sendBuffer[sentBytes..] != [])
      ensures old(handled) <= handled && old(transport.written) <= transport.written
      ensures transport.received + Stream(transport.inbound) == old(transport.received + Stream(transport.inbound))
    {
      hide Stream, Weight, Answers, Framed, Transport.Broken;
      var more: bool;
      open, more := ReadOnce();
      while more
        invariant transport.receives > old(transport.receives) && transport.sends >= old(transport.sends)
        invariant more ==> open
        invariant !more ==> (open <==> !transport.Broken() && transport.lastRead.ReadBlocked?)
        invariant !open && transport.lastRead.Got? ==> transport.Broken() || FrameFailed()
        invariant open ==> Open()
        invariant Framed() && Queued()
        invariant answered == |handled| || (!open && answered == |handled| - 1 && sendBuffer[sentBytes..] != [])
        invariant old(handled) <= handled && old(transport.written) <= transport.written
        invariant transport.received + Stream(transport.inbound) == old(transport.received + Stream(transport.inbound))
        decreases Weight(transport.inbound), more
      {
        open, more := ReadOnce();
      }
    }

    /** Serves one readiness event, the write before the read. */
    method ServeEvent(event: Ready) returns (open: bool)
      requires Open()
      modifies this`receivedBytes, this`sendBuffer, this`sentBytes, this`handled, this`answered
      modifies transport, receiveBuffer
      ensures open ==> Open()
      ensures event.writable && old(sendBuffer) != [] ==> transport.sends > old(transport.sends)
      ensures open && event.readable ==> transport.receives > old(transport.receives) && transport.lastRead.ReadBlocked?
      ensures open ==> transport.receives >= old(transport.receives)
      ensures Framed() && Queued()
      ensures answered == |handled| || (!open && answered == |handled| - 1 && sendBuffer[sentBytes..] != [])
      ensures old(handled) <= handled && old(transport.written) <= transport.written
      ensures transport.received + Stream(transport.inbound) == old(transport.received + Stream(transport.inbound))
    {
      hide Stream, Answers, Framed, Queued;
      open := true;
      if event.writable && sendBuffer != [] {
        open := Flush();
      }
      if open && event.readable {
        open := HandleClientReadable();
      }
    }

    /** Serves readiness events until the connection is to be closed. */
    method Serve(events: seq<Ready>) returns (open: bool)
      requires Open()
      modifies this`receivedBytes, this`sendBuffer, this`sentBytes, this`handled, this`answered
      modifies transport, receiveBuffer
      ensures open ==> Open() && transport.receives >= old(transport.receives) + Readable(events)
      ensures Framed() && Queued()
      ensures answered == |handled| || (!open && answered == |handled| - 1 && sendBuffer[sentBytes..] != [])
      ensures old(handled) <= handled && old(transport.written) <= transport.written
      ensures transport.received + Stream(transport.inbound) == old(transport.received + Stream(transport.inbound))
    {
      hide Stream, Answers, Framed, Queued;
      open := true;
      for i := 0 to |events|
        invariant open && Open() && transport.receives >= old(transport.receives) + Readable(events[..i])
        invariant old(handled) <= handled && old(transport.written) <= transport.written
        invariant transport.received + Stream(transport.inbound) == old(transport.received + Stream(transport.inbound))
      {
        open := ServeEvent(events[i]);
        if !open {
          return;
        }
        assert events[..i + 1][..i] == events[..i];
      }
      assert events[..|events|] == events;
    }

    /** A write event: sends what waits and leaves reading alone. */
    method Flush() returns (open: bool)
      requires Open() && sendBuffer != []
      modifies this`sendBuffer, this`sentBytes, transport`outbound, transport`written, transport`registrations
      modifies transport`sends, transport`lastWrite, transport`registered
      ensures open ==> Open()
      ensures open <==> !transport.Broken()
      ensures Framed() && Queued() && answered == |handled|
      ensures old(transport.written) <= transport.written && transport.sends > old(transport.sends)
    {
      open := FlushPendingWrite();
    }
  }
}
