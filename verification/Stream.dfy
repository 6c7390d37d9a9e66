/**
 The stream transport: envelopes framed on a byte stream. A frame interrupted by a retryable error is resumed where it
 stopped, and a frame whose acknowledgement is late is sent again as a whole.
 */
module Stream {
  import opened Bits
  import opened Words
  import opened Storage
  import opened SlotCommit
  import opened SpoolFormat

  const MARK: seq<u8> := [0x4c, 0x53]
  const STREAM_VERSION: u8 := 1
  const FRAME_HEADER: nat := 8
  const FRAME_TRAILER: nat := 4

  // ---------------------------------------------------------------- frames

  function FrameHead(length: u32): (h: seq<u8>)
    ensures |h| == FRAME_HEADER && h[0] == 0x4c && h[1] == 0x53 && h[2] == STREAM_VERSION && h[3] == 0
    ensures ReadU32(h, 4) == length
  {
    var h := MARK + [STREAM_VERSION, 0] + U32Bytes(length);
    assert h[4..8] == U32Bytes(length);
    ReadU32Same(h, 4, U32Bytes(length), 0);
    h
  }

  function Frame(crc: Checksum, envelope: seq<u8>): (f: seq<u8>)
    requires |envelope| <= U32_MAX
    ensures |f| == FRAME_HEADER + |envelope| + FRAME_TRAILER
  {
    FrameHead(|envelope|) + envelope + U32Bytes(crc(envelope))
  }

  /** The parts of a frame, whatever follows it. */
  lemma FrameParts(crc: Checksum, envelope: seq<u8>, b: seq<u8>)
    requires |envelope| <= U32_MAX && Frame(crc, envelope) <= b
    ensures b[0] == 0x4c && b[1] == 0x53 && b[2] == STREAM_VERSION && b[3] == 0 && ReadU32(b, 4) == |envelope|
    ensures b[FRAME_HEADER..FRAME_HEADER + |envelope|] == envelope
    ensures ReadU32(b, FRAME_HEADER + |envelope|) == crc(envelope)
  {
    var f := Frame(crc, envelope);
    var n := |envelope|;
    assert b[..FRAME_HEADER] == f[..FRAME_HEADER] == FrameHead(n);
    ReadU32Same(b, 4, FrameHead(n), 4);
    assert b[FRAME_HEADER..FRAME_HEADER + n] == f[FRAME_HEADER..FRAME_HEADER + n] == envelope;
    assert b[FRAME_HEADER + n..FRAME_HEADER + n + 4] == f[FRAME_HEADER + n..] == U32Bytes(crc(envelope));
    ReadU32Same(b, FRAME_HEADER + n, U32Bytes(crc(envelope)), 0);
  }

  /** The one-shot parser of a complete frame. */
  function ParseFrame(crc: Checksum, validate: seq<u8> -> Option<Info>, maximum: nat, b: seq<u8>): (Status, seq<u8>) {
    if |b| < FRAME_HEADER + FRAME_TRAILER then (Einval, [])
    else if b[0] != 0x4c || b[1] != 0x53 then (Ecorrupt, [])
    else if b[2] != STREAM_VERSION || b[3] != 0 then (Enotsup, [])
    else
      var n := ReadU32(b, 4);
      if n > maximum then (Enospace, [])
      else if n != |b| - FRAME_HEADER - FRAME_TRAILER then (Ecorrupt, [])
      else
        var envelope := b[FRAME_HEADER..FRAME_HEADER + n];
        if ReadU32(b, FRAME_HEADER + n) != crc(envelope) || validate(envelope).None? then (Ecorrupt, [])
          else (Ok, envelope)
  }

  /** It accepts exactly the frames of valid envelopes within the maximum, and returns the envelope. */
  lemma ParseFrameIs(crc: Checksum, validate: seq<u8> -> Option<Info>, maximum: nat, b: seq<u8>, envelope: seq<u8>)
    requires maximum <= U32_MAX
    ensures ParseFrame(crc, validate, maximum, b) == (Ok, envelope) <==>
      |envelope| <= maximum && validate(envelope).Some? && b == Frame(crc, envelope)
  {
    hide ReadU32, U32Bytes;
    if |envelope| <= maximum && validate(envelope).Some? && b == Frame(crc, envelope) {
      FrameParts(crc, envelope, b);
    }
    if ParseFrame(crc, validate, maximum, b) == (Ok, envelope) {
      var n := |envelope|;
      BytesOfRead(b, 4);
      BytesOfRead(b, FRAME_HEADER + n);
      HeadIs(b, n);
      assert b == b[..FRAME_HEADER] + envelope + b[FRAME_HEADER + n..FRAME_HEADER + n + 4];
    }
  }

  lemma HeadIs(b: seq<u8>, n: u32)
    requires |b| >= FRAME_HEADER && b[0] == 0x4c && b[1] == 0x53 && b[2] == STREAM_VERSION && b[3] == 0
    requires b[4..8] == U32Bytes(n)
    ensures b[..FRAME_HEADER] == FrameHead(n)
  {
    hide U32Bytes, ReadU32;
    assert b[..FRAME_HEADER] == [b[0], b[1], b[2], b[3]] + b[4..8];
  }

  // ---------------------------------------------------------------- the sender

  predicate Retryable(s: Status) {
    s == Eagain || s == Ebusy
  }

  /**
   The answers of the port during one call: to the three writes, and to waiting for the acknowledgement if configured.
   */
  datatype Port = Port(head: Status, payload: Status, trailer: Status, ack: Option<Status>)

  /** The port takes every write, and acknowledges if it is asked to. */
  predicate Willing(p: Port) {
    p.head == p.payload == p.trailer == Ok && (p.ack.Some? ==> p.ack.value == Ok)
  }

  predicate Fatal(s: Status) {
    s != Ok && !Retryable(s)
  }

  /** Frames in a row. */
  function Wire(crc: Checksum, envelopes: seq<seq<u8>>): seq<u8>
    requires forall e :: e in envelopes ==> |e| <= U32_MAX
  {
    if envelopes == [] then [] else Wire(crc, envelopes[..|envelopes| - 1]) + Frame(crc, envelopes[|envelopes| - 1])
  }

  lemma WireNext(crc: Checksum, envelopes: seq<seq<u8>>, e: seq<u8>)
    requires (forall x :: x in envelopes ==> |x| <= U32_MAX) && |e| <= U32_MAX
    ensures forall x :: x in envelopes + [e] ==> |x| <= U32_MAX
    ensures Wire(crc, envelopes + [e]) == Wire(crc, envelopes) + Frame(crc, e)
  {
    assert (envelopes + [e])[..|envelopes|] == envelopes;
  }

  /** The first k bytes of a frame. */
  function Begun(crc: Checksum, e: seq<u8>, k: nat): (part: seq<u8>)
    requires |e| <= U32_MAX && k <= FRAME_HEADER + |e| + FRAME_TRAILER
    ensures |part| == k
  {
    Frame(crc, e)[..k]
  }

  lemma BegunGrows(crc: Checksum, e: seq<u8>)
    requires |e| <= U32_MAX
    ensures Begun(crc, e, 0) == [] && Begun(crc, e, FRAME_HEADER) == FrameHead(|e|)
    ensures Begun(crc, e, FRAME_HEADER + |e|) == FrameHead(|e|) + e
    ensures Frame(crc, e) == Begun(crc, e, FRAME_HEADER + |e|) + U32Bytes(crc(e))
  {
    hide U32Bytes, FrameHead, ReadU32;
  }

  class Sender {
    const crc: Checksum
    const validate: seq<u8> -> Option<Info>
    const maximum: u32
    var pending: bool
    var pendingEvent: u32
    var pendingCrc: u32
    var pendingLength: nat
    var headOffset: nat
    var payloadOffset: nat
    var trailerOffset: nat
    var awaitingAck: bool
    var wire: seq<u8>                    // every byte written so far
    ghost var base: seq<u8>              // the bytes up to the last torn frame, which is part of them
    ghost var delivered: seq<seq<u8>>    // the envelopes whose frames are complete on the wire since then
    ghost var current: seq<u8>           // the envelope whose frame is pending

    predicate Good(e: seq<u8>) {
      |e| <= maximum && validate(e).Some?
    }

    /** The pending fields identify the current envelope. */
    ghost predicate Identified()
      reads this
    {
      && Good(current) && pendingLength == |current| && pendingCrc == crc(current)
      && pendingEvent == validate(current).value.eventId
    }

    /** How much of the pending frame is on the wire. */
    ghost function Progress(): nat
      reads this
    {
      if payloadOffset > 0 then FRAME_HEADER + payloadOffset else headOffset
    }

    ghost predicate Offsets()
      reads this
    {
      && headOffset in {0, FRAME_HEADER} && payloadOffset in {0, pendingLength} && trailerOffset == 0
      && (payloadOffset > 0 ==> headOffset == FRAME_HEADER)
    }

    ghost predicate AllGood()
      reads this`delivered
    {
      forall e :: e in delivered ==> |e| <= maximum && validate(e).Some?
    }

    /** What is on the wire before the pending frame. */
    ghost function Complete(): (bytes: seq<u8>)
      reads this`base, this`delivered
      requires AllGood()
      ensures |bytes| >= |base|
    {
      base + Wire(crc, delivered)
    }

    /** Since the last torn frame, the wire carries whole frames and then a prefix of the pending one. */
    ghost predicate Valid()
      reads this
    {
      && !awaitingAck && AllGood()
      && (pending ==> Identified() && Offsets() && wire == Complete() + Begun(crc, current, Progress()))
      && (!pending ==> wire == Complete())
    }

    constructor (checksum: Checksum, check: seq<u8> -> Option<Info>, most: u32)
      ensures Valid() && !pending && base == [] && delivered == [] && crc == checksum && validate == check
      ensures maximum == most
    {
      crc, validate, maximum := checksum, check, most;
      pending, pendingEvent, pendingCrc, pendingLength := false, 0, 0, 0;
      headOffset, payloadOffset, trailerOffset, awaitingAck := 0, 0, 0, false;
      wire, base, delivered, current := [], [], [], [];
    }

    /** A call of `send` with this envelope would resume the pending frame. */
    predicate Resumes(data: seq<u8>)
      reads this
    {
      && pending && validate(data).Some? && pendingEvent == validate(data).value.eventId
      && pendingLength == |data| && pendingCrc == crc(data)
    }

    /** The envelope whose frame a call with this envelope writes. */
    ghost function Framed(data: seq<u8>): seq<u8>
      reads this
    {
      if Resumes(data) && payloadOffset > 0 then current else data
    }

    /** A fatal error hits the payload or the trailer, with the head of the frame already on the wire. */
    predicate Tears(data: seq<u8>, port: Port)
      reads this
    {
      var head := if pending then headOffset else 0;
      var payload := if pending then payloadOffset else 0;
      && Good(data) && (!pending || Resumes(data)) && (head == FRAME_HEADER || port.head == Ok)
      && if payload < |data| then Fatal(port.payload) || (port.payload == Ok && Fatal(port.trailer))
        else Fatal(port.trailer)
    }

    /** How much of the frame such an error leaves on the wire. */
    function TornAt(data: seq<u8>, port: Port): nat
      reads this
    {
      if (if pending then payloadOffset else 0) < |data| && Fatal(port.payload) then FRAME_HEADER
        else FRAME_HEADER + |data|
    }

    /** The first answer of the port that is not Ok, to what is still to be written and to the wait. */
    function Answer(data: seq<u8>, port: Port): Status
      reads this
    {
      if (if pending then headOffset else 0) < FRAME_HEADER && port.head != Ok then port.head
      else if (if pending then payloadOffset else 0) < |data| && port.payload != Ok then port.payload
      else if port.trailer != Ok then port.trailer
      else if port.ack.Some? then port.ack.value
      else Ok
    }

    /**
     Sends an envelope, or resumes sending it. The wire keeps its form whatever the port answers, and a frame is torn
     exactly when a fatal error hits it after its head; success means that the frame is complete on the wire. That frame
     is of the envelope given unless another one with the same event, length and checksum has its payload on the wire
     already.
     */
    method Send(data: seq<u8>, port: Port) returns (status: Status)
      requires Valid()
      modifies this
      ensures Valid() && (base == old(base) <==> !old(Tears(data, port))) && old(wire) <= wire
      ensures old(Tears(data, port)) ==>
        && Fatal(status) && !pending && base == wire && delivered == []
        && wire == old(Complete()) + Begun(crc, old(Framed(data)), old(TornAt(data, port)))
      ensures |data| > maximum ==> status == Enospace && wire == old(wire)
      ensures |data| <= maximum && validate(data).None? ==> status == Ecorrupt && wire == old(wire)
      ensures !old(Tears(data, port)) ==>
        delivered == old(delivered) || delivered == old(delivered) + [old(Framed(data))]
      ensures status == Ok ==> !pending && delivered == old(delivered) + [old(Framed(data))]
      ensures old(pending) && !old(Resumes(data)) ==>
        status != Ok && wire == old(wire) && current == old(current) && pending && (Good(data) ==> status == Ebusy)
      ensures Good(data) && (old(pending) ==> old(Resumes(data))) ==> status == old(Answer(data, port))
      ensures Good(data) && (old(pending) ==> old(Resumes(data))) ==>
        && (status in {Eagain, Ebusy} ==> pending && current == old(Framed(data)))
        && (status !in {Eagain, Ebusy} ==> !pending)
      ensures pending ==> current == data || (old(pending) && current == old(current))
      ensures delivered != old(delivered) ==> Good(data)
      ensures Willing(port) && Good(data) && (old(pending) ==> old(Resumes(data))) ==> status == Ok
    {
      hide U32Bytes, ReadU32, Frame, Wire, Begun, FrameHead, AllGood, Complete;
      if |data| > maximum {
        return Enospace;
      }
      if validate(data).None? {
        return Ecorrupt;
      }
      var info := validate(data).value;
      var sum := crc(data);
      if pending && (pendingEvent != info.eventId || pendingLength != |data| || pendingCrc != sum) {
        return Ebusy;
      }
      if !pending {
        Begin(data, info.eventId, sum);
      } else {
        Resume(data);
      }
      status := Transmit(data, sum, port);
    }

    /** Writes the rest of the pending frame, waits for the acknowledgement and releases the frame. */
    method Transmit(data: seq<u8>, sum: u32, port: Port) returns (status: Status)
      requires Valid() && pending && Continues(data) && sum == crc(current)
      modifies this
      ensures Valid() && current == old(current) && (base == old(base) <==> !old(Tears(data, port)))
      ensures old(wire) <= wire
      ensures old(Tears(data, port)) ==>
        && Fatal(status) && !pending && base == wire && delivered == []
        && wire == old(Complete()) + Begun(crc, current, old(TornAt(data, port)))
      ensures !old(Tears(data, port)) ==> delivered == old(delivered) || delivered == old(delivered) + [current]
      ensures status == Ok ==> !pending && delivered == old(delivered) + [current]
      ensures pending == Retryable(status) && (Willing(port) ==> status == Ok) && status == old(Answer(data, port))
    {
      hide U32Bytes, ReadU32, Frame, Wire, Begun, FrameHead, AllGood, Complete;
      status := WriteFrame(data, sum, port);
      if status == Ok && port.ack.Some? {
        awaitingAck := true;
        status := port.ack.value;
      }
      Release(status);
      if wire != Complete() && !pending {
        StartAfter();
      }
    }

    /** What is on the wire ends with a torn frame. */
    ghost method StartAfter()
      requires !pending && !awaitingAck
      modifies this`base, this`delivered
      ensures Valid() && base == wire && delivered == []
    {
      base, delivered := wire, [];
      assert wire + Wire(crc, []) == wire;
    }

    method Begin(data: seq<u8>, event: u32, sum: u32)
      requires Valid() && !pending && Good(data) && event == validate(data).value.eventId && sum == crc(data)
      modifies this`pending, this`pendingEvent, this`pendingCrc, this`pendingLength, this`headOffset,
               this`payloadOffset, this`trailerOffset, this`awaitingAck, this`current
      ensures Valid() && pending && current == data && headOffset == 0 && payloadOffset == 0
    {
      hide U32Bytes, ReadU32, FrameHead, Frame, Wire, Begun, AllGood, Complete;
      SetPending(data, event, sum);
      BegunGrows(crc, data);
      assert Complete() + [] == Complete();
    }

    method SetPending(data: seq<u8>, event: u32, sum: u32)
      modifies this`pending, this`pendingEvent, this`pendingCrc, this`pendingLength, this`headOffset,
               this`payloadOffset, this`trailerOffset, this`awaitingAck, this`current
      ensures pending && !awaitingAck && pendingEvent == event && pendingCrc == sum && pendingLength == |data|
      ensures current == data
      ensures headOffset == payloadOffset == trailerOffset == 0
    {
      pendingEvent, pendingCrc, pendingLength := event, sum, |data|;
      headOffset, payloadOffset, trailerOffset, pending, awaitingAck := 0, 0, 0, true, false;
      current := data;
    }

    /** What is still to be written of the payload is that of this envelope. */
    ghost predicate Continues(data: seq<u8>)
      reads this
    {
      Good(data) && |data| == |current| && (payloadOffset == 0 ==> data == current) && (pending ==> Resumes(data))
    }

    /** Going on with a frame whose payload is not on the wire yet makes it a frame of this envelope. */
    ghost method Resume(data: seq<u8>)
      requires Valid() && Resumes(data) && |data| <= maximum
      modifies this`current
      ensures Valid() && current == old(Framed(data))
    {
      hide U32Bytes, ReadU32, FrameHead, Frame, Wire, Begun, AllGood, Complete;
      BegunGrows(crc, current);
      BegunGrows(crc, data);
      if payloadOffset == 0 {
        current := data;
      }
    }

    /** Writes what is missing of the pending frame. */
    method WriteFrame(data: seq<u8>, sum: u32, port: Port) returns (status: Status)
      requires Valid() && pending && Continues(data) && sum == crc(current)
      modifies this`headOffset, this`payloadOffset, this`trailerOffset, this`wire, this`delivered
      ensures old(wire) <= wire
      ensures status == Ok ==> AllGood() && delivered == old(delivered) + [current] && wire == Complete()
      ensures status != Ok ==> Valid() && delivered == old(delivered)
      ensures Willing(port) ==> status == Ok
      ensures old(Answer(data, port)) == if status == Ok && port.ack.Some? then port.ack.value else status
      ensures Fatal(status) && wire != Complete() <==> old(Tears(data, port))
      ensures old(Tears(data, port)) ==> wire == Complete() + Begun(crc, current, old(TornAt(data, port)))
    {
      hide U32Bytes, ReadU32, Wire, FrameHead, Frame, Begun, Complete;
      BegunGrows(crc, current);
      status := WriteHead(data, port);
      if status != Ok {
        return;
      }
      status := WritePayload(data, port);
      if status != Ok {
        return;
      }
      status := WriteTrailer(data, sum, port);
    }

    method WriteHead(data: seq<u8>, port: Port) returns (status: Status)
      requires Valid() && pending && Continues(data)
      modifies this`headOffset, this`wire
      ensures Valid() && Continues(data) && old(wire) <= wire
      ensures status == if old(headOffset) < FRAME_HEADER then port.head else Ok
      ensures if status == Ok then headOffset == FRAME_HEADER else wire == Complete()
    {
      hide U32Bytes, ReadU32, Wire, FrameHead, Frame, Begun, Complete;
      BegunGrows(crc, current);
      assert Complete() + [] == Complete();
      status := Ok;
      if headOffset < FRAME_HEADER {
        status := port.head;
        if status != Ok {
          return;
        }
        wire := wire + FrameHead(|data|)[headOffset..];
        headOffset := FRAME_HEADER;
      }
    }

    method WritePayload(data: seq<u8>, port: Port) returns (status: Status)
      requires Valid() && pending && Continues(data) && headOffset == FRAME_HEADER
      modifies this`payloadOffset, this`wire
      ensures Valid() && old(wire) <= wire && wire != Complete()
      ensures status == if old(payloadOffset) < |data| then port.payload else Ok
      ensures status == Ok ==> wire == Complete() + Begun(crc, current, FRAME_HEADER + |data|)
      ensures status != Ok ==> wire == Complete() + Begun(crc, current, FRAME_HEADER)
    {
      hide U32Bytes, ReadU32, Wire, FrameHead, Frame, Begun;
      ghost var before := Complete();
      BegunGrows(crc, current);
      status := Ok;
      if payloadOffset < |data| {
        assert wire == before + FrameHead(|data|);
        status := port.payload;
        if status == Ok {
          wire := wire + data[payloadOffset..];
          payloadOffset := |data|;
          assert wire == before + (FrameHead(|data|) + data);
        }
      }
      assert |wire| > |before|;
    }

    method WriteTrailer(data: seq<u8>, sum: u32, port: Port) returns (status: Status)
      requires Valid() && pending && |data| == |current| && sum == crc(current)
      requires wire == Complete() + Begun(crc, current, FRAME_HEADER + |data|)
      modifies this`trailerOffset, this`wire, this`delivered
      ensures old(wire) <= wire && status == port.trailer
      ensures status == Ok ==> AllGood() && delivered == old(delivered) + [current] && wire == Complete()
      ensures status != Ok ==> Valid() && delivered == old(delivered) && wire == old(wire)
    {
      hide U32Bytes, ReadU32, Wire, FrameHead, Frame, Begun;
      ghost var before := Complete();
      BegunGrows(crc, current);
      ghost var was := delivered;
      WireNext(crc, delivered, current);
      status := port.trailer;
      if status != Ok {
        return;
      }
      assert U32Bytes(sum)[0..] == U32Bytes(sum);
      wire := wire + U32Bytes(sum)[trailerOffset..];
      trailerOffset := FRAME_TRAILER;
      delivered := delivered + [current];
      assert wire == before + (Begun(crc, current, FRAME_HEADER + |data|) + U32Bytes(sum));
      assert base + (Wire(crc, was) + Frame(crc, current)) == before + Frame(crc, current);
    }

    /**
     Ends a call. A retryable failure keeps the frame pending, from its start if it was complete already; success and
     fatal errors drop it.
     */
    method Release(status: Status)
      requires pending && AllGood()
      requires if awaitingAck || status == Ok then Identified() && wire == Complete() else Valid()
      modifies this`pending, this`pendingEvent, this`pendingCrc, this`pendingLength, this`headOffset,
               this`payloadOffset, this`trailerOffset, this`awaitingAck
      ensures Retryable(status) ==> Valid() && pending
      ensures !Retryable(status) ==> !pending && !awaitingAck && wire == old(wire)
    {
      hide U32Bytes, ReadU32, FrameHead, Frame, Wire, Begun, AllGood, Complete;
      if Retryable(status) && awaitingAck {
        Rewind();
        BegunGrows(crc, current);
        assert Complete() + [] == Complete();
      } else if status == Ok || !Retryable(status) {
        ClearPending();
      }
    }

    method Rewind()
      modifies this`headOffset, this`payloadOffset, this`trailerOffset, this`awaitingAck
      ensures headOffset == payloadOffset == trailerOffset == 0 && !awaitingAck
    {
      headOffset, payloadOffset, trailerOffset, awaitingAck := 0, 0, 0, false;
    }

    method ClearPending()
      modifies this`pending, this`pendingEvent, this`pendingCrc, this`pendingLength, this`headOffset,
               this`payloadOffset, this`trailerOffset, this`awaitingAck
      ensures !pending && !awaitingAck
    {
      pending, pendingEvent, pendingCrc, pendingLength := false, 0, 0, 0;
      headOffset, payloadOffset, trailerOffset, awaitingAck := 0, 0, 0, false;
    }
  }
}
