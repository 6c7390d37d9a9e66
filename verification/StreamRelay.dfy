/**
 From end to end: what a device sends over the stream transport, through a port that may refuse any write or
 acknowledgement for now, is what the collector's parser returns.
 */
module StreamRelay {
  import opened Bits
  import opened Storage
  import opened SlotCommit
  import opened Stream
  import opened StreamParser

  /** One call of the sender, with the answers of the port. */
  datatype Call = Call(data: seq<u8>, port: Port)

  /** The port fails for now at worst. */
  predicate Gentle(p: Port) {
    !Fatal(p.head) && !Fatal(p.payload) && !Fatal(p.trailer)
  }

  /** Event, length and checksum identify an envelope among those sent. */
  ghost predicate Distinguishes(p: Setup, script: seq<Call>) {
    forall i, j :: 0 <= i < |script| && 0 <= j < |script| && SameIdentity(p, script[i].data, script[j].data) ==>
      script[i].data == script[j].data
  }

  predicate SameIdentity(p: Setup, a: seq<u8>, b: seq<u8>) {
    && p.validate(a).Some? && p.validate(b).Some? && p.validate(a).value.eventId == p.validate(b).value.eventId
    && |a| == |b| && p.crc(a) == p.crc(b)
  }

  /** The envelopes of the frames that the calls completed. */
  function Kept(sent: seq<Option<seq<u8>>>): seq<seq<u8>> {
    if sent == [] then [] else Kept(sent[..|sent| - 1]) + Listed(sent[|sent| - 1])
  }

  function Listed(e: Option<seq<u8>>): seq<seq<u8>> {
    if e.Some? then [e.value] else []
  }

  lemma KeptNext(sent: seq<Option<seq<u8>>>, e: Option<seq<u8>>)
    ensures Kept(sent + [e]) == Kept(sent) + Listed(e)
  {
    assert (sent + [e])[..|sent|] == sent;
  }

  /**
   What a call may complete a frame of: an envelope passed so far that the sender cannot tell from the one of the call.
   */
  ghost predicate SentFor(p: Setup, script: seq<Call>, k: nat, e: seq<u8>)
    requires k < |script|
  {
    SameIdentity(p, e, script[k].data) && exists j :: 0 <= j <= k && script[j].data == e
  }

  /** Where envelopes can be told apart it is the envelope of the call. */
  lemma SentIsGiven(p: Setup, script: seq<Call>, k: nat, e: seq<u8>)
    requires k < |script| && Distinguishes(p, script) && SentFor(p, script, k, e)
    ensures e == script[k].data
  {
  }

  /** The wire carries the frames of these envelopes and a part, not the whole, of one more frame. */
  ghost predicate OnWire(p: Setup, wire: seq<u8>, envelopes: seq<seq<u8>>) {
    && (forall e :: e in envelopes ==> |e| <= p.maximum && p.validate(e).Some?)
    && exists e, n: nat :: PartOf(p, wire, envelopes, e, n)
  }

  ghost predicate PartOf(p: Setup, wire: seq<u8>, envelopes: seq<seq<u8>>, e: seq<u8>, n: nat)
    requires forall x :: x in envelopes ==> |x| <= p.maximum
  {
    |e| <= p.maximum && n < FRAME_HEADER + |e| + FRAME_TRAILER && wire == Wire(p.crc, envelopes) + Begun(p.crc, e, n)
  }

  /** The pending frame is of an envelope passed before. */
  ghost predicate Known(s: Sender, script: seq<Call>, n: nat)
    requires n <= |script|
    reads s
  {
    s.pending ==> exists j :: 0 <= j < n && script[j].data == s.current
  }

  ghost predicate Uses(s: Sender, p: Setup) {
    s.crc == p.crc && s.validate == p.validate && s.maximum == p.maximum
  }

  /** One call; sent gives the envelope whose frame it completed. */
  method SendOne(s: Sender, p: Setup, script: seq<Call>, i: nat) returns (status: Status, ghost sent: Option<seq<u8>>)
    requires s.Valid() && s.base == [] && Uses(s, p) && i < |script| && Gentle(script[i].port) && Known(s, script, i)
    modifies s
    ensures s.Valid() && s.base == [] && Known(s, script, i + 1) && s.delivered == old(s.delivered) + Listed(sent)
    ensures (status == Ok ==> sent.Some?) && (sent.Some? ==> SentFor(p, script, i, sent.value))
  {
    hide Sender.Complete, Wire, Begun;
    ghost var before := s.delivered;
    ghost var e := s.Framed(script[i].data);
    GentleKeeps(s, script[i]);
    status := s.Send(script[i].data, script[i].port);
    sent := if s.delivered != before then Some(e) else None;
    assert before + [] == before;
    assert script[i].data == script[i].data;
  }

  /** Runs the sender; wires gives what is on the wire after each call. */
  method SendAll(s: Sender, p: Setup, script: seq<Call>)
      returns (log: seq<Status>, wires: seq<seq<u8>>, ghost sent: seq<Option<seq<u8>>>)
    requires s.Valid() && !s.pending && s.base == [] && s.delivered == [] && Uses(s, p)
    requires forall c :: c in script ==> Gentle(c.port)
    modifies s
    ensures s.Valid() && s.base == [] && |log| == |script| == |sent| && s.delivered == Kept(sent)
    ensures forall k :: 0 <= k < |script| && log[k] == Ok ==> sent[k].Some?
    ensures forall k :: 0 <= k < |script| && sent[k].Some? ==> SentFor(p, script, k, sent[k].value)
    ensures |wires| == |script| && (forall k :: 0 <= k < |script| ==> OnWire(p, wires[k], Kept(sent[..k + 1])))
    ensures s.wire == if script == [] then [] else wires[|script| - 1]
  {
    hide Kept, Sender.Valid, OnWire, SentFor, Gentle, Listed;
    log, wires, sent := [], [], [];
    StartsBlank(s);
    KeptNone();
    var i := 0;
    while i < |script|
      invariant 0 <= i <= |script| && |log| == |sent| == |wires| == i && s.Valid() && s.base == []
      invariant Known(s, script, i)
      invariant s.delivered == Kept(sent) && s.wire == if i == 0 then [] else wires[i - 1]
      invariant forall k :: 0 <= k < i && log[k] == Ok ==> sent[k].Some?
      invariant forall k :: 0 <= k < i && sent[k].Some? ==> SentFor(p, script, k, sent[k].value)
      invariant forall k :: 0 <= k < i ==> OnWire(p, wires[k], Kept(sent[..k + 1]))
    {
      var status;
      ghost var one;
      status, one := SendOne(s, p, script, i);
      KeptNext(sent, one);
      WireIs(s, p);
      ghost var sofar := sent;
      log, wires, sent := log + [status], wires + [s.wire], sent + [one];
      assert sent[..i + 1] == sent;
      forall k | 0 <= k < i ensures OnWire(p, wires[k], Kept(sent[..k + 1])) {
        assert sent[..k + 1] == sofar[..k + 1];
      }
      i := i + 1;
    }
  }

  lemma StartsBlank(s: Sender)
    requires s.Valid() && !s.pending && s.base == [] && s.delivered == []
    ensures s.wire == []
  {
  }

  lemma WireIs(s: Sender, p: Setup)
    requires s.Valid() && s.base == [] && Uses(s, p)
    ensures OnWire(p, s.wire, s.delivered)
  {
    hide Wire, Begun, Frame;
    assert s.Complete() == Wire(p.crc, s.delivered);
    if s.pending {
      assert PartOf(p, s.wire, s.delivered, s.current, s.Progress());
    } else {
      BegunGrows(p.crc, []);
      assert s.wire + [] == s.wire;
      assert PartOf(p, s.wire, s.delivered, [], 0);
    }
  }

  lemma KeptNone()
    ensures Kept([]) == []
  {
  }

  lemma GentleKeeps(s: Sender, c: Call)
    requires Gentle(c.port)
    ensures !s.Tears(c.data, c.port)
  {
  }

  /** Cuts a stream into chunks of the given sizes, the rest last. */
  method Chop(wire: seq<u8>, sizes: seq<nat>) returns (chunks: seq<seq<u8>>)
    ensures Joined(chunks) == wire
  {
    chunks := [];
    var at, i := 0, 0;
    while i < |sizes|
      invariant 0 <= i <= |sizes| && at <= |wire| && Joined(chunks) == wire[..at]
    {
      var end := if at + sizes[i] < |wire| then at + sizes[i] else |wire|;
      assert (chunks + [wire[at..end]])[..|chunks|] == chunks;
      chunks := chunks + [wire[at..end]];
      at := end;
      i := i + 1;
    }
    assert (chunks + [wire[at..]])[..|chunks|] == chunks;
    chunks := chunks + [wire[at..]];
  }

  /**
   Sends envelopes through a port that may refuse for now, and feeds what it wrote to the parser in chunks of any size:
   the parser returns exactly the envelopes whose frames were completed, in order and byte for byte, and among them
   every one whose call succeeded. A call that failed is among them exactly if the wire held its whole frame after it.
   Where event, length and checksum tell the envelopes apart, each frame is of the envelope of its call.
   */
  method Relay(p: Setup, script: seq<Call>, sizes: seq<nat>)
      returns (log: seq<Status>, wires: seq<seq<u8>>, frames: seq<seq<u8>>, ghost sent: seq<Option<seq<u8>>>)
    requires p.maximum >= 28 && forall c :: c in script ==> Gentle(c.port)
    ensures |log| == |wires| == |sent| == |script| && frames == Kept(sent)
    ensures forall k :: 0 <= k < |script| && log[k] == Ok ==> sent[k].Some?
    ensures forall k :: 0 <= k < |script| && sent[k].Some? ==> SentFor(p, script, k, sent[k].value)
    ensures Distinguishes(p, script) ==>
      forall k :: 0 <= k < |script| && sent[k].Some? ==> sent[k].value == script[k].data
    ensures forall k :: 0 <= k < |script| ==> OnWire(p, wires[k], Kept(sent[..k + 1]))
  {
    hide Kept, Scan, Distinguishes, OnWire, SentFor, Sender.Valid, Gentle;
    var s := new Sender(p.crc, p.validate, p.maximum);
    log, wires, sent := SendAll(s, p, script);
    var chunks := Chop(s.wire, sizes);
    var parser := new Parser(p);
    WireScans(s, p);
    FramesOfEnvelopes(s.delivered);
    ghost var calls;
    frames, calls := FeedAll(parser, chunks);
    if Distinguishes(p, script) {
      forall k | 0 <= k < |script| && sent[k].Some? ensures sent[k].value == script[k].data {
        SentIsGiven(p, script, k, sent[k].value);
      }
    }
  }

  lemma WireScans(s: Sender, p: Setup)
    requires s.Valid() && s.base == [] && Uses(s, p)
    ensures Scan(p, s.wire).0 == Envelopes(s.delivered)
  {
    hide Scan, Wire, Begun;
    assert s.Complete() == Wire(p.crc, s.delivered);
    if s.pending {
      ScanWireAndMore(p, s.delivered, s.current, s.Progress());
    } else {
      ScanWire(p, s.delivered);
    }
  }

  /**
   A run in which a fatal error at the payload of one envelope makes the collector miss the next: it is sent with
   success, and the parser, fed everything on the wire, returns nothing.
   */
  method TornRun(p: Setup, torn: seq<u8>, e: seq<u8>) returns (first: Status, second: Status, frames: seq<seq<u8>>)
    requires p.maximum >= 28 && |torn| <= p.maximum && |e| <= p.maximum && p.validate(torn).Some? && p.validate(e).Some?
    requires |Frame(p.crc, e)| < |torn| + FRAME_TRAILER
    ensures Fatal(first) && second == Ok && frames == []
  {
    hide Scan, Frame, Sender.Valid;
    var s := new Sender(p.crc, p.validate, p.maximum);
    first, second := SendTorn(s, torn, e);
    TornFrameHides(p, torn, e);
    var parser := new Parser(p);
    ghost var calls;
    frames, calls := FeedAll(parser, [s.wire]);
    assert Joined([s.wire]) == s.wire;
  }

  method SendTorn(s: Sender, torn: seq<u8>, e: seq<u8>) returns (first: Status, second: Status)
    requires s.Valid() && !s.pending && s.base == [] && s.delivered == [] && s.Good(torn) && s.Good(e) && |torn| > 0
    modifies s
    ensures Fatal(first) && second == Ok && s.wire == FrameHead(|torn|) + Frame(s.crc, e)
  {
    hide Frame, Begun, Wire, FrameHead;
    first := s.Send(torn, Port(Ok, Eio, Ok, None));
    ghost var head := s.wire;
    second := s.Send(e, Port(Ok, Ok, Ok, None));
    TornWire(s.crc, torn, e, head, s.wire);
  }

  lemma TornWire(crc: Checksum, torn: seq<u8>, e: seq<u8>, head: seq<u8>, wire: seq<u8>)
    requires |torn| <= U32_MAX && |e| <= U32_MAX && head == [] + Wire(crc, []) + Begun(crc, torn, FRAME_HEADER)
    requires wire == head + Wire(crc, [] + [e])
    ensures wire == FrameHead(|torn|) + Frame(crc, e)
  {
    hide FrameHead, Frame;
    BegunGrows(crc, torn);
    assert [] + [e] == [e];
    assert Wire(crc, [e]) == Wire(crc, []) + Frame(crc, e);
  }
}
