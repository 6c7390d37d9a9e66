/**
 The collector's incremental parser: it looks for frames in a byte stream, resynchronises after garbage, and may be fed
 in chunks of any size.
 */
module StreamParser {
  import opened Bits
  import opened Words
  import opened Storage
  import opened SlotCommit
  import opened SpoolFormat
  import opened Stream

  datatype Setup = Setup(crc: Checksum, validate: seq<u8> -> Option<Info>, maximum: u32)

  /** What the parser makes of a frame whose checksum is right. */
  datatype Event = Envelope(bytes: seq<u8>) | Malformed(bytes: seq<u8>)

  // ---------------------------------------------------------------- reference

  /** The decision at the start of a non-empty stream. */
  datatype Look = Skip | Wait | Take(total: nat)

  function LookAt(p: Setup, b: seq<u8>): (k: Look)
    requires b != []
    ensures k.Take? ==> 12 <= k.total <= |b|
  {
    if b[0] != 0x4c then Skip
    else if |b| == 1 then Wait
    else if b[1] != 0x53 then Skip
    else if |b| < FRAME_HEADER then Wait
    else if b[2] != STREAM_VERSION || b[3] != 0 || ReadU32(b, 4) > p.maximum then Skip
    else if |b| < FRAME_HEADER + ReadU32(b, 4) + FRAME_TRAILER then Wait
    else Take(FRAME_HEADER + ReadU32(b, 4) + FRAME_TRAILER)
  }

  /** What is reported for a complete frame. */
  function Judge(p: Setup, frame: seq<u8>): seq<Event>
    requires |frame| >= 12
  {
    var envelope := frame[FRAME_HEADER..|frame| - FRAME_TRAILER];
    if ReadU32(frame, |frame| - FRAME_TRAILER) != p.crc(envelope) then []
    else if p.validate(envelope).Some? then [Envelope(envelope)]
    else [Malformed(envelope)]
  }

  /** The events of a stream and the bytes still undecided, byte by byte. */
  function Scan(p: Setup, b: seq<u8>): (r: (seq<Event>, seq<u8>)) {
    if b == [] then ([], [])
    else
      match LookAt(p, b)
      case Skip => Scan(p, b[1..])
      case Wait => ([], b)
      case Take(total) => (Judge(p, b[..total]) + Scan(p, b[total..]).0, Scan(p, b[total..]).1)
  }

  /** A decision once taken does not depend on what follows. */
  lemma LookStable(p: Setup, a: seq<u8>, b: seq<u8>)
    requires a != [] && !LookAt(p, a).Wait?
    ensures LookAt(p, a + b) == LookAt(p, a)
  {
    if |a| >= FRAME_HEADER {
      assert (a + b)[4..8] == a[4..8];
      ReadU32Same(a + b, 4, a, 4);
    }
  }

  /** Chunking does not matter: scanning may stop anywhere and go on with the undecided bytes. */
  lemma {:induction false} ScanAppend(p: Setup, a: seq<u8>, b: seq<u8>)
    ensures Scan(p, a + b).0 == Scan(p, a).0 + Scan(p, Scan(p, a).1 + b).0
    ensures Scan(p, a + b).1 == Scan(p, Scan(p, a).1 + b).1
    decreases |a|
  {
    hide LookAt, Judge;
    if a != [] {
      match LookAt(p, a)
      case Wait =>
      case Skip =>
        LookStable(p, a, b);
        assert (a + b)[1..] == a[1..] + b;
        ScanAppend(p, a[1..], b);
      case Take(total) =>
        LookStable(p, a, b);
        assert (a + b)[..total] == a[..total] && (a + b)[total..] == a[total..] + b;
        ScanAppend(p, a[total..], b);
    } else {
      assert a + b == b;
    }
  }

  // ---------------------------------------------------------------- garbage, damage and what is left

  /** A frame could start at position j: mark, version, flags, and a length within the maximum. */
  predicate HeadAt(p: Setup, b: seq<u8>, j: nat) {
    j + 8 <= |b| && b[j..j + 4] == [0x4c, 0x53, 1, 0] && ReadU32(b, j + 4) <= p.maximum
  }

  lemma HeadAhead(p: Setup, b: seq<u8>, j: nat)
    requires b != []
    ensures HeadAt(p, b[1..], j) <==> HeadAt(p, b, j + 1)
  {
    if j + 9 <= |b| {
      assert b[1..][j..j + 4] == b[j + 1..j + 5] && b[1..][j + 4..j + 8] == b[j + 5..j + 9];
      ReadU32Same(b[1..], j + 4, b, j + 5);
    }
  }

  /** Bytes at which no frame could start are skipped. */
  lemma {:induction false} SkipGarbage(p: Setup, b: seq<u8>, k: nat)
    requires k + 8 <= |b| && forall j :: 0 <= j < k ==> !HeadAt(p, b, j)
    ensures Scan(p, b) == Scan(p, b[k..])
    decreases k
  {
    hide ReadU32;
    if k > 0 {
      assert !HeadAt(p, b, 0) && b[0..4] == [b[0], b[1], b[2], b[3]];
      forall j | 0 <= j < k - 1 ensures !HeadAt(p, b[1..], j) {
        HeadAhead(p, b, j);
      }
      SkipGarbage(p, b[1..], k - 1);
      assert b[1..][k - 1..] == b[k..];
    } else {
      assert b[k..] == b;
    }
  }

  /** What a frame with this body and checksum is reported as. */
  function Reported(p: Setup, body: seq<u8>, sum: u32): seq<Event> {
    if sum != p.crc(body) then [] else if p.validate(body).Some? then [Envelope(body)] else [Malformed(body)]
  }

  /**
   Resynchronisation: after any garbage in which no frame could start, a frame is met, reported as an envelope if its
   checksum is right and it is valid, skipped whole if its checksum is wrong, and the scan goes on behind it.
   */
  lemma Resync(p: Setup, garbage: seq<u8>, body: seq<u8>, sum: u32, rest: seq<u8>)
    requires |body| <= p.maximum
    requires var b := garbage + (FrameHead(|body|) + body + U32Bytes(sum)) + rest;
      forall j :: 0 <= j < |garbage| ==> !HeadAt(p, b, j)
    ensures var b := garbage + (FrameHead(|body|) + body + U32Bytes(sum)) + rest;
      Scan(p, b) == (Reported(p, body, sum) + Scan(p, rest).0, Scan(p, rest).1)
  {
    hide U32Bytes, ReadU32, Scan, FrameHead;
    var f := FrameHead(|body|) + body + U32Bytes(sum);
    var b := garbage + f + rest;
    SkipGarbage(p, b, |garbage|);
    var c := f + rest;
    assert b[|garbage|..] == c;
    CandidateIs(p, body, sum, rest);
    ScanStep(p, c);
    assert c[|f|..] == rest;
  }

  /** An envelope sent after garbage is found. */
  lemma AfterGarbage(p: Setup, garbage: seq<u8>, e: seq<u8>)
    requires |e| <= p.maximum && p.validate(e).Some?
    requires forall j :: 0 <= j < |garbage| ==> !HeadAt(p, garbage + Frame(p.crc, e), j)
    ensures Scan(p, garbage + Frame(p.crc, e)) == ([Envelope(e)], [])
  {
    hide Scan, HeadAt;
    assert garbage + Frame(p.crc, e) + [] == garbage + Frame(p.crc, e);
    Resync(p, garbage, e, p.crc(e), []);
    ScanNothing(p);
    assert Reported(p, e, p.crc(e)) + [] == [Envelope(e)];
  }

  lemma CandidateIs(p: Setup, body: seq<u8>, sum: u32, rest: seq<u8>)
    requires |body| <= p.maximum
    ensures var f := FrameHead(|body|) + body + U32Bytes(sum);
      LookAt(p, f + rest) == Take(|f|) && Judge(p, (f + rest)[..|f|]) == Reported(p, body, sum)
  {
    hide U32Bytes, ReadU32;
    var h := FrameHead(|body|);
    var f := h + body + U32Bytes(sum);
    var c, n := f + rest, FRAME_HEADER + |body|;
    assert c[..8] == h && c[4..8] == h[4..8];
    ReadU32Same(c, 4, h, 4);
    assert c[0] == h[0] && c[1] == h[1] && c[2] == h[2] && c[3] == h[3];
    assert c[FRAME_HEADER..n] == body && c[n..n + 4] == U32Bytes(sum);
    ReadU32Same(c, n, U32Bytes(sum), 0);
    JudgeIs(p, c, |f|);
  }

  /** The frame of an envelope within the stream. */
  ghost predicate Occurs(p: Setup, b: seq<u8>, e: seq<u8>) {
    |e| <= p.maximum && exists j: nat :: j <= |b| && Frame(p.crc, e) <= b[j..]
  }

  lemma OccursLater(p: Setup, b: seq<u8>, k: nat, e: seq<u8>)
    requires k <= |b| && Occurs(p, b[k..], e)
    ensures Occurs(p, b, e)
  {
    hide Frame;
    var j: nat :| j <= |b[k..]| && Frame(p.crc, e) <= b[k..][j..];
    assert b[k..][j..] == b[k + j..];
  }

  /** Only frames with a right checksum are reported, and as envelopes exactly those that are valid. */
  lemma {:induction false} ScanSound(p: Setup, b: seq<u8>)
    ensures forall x :: x in Scan(p, b).0 ==> Occurs(p, b, x.bytes) && (x.Envelope? <==> p.validate(x.bytes).Some?)
    decreases |b|
  {
    hide LookAt, Judge, Frame, Occurs;
    if b != [] {
      match LookAt(p, b)
      case Wait =>
      case Skip =>
        ScanSound(p, b[1..]);
        forall x | x in Scan(p, b).0 ensures Occurs(p, b, x.bytes) {
          OccursLater(p, b, 1, x.bytes);
        }
      case Take(total) =>
        ScanSound(p, b[total..]);
        TakenIs(p, b);
        forall x | x in Scan(p, b).0 ensures Occurs(p, b, x.bytes) {
          if x !in Judge(p, b[..total]) {
            OccursLater(p, b, total, x.bytes);
          }
        }
    }
  }

  lemma TakenIs(p: Setup, b: seq<u8>)
    requires b != [] && LookAt(p, b).Take?
    ensures forall x :: x in Judge(p, b[..LookAt(p, b).total]) ==>
      Occurs(p, b, x.bytes) && (x.Envelope? <==> p.validate(x.bytes).Some?)
  {
    hide ReadU32, U32Bytes, FrameHead;
    var n := ReadU32(b, 4);
    var total := FRAME_HEADER + n + FRAME_TRAILER;
    JudgeIs(p, b, total);
    var e := b[FRAME_HEADER..FRAME_HEADER + n];
    if ReadU32(b, FRAME_HEADER + n) == p.crc(e) {
      BytesOfRead(b, 4);
      HeadIs(b, n);
      BytesOfRead(b, FRAME_HEADER + n);
      assert b[..total] == b[..FRAME_HEADER] + e + b[FRAME_HEADER + n..total];
      assert b[0..] == b && Frame(p.crc, e) <= b[0..];
    }
  }

  /** What is left undecided is shorter than the longest frame. */
  lemma {:induction false} RestBound(p: Setup, b: seq<u8>)
    ensures |Scan(p, b).1| < FRAME_HEADER + p.maximum + FRAME_TRAILER
    decreases |b|
  {
    if b != [] {
      match LookAt(p, b)
      case Wait =>
      case Skip => RestBound(p, b[1..]);
      case Take(total) => RestBound(p, b[total..]);
    }
  }

  // ---------------------------------------------------------------- the parser

  /** A frame marker starts at position j. */
  predicate MarkAt(b: seq<u8>, j: nat) {
    j + 2 <= |b| && b[j] == 0x4c && b[j + 1] == 0x53
  }

  /** Bytes before the first marker are skipped. */
  lemma {:induction false} SkipTo(p: Setup, b: seq<u8>, k: nat)
    requires k < |b| && forall j :: 0 <= j < k ==> !MarkAt(b, j)
    ensures Scan(p, b) == Scan(p, b[k..])
    decreases k
  {
    if k > 0 {
      assert !MarkAt(b, 0);
      forall j | 0 <= j < k - 1 ensures !MarkAt(b[1..], j) {
        assert !MarkAt(b, j + 1);
      }
      SkipTo(p, b[1..], k - 1);
      assert b[1..][k - 1..] == b[k..];
    } else {
      assert b[k..] == b;
    }
  }

  /** Without any marker only a final 'L' is kept. */
  lemma NoMark(p: Setup, b: seq<u8>)
    requires forall j :: 0 <= j < |b| ==> !MarkAt(b, j)
    ensures Scan(p, b) == ([], if b != [] && b[|b| - 1] == 0x4c then [0x4c] else [])
  {
    if b != [] {
      SkipTo(p, b, |b| - 1);
      assert b[|b| - 1..] == [b[|b| - 1]];
    }
  }

  function Frames(events: seq<Event>): seq<seq<u8>> {
    if events == [] then [] else
    Frames(events[..|events| - 1]) + match events[|events| - 1] { case Envelope(e) => [e] case Malformed(_) => [] }
  }

  predicate AllSound(events: seq<Event>) {
    forall e :: e in events ==> e.Envelope?
  }

  lemma {:induction false} FramesConcat(a: seq<Event>, b: seq<Event>)
    ensures Frames(a + b) == Frames(a) + Frames(b)
    decreases |b|
  {
    if b == [] {
      assert a + b == a;
    } else {
      var n := |b| - 1;
      FramesConcat(a, b[..n]);
      assert a + b == (a + b[..n]) + [b[n]];
      assert (a + b)[..|a + b| - 1] == a + b[..n];
    }
  }

  class Parser {
    const p: Setup
    var buffer: seq<u8>

    constructor (setup: Setup)
      requires setup.maximum >= 28
      ensures p == setup && buffer == []
    {
      p, buffer := setup, [];
    }

    /** Looks for the first marker. */
    method Find() returns (marker: int)
      ensures -1 <= marker < |buffer|
      ensures marker >= 0 ==> MarkAt(buffer, marker) && forall j :: 0 <= j < marker ==> !MarkAt(buffer, j)
      ensures marker < 0 ==> forall j :: 0 <= j < |buffer| ==> !MarkAt(buffer, j)
    {
      marker := 0;
      while marker + 1 < |buffer|
        invariant 0 <= marker <= |buffer| && forall j :: 0 <= j < marker ==> !MarkAt(buffer, j)
      {
        if buffer[marker] == 0x4c && buffer[marker + 1] == 0x53 {
          return;
        }
        marker := marker + 1;
      }
      marker := -1;
    }

    /** One turn of the feed loop: waits for more, drops bytes, or consumes a frame. */
    method Turn() returns (waiting: bool, judged: seq<Event>)
      modifies this`buffer
      ensures Scan(p, old(buffer)).0 == judged + Scan(p, buffer).0 && Scan(p, old(buffer)).1 == Scan(p, buffer).1
      ensures |judged| <= 1 && (waiting ==> judged == [] && Scan(p, buffer) == ([], buffer))
      ensures !waiting ==> |buffer| < |old(buffer)|
    {
      hide Judge, ReadU32, Scan;
      judged := [];
      var marker := Find();
      if marker < 0 {
        NoMark(p, buffer);
        LoneMark(p);
        buffer := if buffer != [] && buffer[|buffer| - 1] == 0x4c then [0x4c] else [];
        return true, [];
      }
      SkipTo(p, buffer, marker);
      buffer := buffer[marker..];
      ScanStep(p, buffer);
      if |buffer| < FRAME_HEADER {
        return true, [];
      }
      var length := ReadU32(buffer, 4);
      if buffer[2] != STREAM_VERSION || buffer[3] != 0 || length > p.maximum {
        buffer := buffer[1..];
        return false, [];
      }
      var total := FRAME_HEADER + length + FRAME_TRAILER;
      if |buffer| < total {
        return true, [];
      }
      var envelope := buffer[FRAME_HEADER..FRAME_HEADER + length];
      var expected := ReadU32(buffer, FRAME_HEADER + length);
      JudgeIs(p, buffer, total);
      buffer := buffer[total..];
      if expected != p.crc(envelope) {
        return false, [];
      }
      return false, if p.validate(envelope).Some? then [Envelope(envelope)] else [Malformed(envelope)];
    }

    /**
     Takes a chunk and returns the envelopes completed by it. What was scanned and what is left in the buffer together
     are the scan of everything fed. A malformed envelope in a frame with a right checksum raises an error, which
     discards the envelopes found before it in the same chunk.
     */
    method Feed(chunk: seq<u8>) returns (frames: seq<seq<u8>>, raised: bool, ghost events: seq<Event>)
      modifies this`buffer
      ensures var all := Scan(p, old(buffer) + chunk);
        all.0 == events + Scan(p, buffer).0 && all.1 == Scan(p, buffer).1
      ensures !raised ==> AllSound(events) && frames == Frames(events) && Scan(p, buffer) == ([], buffer)
      ensures !raised ==> |buffer| < FRAME_HEADER + p.maximum + FRAME_TRAILER
      ensures raised ==>
        frames == [] && events != [] && events[|events| - 1].Malformed? && AllSound(events[..|events| - 1])
    {
      hide Scan;
      buffer := buffer + chunk;
      ghost var whole := buffer;
      frames, raised, events := [], false, [];
      var waiting := false;
      while !waiting
        invariant Scan(p, whole).0 == events + Scan(p, buffer).0 && Scan(p, whole).1 == Scan(p, buffer).1
        invariant AllSound(events) && frames == Frames(events) && !raised
        invariant waiting ==> Scan(p, buffer) == ([], buffer)
        decreases !waiting, |buffer|
      {
        var judged;
        waiting, judged := Turn();
        ghost var before := events;
        events := events + judged;
        assert before + (judged + Scan(p, buffer).0) == events + Scan(p, buffer).0;
        if judged == [] {
          assert events == before;
        } else {
          assert events == before + [judged[0]] && events[..|before|] == before;
          if judged[0].Malformed? {
            return [], true, events;
          }
          frames := frames + [judged[0].bytes];
        }
      }
      RestBound(p, buffer);
    }
  }

  lemma LoneMark(p: Setup)
    ensures Scan(p, []) == ([], []) && Scan(p, [0x4c]) == ([], [0x4c])
  {
  }

  lemma ScanStep(p: Setup, b: seq<u8>)
    requires b != []
    ensures match LookAt(p, b)
      case Skip => Scan(p, b) == Scan(p, b[1..])
      case Wait => Scan(p, b) == ([], b)
      case Take(total) =>
        Scan(p, b) == (Judge(p, b[..total]) + Scan(p, b[total..]).0, Scan(p, b[total..]).1)
  {
    hide LookAt, Judge;
  }

  lemma JudgeIs(p: Setup, b: seq<u8>, total: nat)
    requires 12 <= total <= |b|
    ensures var envelope := b[FRAME_HEADER..total - FRAME_TRAILER];
      Judge(p, b[..total]) == if ReadU32(b, total - FRAME_TRAILER) != p.crc(envelope) then []
                              else if p.validate(envelope).Some? then [Envelope(envelope)] else [Malformed(envelope)]
  {
    hide ReadU32;
    var frame := b[..total];
    assert frame[FRAME_HEADER..total - FRAME_TRAILER] == b[FRAME_HEADER..total - FRAME_TRAILER];
    assert frame[total - FRAME_TRAILER..total] == b[total - FRAME_TRAILER..total];
    ReadU32Same(frame, total - FRAME_TRAILER, b, total - FRAME_TRAILER);
  }

  // ---------------------------------------------------------------- any chunking

  function Joined(chunks: seq<seq<u8>>): seq<u8> {
    if chunks == [] then [] else Joined(chunks[..|chunks| - 1]) + chunks[|chunks| - 1]
  }

  /** The events of several calls. */
  function Flat(calls: seq<seq<Event>>): seq<Event> {
    if calls == [] then [] else Flat(calls[..|calls| - 1]) + calls[|calls| - 1]
  }

  /** The envelopes returned by several calls: those of a call that ends with an error are lost. */
  function Returned(calls: seq<seq<Event>>): seq<seq<u8>> {
    if calls == [] then [] else
    var last := calls[|calls| - 1];
    Returned(calls[..|calls| - 1]) + if AllSound(last) then Frames(last) else []
  }

  /** A call ends with the chunk, or right after its first malformed envelope. */
  predicate Ended(events: seq<Event>) {
    AllSound(events) || (events != [] && events[|events| - 1].Malformed? && AllSound(events[..|events| - 1]))
  }

  /**
   A whole stream, in any chunks, feeding on after an error. Every event of the stream scanned in one piece is met in
   turn, and the envelopes returned are those of the calls without an error; without malformed envelopes, those of the
   stream.
   */
  method FeedAll(parser: Parser, chunks: seq<seq<u8>>) returns (frames: seq<seq<u8>>, ghost calls: seq<seq<Event>>)
    requires parser.buffer == []
    modifies parser`buffer
    ensures |calls| == |chunks| && frames == Returned(calls) && forall c :: c in calls ==> Ended(c)
    ensures var (events, rest) := Scan(parser.p, Joined(chunks));
      Flat(calls) + Scan(parser.p, parser.buffer).0 == events && Scan(parser.p, parser.buffer).1 == rest
    ensures var (events, rest) := Scan(parser.p, Joined(chunks));
      AllSound(events) ==> frames == Frames(events) && parser.buffer == rest
  {
    hide Scan, Flat, Returned;
    var p := parser.p;
    frames, calls := [], [];
    ghost var so := [];
    ScanNothing(p);
    NoCalls();
    var i := 0;
    while i < |chunks|
      invariant 0 <= i <= |chunks| && parser.p == p && so == Joined(chunks[..i]) && |calls| == i
      invariant frames == Returned(calls) && forall c :: c in calls ==> Ended(c)
      invariant Scan(p, so).0 == Flat(calls) + Scan(p, parser.buffer).0 && Scan(p, so).1 == Scan(p, parser.buffer).1
      invariant AllSound(Flat(calls)) ==> frames == Frames(Flat(calls)) && Scan(p, parser.buffer) == ([], parser.buffer)
    {
      assert chunks[..i + 1][..i] == chunks[..i];
      var more, raised;
      ghost var events;
      ghost var rest := parser.buffer;
      more, raised, events := parser.Feed(chunks[i]);
      ScanGoesOn(p, so, chunks[i], Flat(calls), rest, events, parser.buffer);
      CallsNext(calls, events);
      frames, calls := frames + more, calls + [events];
      so := so + chunks[i];
      i := i + 1;
    }
    assert chunks[..i] == chunks;
    if AllSound(Scan(p, so).0) {
      SoundFront(Flat(calls), Scan(p, parser.buffer).0);
      assert Flat(calls) + [] == Flat(calls);
    }
  }

  lemma SoundFront(a: seq<Event>, b: seq<Event>)
    requires AllSound(a + b)
    ensures AllSound(a)
  {
    assert forall e :: e in a ==> e in a + b;
  }

  lemma NoCalls()
    ensures Flat([]) == [] && Returned([]) == [] && Frames([]) == []
  {
  }

  lemma ScanGoesOn(p: Setup, so: seq<u8>, chunk: seq<u8>, seen: seq<Event>, rest: seq<u8>, events: seq<Event>,
                   left: seq<u8>)
    requires Scan(p, so).0 == seen + Scan(p, rest).0 && Scan(p, so).1 == Scan(p, rest).1
    requires Scan(p, rest + chunk).0 == events + Scan(p, left).0 && Scan(p, rest + chunk).1 == Scan(p, left).1
    ensures Scan(p, so + chunk).0 == seen + events + Scan(p, left).0 && Scan(p, so + chunk).1 == Scan(p, left).1
  {
    hide Scan;
    ScanAppend(p, so, chunk);
    ScanAppend(p, rest, chunk);
    Regroup(seen, Scan(p, rest).0, Scan(p, Scan(p, rest).1 + chunk).0, events, Scan(p, left).0);
  }

  lemma Regroup(seen: seq<Event>, a: seq<Event>, b: seq<Event>, events: seq<Event>, c: seq<Event>)
    requires a + b == events + c
    ensures seen + a + b == seen + events + c
  {
    assert seen + a + b == seen + (a + b);
    assert seen + (events + c) == seen + events + c;
  }

  lemma CallsNext(calls: seq<seq<Event>>, events: seq<Event>)
    ensures Flat(calls + [events]) == Flat(calls) + events
    ensures Returned(calls + [events]) == Returned(calls) + if AllSound(events) then Frames(events) else []
    ensures Frames(Flat(calls) + events) == Frames(Flat(calls)) + Frames(events)
    ensures AllSound(Flat(calls) + events) ==> AllSound(Flat(calls)) && AllSound(events)
  {
    assert (calls + [events])[..|calls|] == calls;
    FramesConcat(Flat(calls), events);
    assert forall e :: e in Flat(calls) || e in events ==> e in Flat(calls) + events;
  }

  lemma ScanNothing(p: Setup)
    ensures Scan(p, []) == ([], [])
  {
  }

  // ---------------------------------------------------------------- what the sender wrote

  function Envelopes(envelopes: seq<seq<u8>>): (events: seq<Event>)
    ensures |events| == |envelopes| && forall i :: 0 <= i < |events| ==> events[i] == Envelope(envelopes[i])
  {
    seq(|envelopes|, i requires 0 <= i < |envelopes| => Envelope(envelopes[i]))
  }

  lemma {:induction false} FramesOfEnvelopes(envelopes: seq<seq<u8>>)
    ensures Frames(Envelopes(envelopes)) == envelopes && AllSound(Envelopes(envelopes))
    decreases |envelopes|
  {
    if envelopes != [] {
      var n := |envelopes| - 1;
      FramesOfEnvelopes(envelopes[..n]);
      var events := Envelopes(envelopes);
      assert events[..n] == Envelopes(envelopes[..n]) && events[n] == Envelope(envelopes[n]);
      assert Frames(events) == Frames(events[..n]) + [envelopes[n]];
      assert envelopes == envelopes[..n] + [envelopes[n]];
    } else {
      assert Envelopes(envelopes) == [];
    }
  }

  /** A frame of a valid envelope is taken as that envelope. */
  lemma ScanFrame(p: Setup, e: seq<u8>)
    requires |e| <= p.maximum && p.validate(e).Some?
    ensures Scan(p, Frame(p.crc, e)) == ([Envelope(e)], [])
  {
    hide ReadU32, U32Bytes;
    var f := Frame(p.crc, e);
    FrameParts(p.crc, e, f);
    JudgeIs(p, f, |f|);
    assert LookAt(p, f) == Take(|f|);
    assert f[FRAME_HEADER..|f| - FRAME_TRAILER] == e;
    assert f[..|f|] == f && f[|f|..] == [];
    ScanNothing(p);
    assert Judge(p, f) == [Envelope(e)];
    assert [Envelope(e)] + [] == [Envelope(e)];
  }

  /** A frame that is not complete yet is kept and reported as nothing. */
  lemma ScanBegun(p: Setup, e: seq<u8>, k: nat)
    requires |e| <= p.maximum && k < FRAME_HEADER + |e| + FRAME_TRAILER
    ensures Scan(p, Begun(p.crc, e, k)) == ([], Begun(p.crc, e, k))
  {
    hide U32Bytes, ReadU32;
    var f := Frame(p.crc, e);
    var b := Begun(p.crc, e, k);
    FrameParts(p.crc, e, f);
    if k >= FRAME_HEADER {
      assert b[4..8] == f[4..8];
      ReadU32Same(b, 4, f, 4);
    }
  }

  /** Scanning what a sender wrote finds exactly the envelopes whose frames are complete, in order. */
  lemma {:induction false} ScanWire(p: Setup, envelopes: seq<seq<u8>>)
    requires forall e :: e in envelopes ==> |e| <= p.maximum && p.validate(e).Some?
    ensures Scan(p, Wire(p.crc, envelopes)) == (Envelopes(envelopes), [])
    decreases |envelopes|
  {
    hide Scan, Frame;
    if envelopes == [] {
      ScanNothing(p);
    } else {
      var n := |envelopes| - 1;
      var front, last := envelopes[..n], envelopes[n];
      ScanWire(p, front);
      ScanFrame(p, last);
      ScanAppend(p, Wire(p.crc, front), Frame(p.crc, last));
      assert [] + Frame(p.crc, last) == Frame(p.crc, last);
      assert Envelopes(envelopes) == Envelopes(front) + [Envelope(last)];
    }
  }

  lemma ScanWireAndMore(p: Setup, envelopes: seq<seq<u8>>, e: seq<u8>, k: nat)
    requires forall x :: x in envelopes ==> |x| <= p.maximum && p.validate(x).Some?
    requires |e| <= p.maximum && k < FRAME_HEADER + |e| + FRAME_TRAILER
    ensures Scan(p, Wire(p.crc, envelopes) + Begun(p.crc, e, k)) == (Envelopes(envelopes), Begun(p.crc, e, k))
  {
    hide Scan, Frame, Begun, Wire;
    ScanWire(p, envelopes);
    ScanBegun(p, e, k);
    ScanAppend(p, Wire(p.crc, envelopes), Begun(p.crc, e, k));
    assert [] + Begun(p.crc, e, k) == Begun(p.crc, e, k) && Envelopes(envelopes) + [] == Envelopes(envelopes);
  }

  /**
   A fatal error after the head of a frame hides what is sent next: the parser takes it for the missing payload, and an
   envelope short enough to fit in there is not reported.
   */
  lemma TornFrameHides(p: Setup, torn: seq<u8>, e: seq<u8>)
    requires |torn| <= p.maximum && |e| <= U32_MAX && |Frame(p.crc, e)| < |torn| + FRAME_TRAILER
    ensures Scan(p, FrameHead(|torn|) + Frame(p.crc, e)).0 == []
  {
    hide U32Bytes, ReadU32;
    var h := FrameHead(|torn|);
    var b := h + Frame(p.crc, e);
    assert b[4..8] == h[4..8];
    ReadU32Same(b, 4, h, 4);
  }
}
