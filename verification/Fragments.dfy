/**
 Fragmentation of envelopes for transports with a small payload, and their reassembly in any order with a bitmap of
 the fragments received.
 */
module Fragments {
  import opened Bits
  import opened Bitmaps
  import opened Counting
  import opened Storage
  import opened SlotCommit

  datatype Fragment = Fragment(eventId: u32, envelopeCrc: u32, totalLength: u32, offset: u32, capacity: u32, crc: u32,
                               index: u16, count: u16, data: seq<u8>)

  /** What all fragments of one envelope share. */
  datatype Key = Key(eventId: u32, envelopeCrc: u32, totalLength: u32, capacity: u32, count: u16)

  function KeyOf(f: Fragment): Key {
    Key(f.eventId, f.envelopeCrc, f.totalLength, f.capacity, f.count)
  }

  // ---------------------------------------------------------------- cutting

  function Count(length: nat, mtu: nat): nat
    requires mtu > 0
  {
    length / mtu + if length % mtu != 0 then 1 else 0
  }

  /** The count is the smallest that covers the length. */
  lemma CountIs(length: nat, mtu: nat)
    requires mtu > 0
    ensures length <= Count(length, mtu) * mtu < length + mtu
    ensures length > 0 ==> Count(length, mtu) > 0
  {
    var q, r := length / mtu, length % mtu;
    assert length == q * mtu + r;
    MulSub(q + 1, q, mtu);
  }

  /** A byte lies in fragment i exactly when its position divides to i. */
  lemma ByteOwner(j: nat, i: nat, mtu: nat)
    requires mtu > 0
    ensures i * mtu <= j < i * mtu + mtu <==> j / mtu == i
  {
    if i * mtu <= j < i * mtu + mtu {
      DivModUnique(j, mtu, i, j - i * mtu);
    }
    assert j == (j / mtu) * mtu + j % mtu;
  }

  lemma OwnerBelow(j: nat, length: nat, mtu: nat)
    requires mtu > 0 && j < length
    ensures j / mtu < Count(length, mtu)
  {
    CountIs(length, mtu);
    ByteOwner(j, j / mtu, mtu);
    if j / mtu >= Count(length, mtu) {
      MulMono(Count(length, mtu), j / mtu, mtu);
    }
  }

  lemma IndexInside(i: nat, length: nat, mtu: nat)
    requires mtu > 0 && i < Count(length, mtu)
    ensures i * mtu < length
  {
    CountIs(length, mtu);
    MulMono(i + 1, Count(length, mtu), mtu);
    MulSub(i + 1, i, mtu);
  }

  predicate Cuttable(data: seq<u8>, mtu: nat) {
    0 < |data| <= U32_MAX && 0 < mtu <= U32_MAX && Count(|data|, mtu) <= 0xffff
  }

  /** An envelope can be cut exactly if 65535 fragments hold it. */
  lemma CuttableIff(data: seq<u8>, mtu: nat)
    ensures Cuttable(data, mtu) <==> 0 < |data| <= U32_MAX && 0 < mtu <= U32_MAX && |data| <= 0xffff * mtu
  {
    hide Count;
    if mtu > 0 {
      var n := Count(|data|, mtu);
      CountIs(|data|, mtu);
      if n <= 0xffff {
        MulMono(n, 0xffff, mtu);
      } else {
        MulMono(0xffff + 1, n, mtu);
        MulSub(0xffff + 1, 0xffff, mtu);
      }
    }
  }

  /** The i-th fragment of an envelope. */
  function Cut(crc: Checksum, eventId: u32, data: seq<u8>, mtu: nat, i: nat): (f: Fragment)
    requires Cuttable(data, mtu) && i < Count(|data|, mtu)
    ensures f.offset == i * mtu && f.index == i && KeyOf(f) == Key(eventId, crc(data), |data|, mtu, Count(|data|, mtu))
    ensures 0 < |f.data| <= mtu && f.offset + |f.data| <= |data| && f.data == data[f.offset..f.offset + |f.data|]
    ensures f.offset + |f.data| == |data| || |f.data| == mtu
  {
    IndexInside(i, |data|, mtu);
    CutAt(crc, eventId, data, mtu, i, i * mtu, Count(|data|, mtu))
  }

  /** The fragment at a known offset. */
  function CutAt(crc: Checksum, eventId: u32, data: seq<u8>, mtu: nat, i: nat, offset: nat, count: nat): (f: Fragment)
    requires |data| <= U32_MAX && 0 < mtu <= U32_MAX && i < count <= 0xffff && offset < |data|
    ensures f.offset == offset && f.index == i && KeyOf(f) == Key(eventId, crc(data), |data|, mtu, count)
    ensures 0 < |f.data| <= mtu && f.offset + |f.data| <= |data| && f.data == data[f.offset..f.offset + |f.data|]
    ensures f.offset + |f.data| == |data| || |f.data| == mtu
    ensures f.crc == crc(f.data)
  {
    var length := if |data| - offset > mtu then mtu else |data| - offset;
    var part := data[offset..offset + length];
    Fragment(eventId, crc(data), |data|, offset, mtu, crc(part), i, count, part)
  }

  /** Sends an envelope in fragments until the transport refuses one. */
  method SendFragments(crc: Checksum, eventId: u32, data: seq<u8>, mtu: nat, replies: nat -> Status)
      returns (status: Status, sent: seq<Fragment>)
    ensures !Cuttable(data, mtu) ==>
      status == if |data| == 0 || (|data| <= U32_MAX && mtu == 0) then Einval else Eoverflow
    ensures !Cuttable(data, mtu) ==> sent == []
    ensures Cuttable(data, mtu) ==>
      |sent| <= Count(|data|, mtu) && forall i :: 0 <= i < |sent| ==> sent[i] == Cut(crc, eventId, data, mtu, i)
    ensures Cuttable(data, mtu) ==> (status == Ok <==> |sent| == Count(|data|, mtu))
    ensures Cuttable(data, mtu) && status != Ok ==> status == replies(|sent|)
  {
    sent := [];
    if |data| == 0 {
      return Einval, [];
    }
    if |data| > U32_MAX {
      return Eoverflow, [];
    }
    if mtu == 0 {
      return Einval, [];
    }
    var count := |data| / mtu;
    if |data| % mtu != 0 {
      count := count + 1;
    }
    if count > 0xffff || mtu > U32_MAX {
      return Eoverflow, [];
    }
    status := Ok;
    CountIs(|data|, mtu);
    var index := 0;
    while index < count
      invariant 0 <= index <= count && |sent| == index && status == Ok
      invariant forall i :: 0 <= i < index ==> sent[i] == Cut(crc, eventId, data, mtu, i)
    {
      status := replies(index);
      if status != Ok {
        return;
      }
      sent := sent + [Cut(crc, eventId, data, mtu, index)];
      index := index + 1;
    }
  }

  /** The payloads of the first n fragments, joined. */
  function Joined(crc: Checksum, eventId: u32, data: seq<u8>, mtu: nat, n: nat): seq<u8>
    requires Cuttable(data, mtu) && n <= Count(|data|, mtu)
  {
    if n == 0 then [] else Joined(crc, eventId, data, mtu, n - 1) + Cut(crc, eventId, data, mtu, n - 1).data
  }

  lemma MulNext(n: int, mtu: int)
    ensures (n + 1) * mtu == n * mtu + mtu
  {
  }

  lemma JoinNext(data: seq<u8>, offset: nat, part: seq<u8>)
    requires offset + |part| <= |data| && part == data[offset..offset + |part|]
    ensures data[..offset] + part == data[..offset + |part|]
    ensures offset + |part| == |data| ==> data[..offset + |part|] == data
  {
  }

  lemma {:induction false} JoinedIs(crc: Checksum, eventId: u32, data: seq<u8>, mtu: nat, n: nat)
    requires Cuttable(data, mtu) && n <= Count(|data|, mtu)
    ensures Joined(crc, eventId, data, mtu, n) == if n * mtu < |data| then data[..n * mtu] else data
    decreases n
  {
    hide Count, Cut, CutAt;
    if n > 0 {
      JoinedIs(crc, eventId, data, mtu, n - 1);
      IndexInside(n - 1, |data|, mtu);
      MulNext(n - 1, mtu);
      var f := Cut(crc, eventId, data, mtu, n - 1);
      JoinNext(data, f.offset, f.data);
    }
  }

  /** The fragments partition the envelope. */
  lemma Partition(crc: Checksum, eventId: u32, data: seq<u8>, mtu: nat)
    requires Cuttable(data, mtu)
    ensures Joined(crc, eventId, data, mtu, Count(|data|, mtu)) == data
  {
    CountIs(|data|, mtu);
    JoinedIs(crc, eventId, data, mtu, Count(|data|, mtu));
  }

  // ---------------------------------------------------------------- reassembly

  /** The checks on a fragment that need no state. */
  function Check(crc: Checksum, f: Fragment, capacity: nat, bits: nat): Status {
    if |f.data| == 0 || f.totalLength == 0 || f.capacity == 0 || f.count == 0 || f.index >= f.count then Einval
    else if f.totalLength > capacity || f.count > bits then Enospace
    else if Count(f.totalLength, f.capacity) > 0xffff || f.count != Count(f.totalLength, f.capacity) then Ecorrupt
    else
      var offset := f.index * f.capacity;
      if offset >= f.totalLength || f.offset != offset then Ecorrupt
      else
        var expected := if f.totalLength - offset > f.capacity then f.capacity else f.totalLength - offset;
        if |f.data| != expected || f.crc != crc(f.data) then Ecorrupt else Ok
  }

  /**
   A fragment that belongs to a cutting into count parts, covers exactly the bytes of the envelope that its index owns,
   matches its own checksum, and has room.
   */
  ghost predicate Proper(crc: Checksum, f: Fragment, capacity: nat, bits: nat) {
    && 0 < |f.data| && f.offset + |f.data| <= f.totalLength <= capacity && f.index < f.count <= bits
    && f.capacity > 0 && f.count == Count(f.totalLength, f.capacity) && f.crc == crc(f.data)
    && forall j: nat :: j < f.totalLength ==> (f.offset <= j < f.offset + |f.data| <==> j / f.capacity == f.index)
  }

  /** Exactly the proper fragments pass the checks. */
  lemma CheckedIff(crc: Checksum, f: Fragment, capacity: nat, bits: nat)
    ensures Check(crc, f, capacity, bits) == Ok <==> Proper(crc, f, capacity, bits)
  {
    hide Count;
    if Check(crc, f, capacity, bits) == Ok {
      forall j: nat | j < f.totalLength ensures f.offset <= j < f.offset + |f.data| <==> j / f.capacity == f.index {
        ByteOwner(j, f.index, f.capacity);
      }
    }
    if Proper(crc, f, capacity, bits) {
      ProperPlace(f);
    }
  }

  /** A fragment that covers what its index owns lies where its index says and is as long as it must be. */
  lemma ProperPlace(f: Fragment)
    requires 0 < |f.data| && f.offset + |f.data| <= f.totalLength && f.capacity > 0
    requires f.index < Count(f.totalLength, f.capacity)
    requires forall j: nat :: j < f.totalLength ==>
      (f.offset <= j < f.offset + |f.data| <==> j / f.capacity == f.index)
    ensures f.offset == f.index * f.capacity < f.totalLength
    ensures |f.data| == if f.totalLength - f.offset > f.capacity then f.capacity else f.totalLength - f.offset
  {
    hide Count;
    var i: nat, m: nat := f.index, f.capacity;
    var end := f.offset + |f.data|;
    IndexInside(i, f.totalLength, m);
    ByteOwner(f.offset, i, m);
    ByteOwner(i * m, i, m);
    assert f.offset == i * m;
    ByteOwner(end - 1, i, m);
    if end < f.totalLength {
      ByteOwner(end, i, m);
    }
  }

  /** A fragment cut from an envelope that lost or gained bytes, or no longer matches its checksum, is refused. */
  lemma DamagedCut(crc: Checksum, eventId: u32, data: seq<u8>, mtu: nat, i: nat, other: seq<u8>, capacity: nat,
                   bits: nat)
    requires Cuttable(data, mtu) && i < Count(|data|, mtu) && |data| <= capacity && Count(|data|, mtu) <= bits
    requires other != []
    ensures var f := Cut(crc, eventId, data, mtu, i);
      |other| != |f.data| || crc(other) != f.crc ==> Check(crc, f.(data := other), capacity, bits) == Ecorrupt
  {
    hide Count;
    IndexInside(i, |data|, mtu);
  }

  /** The fragments an envelope is cut into pass the checks wherever there is room. */
  lemma CutChecks(crc: Checksum, eventId: u32, data: seq<u8>, mtu: nat, i: nat, capacity: nat, bits: nat)
    requires Cuttable(data, mtu) && i < Count(|data|, mtu) && |data| <= capacity && Count(|data|, mtu) <= bits
    ensures Check(crc, Cut(crc, eventId, data, mtu, i), capacity, bits) == Ok
  {
    hide Count;
    IndexInside(i, |data|, mtu);
  }

  class Reassembly {
    const crc: Checksum
    const data: array<u8>
    const received: array<u8>
    var key: Key
    var receivedCount: nat
    var active: bool
    var complete: bool

    predicate Separate() {
      data != received
    }

    /** The indices whose bit is set. */
    ghost function Got(): set<nat>
      reads received
    {
      set i | 0 <= i < received.Length * 8 && BitAt(received[i / 8], i % 8)
    }

    /** The count of received fragments is the number of set bits, all of them below the fragment count. */
    ghost predicate Valid()
      reads this, received
    {
      && Separate() && (complete ==> active)
      && (active ==> key.count <= received.Length * 8 && key.totalLength <= data.Length && key.capacity > 0
                     && key.count == Count(key.totalLength, key.capacity) && key.totalLength > 0)
      && (active ==> receivedCount == |Got()| && forall i :: i in Got() ==> i < key.count)
      && (active && !complete ==> receivedCount < key.count)
      && (!active ==> Got() == {} && receivedCount == 0)
    }

    constructor (checksum: Checksum, buffer: array<u8>, bitmap: array<u8>)
      requires buffer != bitmap
      modifies bitmap
      ensures Valid() && !active && crc == checksum && data == buffer && received == bitmap
    {
      crc, data, received := checksum, buffer, bitmap;
      key, receivedCount, active, complete := Key(0, 0, 0, 0, 0), 0, false, false;
      new;
      ClearBits();
    }

    method ClearBits()
      modifies received
      ensures Got() == {}
    {
      var i := 0;
      while i < received.Length
        invariant 0 <= i <= received.Length && forall j :: 0 <= j < i ==> received[j] == 0
      {
        received[i] := 0;
        i := i + 1;
      }
      forall k: nat ensures !BitAt(0, k) {
        ZeroBits(k);
      }
    }

    method Reset()
      requires Separate()
      modifies this`key, this`receivedCount, this`active, this`complete, received
      ensures Valid() && !active
    {
      ClearBits();
      key, receivedCount, active, complete := Key(0, 0, 0, 0, 0), 0, false, false;
    }

    method TestBit(index: nat) returns (marked: bool)
      requires index < received.Length * 8
      ensures marked <==> index in Got()
    {
      MaskTests(received[index / 8], index % 8);
      return And(received[index / 8], Pow2(index % 8)) != 0;
    }

    method MarkBit(index: nat)
      requires index < received.Length * 8
      modifies received
      ensures Got() == old(Got()) + {index}
    {
      hide Or, BitAt, Pow2;
      var cell := index / 8;
      ghost var was := received[cell];
      PowerTable();
      SetBit(was, index % 8, 8);
      received[cell] := Or(received[cell], Pow2(index % 8));
      ghost var now := received[cell];
      forall i: nat | i < received.Length * 8 ensures i in Got() <==> i in old(Got()) || i == index {
        if i / 8 == cell {
          assert BitAt(now, i % 8) <==> BitAt(was, i % 8) || i % 8 == index % 8;
        }
      }
    }

    /** Does the stored slice equal the fragment's? */
    method SameBytes(at: nat, bytes: seq<u8>) returns (same: bool)
      requires at + |bytes| <= data.Length
      ensures same <==> data[at..at + |bytes|] == bytes
    {
      var i := 0;
      while i < |bytes|
        invariant 0 <= i <= |bytes| && data[at..at + i] == bytes[..i]
      {
        if data[at + i] != bytes[i] {
          assert data[at..at + |bytes|][i] != bytes[i];
          return false;
        }
        assert data[at..at + i + 1] == data[at..at + i] + [data[at + i]];
        i := i + 1;
      }
      return true;
    }

    method CopyIn(at: nat, bytes: seq<u8>)
      requires at + |bytes| <= data.Length
      modifies data
      ensures data[..] == Splice(old(data[..]), at, bytes)
    {
      var i := 0;
      while i < |bytes|
        invariant 0 <= i <= |bytes|
        invariant forall j :: 0 <= j < data.Length ==>
          data[j] == if at <= j < at + i then bytes[j - at] else old(data[j])
      {
        data[at + i] := bytes[i];
        i := i + 1;
      }
    }

    /** Takes a fragment that passed the checks and whose key is the active one. */
    method Accept(f: Fragment) returns (status: Status, length: nat)
      requires Valid() && active && !complete && Check(crc, f, data.Length, received.Length * 8) == Ok
      requires key == KeyOf(f)
      modifies this, data, received
      ensures Valid()
      ensures Pushed(f, old(data[..]), old(Got()), status, length)
    {
      hide Check, Count, BitAt, Splice;
      CheckedIff(crc, f, data.Length, received.Length * 8);
      length := 0;
      var duplicate := TestBit(f.index);
      if duplicate {
        var same := SameBytes(f.offset, f.data);
        if !same {
          Reset();
          return Ecorrupt, 0;
        }
        return Ok, 0;
      }
      CopyIn(f.offset, f.data);
      MarkBit(f.index);
      receivedCount := receivedCount + 1;
      if receivedCount != key.count {
        return Ok, 0;
      }
      if crc(data[..key.totalLength]) != key.envelopeCrc {
        Reset();
        return Ecorrupt, 0;
      }
      complete := true;
      return Ok, key.totalLength;
    }

    /** A fragment this reassembly does not take: it fails the checks, or another envelope is being put together. */
    predicate Turned(f: Fragment)
      reads this
    {
      Check(crc, f, data.Length, received.Length * 8) != Ok || complete || (active && key != KeyOf(f))
    }

    function Checked(f: Fragment): Status {
      Check(crc, f, data.Length, received.Length * 8)
    }

    /** Pushes one fragment. */
    method Push(f: Fragment) returns (status: Status, length: nat)
      requires Valid()
      modifies this, data, received
      ensures Valid()
      ensures old(Turned(f)) ==>
        && status == (if Checked(f) != Ok then Checked(f) else Ebusy)
        && length == 0 && data[..] == old(data[..]) && Got() == old(Got())
        && active == old(active) && complete == old(complete) && key == old(key)
      ensures old(!Turned(f)) ==> Pushed(f, old(data[..]), old(Got()), status, length)
    {
      hide Check, Count, BitAt, Splice;
      status := Check(crc, f, data.Length, received.Length * 8);
      length := 0;
      if status != Ok {
        return;
      }
      if complete {
        return Ebusy, 0;
      }
      if !active {
        CheckedIff(crc, f, data.Length, received.Length * 8);
        Started(f);
      } else if key != KeyOf(f) {
        return Ebusy, 0;
      }
      status, length := Accept(f);
    }

    method Started(f: Fragment)
      requires Valid() && !active && f.count <= received.Length * 8 && f.totalLength <= data.Length && f.capacity > 0
      requires f.count == Count(f.totalLength, f.capacity) && f.totalLength > 0 && f.count > 0
      modifies this`key, this`receivedCount, this`active, received
      ensures Valid() && active && !complete && key == KeyOf(f) && Got() == {}
    {
      hide Count;
      key := KeyOf(f);
      receivedCount := 0;
      ClearBits();
      active := true;
    }

    /** What taking a fragment does, from the bytes and indices held before. */
    ghost predicate Pushed(f: Fragment, was: seq<u8>, got: set<nat>, status: Status, length: nat)
      requires f.offset + |f.data| <= |was|
      reads this, data, received
    {
      var repeated := f.index as nat in got;
      var again := was[f.offset..f.offset + |f.data|] == f.data;
      var last := !repeated && |got| + 1 == f.count;
      && data[..] == (if repeated then was else Splice(was, f.offset, f.data))
      && (repeated && !again ==> status == Ecorrupt && length == 0 && !active)
      && (repeated && again ==> status == Ok && length == 0 && active && !complete && key == KeyOf(f) && Got() == got)
      && (!repeated && !last ==>
            status == Ok && length == 0 && active && !complete && key == KeyOf(f) && Got() == got + {f.index as nat})
      && (last ==> f.totalLength <= data.Length)
      && (last && crc(data[..f.totalLength]) != f.envelopeCrc ==> status == Ecorrupt && length == 0 && !active)
      && (last && crc(data[..f.totalLength]) == f.envelopeCrc ==>
            && status == Ok && length == f.totalLength && active && complete
            && key == KeyOf(f) && Got() == got + {f.index as nat})
    }
  }

  // ---------------------------------------------------------------- whole receptions

  /** A fragment of the envelope being received. */
  predicate Own(crc: Checksum, eventId: u32, envelope: seq<u8>, mtu: nat, f: Fragment)
    requires Cuttable(envelope, mtu)
  {
    f.index < Count(|envelope|, mtu) && f == Cut(crc, eventId, envelope, mtu, f.index)
  }

  function EnvelopeKey(crc: Checksum, eventId: u32, envelope: seq<u8>, mtu: nat): Key
    requires Cuttable(envelope, mtu)
  {
    Key(eventId, crc(envelope), |envelope|, mtu, Count(|envelope|, mtu))
  }

  /** The room of a reassembly, which decides with the checksum what passes. */
  datatype Room = Room(crc: Checksum, capacity: nat, bits: nat)

  predicate Passes(room: Room, f: Fragment) {
    Check(room.crc, f, room.capacity, room.bits) == Ok
  }

  /** Nothing is forged: the fragments that pass under the key of the envelope are its own. */
  predicate Reception(room: Room, eventId: u32, envelope: seq<u8>, mtu: nat, pushes: seq<Fragment>)
    requires Cuttable(envelope, mtu)
  {
    forall k :: 0 <= k < |pushes| && Passes(room, pushes[k]) ==>
      || Own(room.crc, eventId, envelope, mtu, pushes[k])
      || KeyOf(pushes[k]) != EnvelopeKey(room.crc, eventId, envelope, mtu)
  }

  lemma ReceptionNext(room: Room, eventId: u32, envelope: seq<u8>, mtu: nat, pushes: seq<Fragment>, f: Fragment)
    requires Cuttable(envelope, mtu)
    ensures Reception(room, eventId, envelope, mtu, pushes + [f]) <==>
      Reception(room, eventId, envelope, mtu, pushes) && !Forged(room, eventId, envelope, mtu, f)
  {
    hide Own, Check, Count;
    var longer := pushes + [f];
    assert longer[|pushes|] == f && forall k :: 0 <= k < |pushes| ==> longer[k] == pushes[k];
  }

  lemma ReceptionPrefix(room: Room, eventId: u32, envelope: seq<u8>, mtu: nat, pushes: seq<Fragment>, k: nat)
    requires Cuttable(envelope, mtu) && k <= |pushes| && Reception(room, eventId, envelope, mtu, pushes)
    ensures Reception(room, eventId, envelope, mtu, pushes[..k])
  {
    hide Own, Check, Count;
  }

  predicate Forged(room: Room, eventId: u32, envelope: seq<u8>, mtu: nat, f: Fragment)
    requires Cuttable(envelope, mtu)
  {
    && Passes(room, f) && !Own(room.crc, eventId, envelope, mtu, f)
    && KeyOf(f) == EnvelopeKey(room.crc, eventId, envelope, mtu)
  }

  /** The distinct fragments of the envelope among those pushed. */
  function Seen(room: Room, key: Key, pushes: seq<Fragment>): set<nat> {
    if pushes == [] then {} else
    var f := pushes[|pushes| - 1];
    Seen(room, key, pushes[..|pushes| - 1]) + if Passes(room, f) && KeyOf(f) == key then {f.index as nat} else {}
  }

  /** The first fragment that passes decides which envelope is put together. */
  function Holder(room: Room, pushes: seq<Fragment>): Option<Key> {
    if pushes == [] then None else
    var first, f := Holder(room, pushes[..|pushes| - 1]), pushes[|pushes| - 1];
    if first.Some? then first else if Passes(room, f) then Some(KeyOf(f)) else None
  }

  lemma PushedNext(room: Room, key: Key, pushes: seq<Fragment>, f: Fragment)
    ensures Seen(room, key, pushes + [f]) ==
      Seen(room, key, pushes) + if Passes(room, f) && KeyOf(f) == key then {f.index as nat} else {}
    ensures Holder(room, pushes + [f]) ==
      if Holder(room, pushes).Some? then Holder(room, pushes) else if Passes(room, f) then Some(KeyOf(f)) else None
  {
    assert (pushes + [f])[..|pushes|] == pushes;
  }

  lemma {:induction false} NoneSeen(room: Room, key: Key, pushes: seq<Fragment>)
    requires Holder(room, pushes).None?
    ensures Seen(room, key, pushes) == {}
    decreases |pushes|
  {
    hide Check;
    if pushes != [] {
      NoneSeen(room, key, pushes[..|pushes| - 1]);
    }
  }

  /** A fragment that passed and was found to contradict what was put together: the reassembly starts afresh. */
  predicate Resets(room: Room, f: Fragment, status: Status) {
    Passes(room, f) && status == Ecorrupt
  }

  /** How many pushes there were up to the last fresh start. */
  function Since(room: Room, pushes: seq<Fragment>, answers: seq<(Status, nat)>): (n: nat)
    requires |answers| == |pushes|
    ensures n <= |pushes|
  {
    if pushes == [] then 0 else
    var last := |pushes| - 1;
    if Resets(room, pushes[last], answers[last].0) then |pushes| else Since(room, pushes[..last], answers[..last])
  }

  lemma SinceNext(room: Room, pushes: seq<Fragment>, answers: seq<(Status, nat)>, f: Fragment, a: (Status, nat))
    requires |answers| == |pushes|
    ensures Since(room, pushes + [f], answers + [a]) == if Resets(room, f, a.0) then |pushes| + 1
      else Since(room, pushes, answers)
  {
    assert (pushes + [f])[..|pushes|] == pushes && (answers + [a])[..|pushes|] == answers;
  }

  lemma {:induction false} NeverReset(room: Room, pushes: seq<Fragment>, answers: seq<(Status, nat)>, k: nat)
    requires |answers| == |pushes| && Since(room, pushes, answers) == 0 && k <= |pushes|
    ensures Since(room, pushes[..k], answers[..k]) == 0
    decreases |pushes|
  {
    hide Resets;
    if k == |pushes| {
      assert pushes[..k] == pushes && answers[..k] == answers;
    } else {
      var last := |pushes| - 1;
      NeverReset(room, pushes[..last], answers[..last], k);
      assert pushes[..last][..k] == pushes[..k] && answers[..last][..k] == answers[..k];
    }
  }

  /** The answer to a fragment of the envelope being put together, given the distinct ones before it. */
  predicate Answer(key: Key, before: set<nat>, f: Fragment, status: Status, length: nat) {
    if |before| == key.count then status == Ebusy && length == 0
    else status == Ok && length == if |before + {f.index as nat}| == key.count then key.totalLength else 0
  }

  /** The answer to any fragment, given the pushes since the last fresh start and whether none of them is forged. */
  predicate AnswerAfter(room: Room, key: Key, before: seq<Fragment>, f: Fragment, status: Status, length: nat,
                        genuine: bool) {
    var first := Holder(room, before);
    if !Passes(room, f) then status == Check(room.crc, f, room.capacity, room.bits) && length == 0
    else if first.Some? && first.value != KeyOf(f) then status == Ebusy && length == 0
    else if KeyOf(f) == key && genuine then Answer(key, Seen(room, key, before), f, status, length)
    else status in {Ok, Ebusy, Ecorrupt}
  }

  /** The bytes of the fragments received are those of the envelope. */
  ghost predicate Filled(envelope: seq<u8>, mtu: nat, data: seq<u8>, got: set<nat>)
    requires mtu > 0 && |envelope| <= |data|
  {
    forall j: nat :: j < |envelope| && j / mtu in got ==> data[j] == envelope[j]
  }

  /** A fragment that holds the bytes its index owns. */
  ghost predicate Covers(envelope: seq<u8>, mtu: nat, f: Fragment)
    requires mtu > 0
  {
    && f.offset + |f.data| <= |envelope| && f.data == envelope[f.offset..f.offset + |f.data|]
    && forall j: nat :: j < |envelope| ==> (f.offset <= j < f.offset + |f.data| <==> j / mtu == f.index)
  }

  lemma OwnIs(crc: Checksum, eventId: u32, envelope: seq<u8>, mtu: nat, f: Fragment, capacity: nat, bits: nat)
    requires Cuttable(envelope, mtu) && Own(crc, eventId, envelope, mtu, f) && |envelope| <= capacity
    requires Count(|envelope|, mtu) <= bits
    ensures Check(crc, f, capacity, bits) == Ok && KeyOf(f) == EnvelopeKey(crc, eventId, envelope, mtu)
    ensures Covers(envelope, mtu, f)
    ensures f.offset + |f.data| <= |envelope| && f.index < f.count
  {
    hide Check, Count;
    CutChecks(crc, eventId, envelope, mtu, f.index, capacity, bits);
    CheckedIff(crc, f, capacity, bits);
  }

  lemma FillsUp(envelope: seq<u8>, mtu: nat, was: seq<u8>, got: set<nat>, f: Fragment)
    requires mtu > 0 && |envelope| <= |was| && f.offset + |f.data| <= |was| && Covers(envelope, mtu, f)
    requires Filled(envelope, mtu, was, got)
    ensures Filled(envelope, mtu, Splice(was, f.offset, f.data), got + {f.index as nat})
    ensures f.index as nat in got ==> was[f.offset..f.offset + |f.data|] == f.data
  {
    if f.index as nat in got {
      forall i | 0 <= i < |f.data| ensures was[f.offset + i] == f.data[i] {
        assert (f.offset + i) / mtu == f.index;
      }
    }
  }

  lemma AllFilled(envelope: seq<u8>, mtu: nat, data: seq<u8>, got: set<nat>)
    requires mtu > 0 && |envelope| <= |data| && |got| == Count(|envelope|, mtu)
    requires forall i :: i in got ==> i < Count(|envelope|, mtu)
    requires Filled(envelope, mtu, data, got)
    ensures data[..|envelope|] == envelope
  {
    hide Count;
    forall j: nat | j < |envelope| ensures data[j] == envelope[j] {
      OwnerBelow(j, |envelope|, mtu);
      AllIn(got, Count(|envelope|, mtu), j / mtu);
    }
  }

  lemma CountPositive(envelope: seq<u8>, mtu: nat)
    requires Cuttable(envelope, mtu)
    ensures Count(|envelope|, mtu) > 0
  {
    CountIs(|envelope|, mtu);
  }

  /** The state of a reception under way: some fragments of this envelope, with their bytes in place. */
  ghost predicate Receiving(r: Reassembly, eventId: u32, envelope: seq<u8>, mtu: nat, got: set<nat>)
    requires Cuttable(envelope, mtu)
    reads r, r.data, r.received
  {
    && r.Valid() && |envelope| <= r.data.Length && Count(|envelope|, mtu) <= r.received.Length * 8 && r.Got() == got
    && (if r.active then r.key == EnvelopeKey(r.crc, eventId, envelope, mtu) else got == {})
    && Filled(envelope, mtu, r.data[..], got) && (r.complete <==> |got| == Count(|envelope|, mtu))
  }

  /** A fragment of the envelope itself. */
  method ReceiveOwn(r: Reassembly, eventId: u32, envelope: seq<u8>, mtu: nat, f: Fragment, ghost got: set<nat>)
      returns (status: Status, length: nat)
    requires Cuttable(envelope, mtu) && Receiving(r, eventId, envelope, mtu, got)
    requires Own(r.crc, eventId, envelope, mtu, f)
    modifies r, r.data, r.received
    ensures Receiving(r, eventId, envelope, mtu, got + {f.index as nat}) && r.active
    ensures KeyOf(f) == EnvelopeKey(r.crc, eventId, envelope, mtu) && Answer(KeyOf(f), got, f, status, length)
  {
    hide Check, Count, BitAt, Splice, Cut, Own, Filled, Covers, Reassembly.Got;
    ghost var was := r.data[..];
    CountPositive(envelope, mtu);
    OwnIs(r.crc, eventId, envelope, mtu, f, r.data.Length, r.received.Length * 8);
    FillsUp(envelope, mtu, was, got, f);
    if r.complete {
      AllIn(got, f.count, f.index);
      assert got + {f.index as nat} == got;
    } else if f.index as nat in got {
      assert got + {f.index as nat} == got;
    } else if |got| + 1 == f.count {
      AllFilled(envelope, mtu, Splice(was, f.offset, f.data), got + {f.index as nat});
    }
    status, length := r.Push(f);
  }

  function RoomOf(r: Reassembly): Room {
    Room(r.crc, r.data.Length, r.received.Length * 8)
  }

  /** The state after the pushes since the last fresh start. */
  ghost predicate Phase(r: Reassembly, eventId: u32, envelope: seq<u8>, mtu: nat, before: seq<Fragment>)
    requires Cuttable(envelope, mtu)
    reads r, r.data, r.received
  {
    var first, key := Holder(RoomOf(r), before), EnvelopeKey(r.crc, eventId, envelope, mtu);
    && r.Valid() && r.active == first.Some? && (r.active ==> r.key == first.value)
    && (first == Some(key) && Reception(RoomOf(r), eventId, envelope, mtu, before) ==>
          Receiving(r, eventId, envelope, mtu, Seen(RoomOf(r), key, before)))
  }

  /** One push of a reception. */
  method ReceiveOne(r: Reassembly, eventId: u32, envelope: seq<u8>, mtu: nat, f: Fragment, tainted: bool,
                    ghost before: seq<Fragment>)
      returns (status: Status, length: nat)
    requires Cuttable(envelope, mtu) && |envelope| <= r.data.Length && Count(|envelope|, mtu) <= r.received.Length * 8
    requires Phase(r, eventId, envelope, mtu, before)
    requires tainted == !Reception(RoomOf(r), eventId, envelope, mtu, before)
    modifies r, r.data, r.received
    ensures AnswerAfter(RoomOf(r), EnvelopeKey(r.crc, eventId, envelope, mtu), before, f, status, length,
                        Reception(RoomOf(r), eventId, envelope, mtu, before + [f]))
    ensures Phase(r, eventId, envelope, mtu, if Resets(RoomOf(r), f, status) then [] else before + [f])
  {
    hide Check, Count, BitAt, Cut, Own, Receiving, Reassembly.Got, Reassembly.Valid, Seen, Holder, Reception;
    ghost var room := RoomOf(r);
    var key := EnvelopeKey(r.crc, eventId, envelope, mtu);
    PushedNext(room, key, before, f);
    ReceptionNext(room, eventId, envelope, mtu, before, f);
    HoldsNone(room);
    var own := Check(r.crc, f, r.data.Length, r.received.Length * 8) == Ok && Own(r.crc, eventId, envelope, mtu, f);
    if own && !tainted && KeyOf(f) == key && (!r.active || r.key == key) {
      if !r.active {
        NoneSeen(room, key, before);
        ReceivingNone(r, eventId, envelope, mtu);
      }
      status, length := ReceiveOwn(r, eventId, envelope, mtu, f, Seen(room, key, before));
      HoldsKey(r, eventId, envelope, mtu, Seen(room, key, before + [f]));
    } else {
      assert Seen(room, key, before) + {} == Seen(room, key, before);
      status, length := PushOther(r, eventId, envelope, mtu, f, Seen(room, key, before));
    }
  }

  lemma HoldsNone(room: Room)
    ensures Holder(room, []) == None
  {
  }

  /**
   Any fragment; one that fails the checks or belongs to another envelope does not touch the reception of this one.
   */
  method PushOther(r: Reassembly, eventId: u32, envelope: seq<u8>, mtu: nat, f: Fragment, ghost got: set<nat>)
      returns (status: Status, length: nat)
    requires Cuttable(envelope, mtu) && r.Valid()
    modifies r, r.data, r.received
    ensures r.Valid()
    ensures !Passes(RoomOf(r), f) ==> status == Check(r.crc, f, r.data.Length, r.received.Length * 8) && length == 0
    ensures Passes(RoomOf(r), f) && old(r.active) && old(r.key) != KeyOf(f) ==> status == Ebusy && length == 0
    ensures Passes(RoomOf(r), f) ==> status in {Ok, Ebusy, Ecorrupt}
    ensures Resets(RoomOf(r), f, status) ==> !r.active
    ensures !Resets(RoomOf(r), f, status) ==>
      if old(r.active) then r.active && r.key == old(r.key)
      else r.active == Passes(RoomOf(r), f) && (r.active ==> r.key == KeyOf(f))
    ensures
      var key := EnvelopeKey(r.crc, eventId, envelope, mtu);
      old(r.active && r.key == key && Receiving(r, eventId, envelope, mtu, got)) ==>
        (Passes(RoomOf(r), f) && KeyOf(f) == key) || (r.active && Receiving(r, eventId, envelope, mtu, got))
  {
    hide Check, Count, BitAt, Splice, Reassembly.Got, Filled;
    if Check(r.crc, f, r.data.Length, r.received.Length * 8) == Ok {
      CheckedIff(r.crc, f, r.data.Length, r.received.Length * 8);
    }
    status, length := r.Push(f);
  }

  /**
   A whole reception of any fragments in any order, repeated or foreign, valid or forged. As long as nothing was forged
   since the last fresh start, an envelope is reported complete, byte for byte, exactly when the first fragment to pass
   since then was its own and its last distinct one arrives; until the others are done with, its fragments are turned
   away.
   */
  method Receive(r: Reassembly, eventId: u32, envelope: seq<u8>, mtu: nat, pushes: seq<Fragment>)
      returns (answers: seq<(Status, nat)>)
    requires r.Valid() && !r.active && Cuttable(envelope, mtu) && |envelope| <= r.data.Length
    requires Count(|envelope|, mtu) <= r.received.Length * 8
    modifies r, r.data, r.received
    ensures |answers| == |pushes| && forall k :: 0 <= k < |pushes| ==>
      var since := Since(RoomOf(r), pushes[..k], answers[..k]);
      AnswerAfter(RoomOf(r), EnvelopeKey(r.crc, eventId, envelope, mtu), pushes[since..k], pushes[k], answers[k].0,
                  answers[k].1, Reception(RoomOf(r), eventId, envelope, mtu, pushes[since..k] + [pushes[k]]))
    ensures var first := Holder(RoomOf(r), pushes[Since(RoomOf(r), pushes, answers)..]);
      r.active == first.Some? && (r.active ==> r.key == first.value)
    ensures var room, key := RoomOf(r), EnvelopeKey(r.crc, eventId, envelope, mtu);
      var latest := pushes[Since(room, pushes, answers)..];
      Holder(room, latest) == Some(key) && Reception(room, eventId, envelope, mtu, latest) ==>
        && r.Got() == Seen(room, key, latest) && r.receivedCount == |Seen(room, key, latest)|
        && (r.complete <==> |Seen(room, key, latest)| == Count(|envelope|, mtu))
        && (r.complete ==> r.data[..|envelope|] == envelope)
    ensures Reception(RoomOf(r), eventId, envelope, mtu, pushes)
            && Holder(RoomOf(r), pushes) in {None, Some(EnvelopeKey(r.crc, eventId, envelope, mtu))} ==>
      Since(RoomOf(r), pushes, answers) == 0
  {
    hide Count, BitAt, Cut, AnswerAfter, Own, Receiving, Reassembly.Got, Seen, Holder, Check, Since, Phase,
         Reassembly.Valid, Reception;
    ghost var room, key := RoomOf(r), EnvelopeKey(r.crc, eventId, envelope, mtu);
    answers := [];
    PhaseNone(r, eventId, envelope, mtu);
    var tainted := false;
    var i := 0;
    while i < |pushes|
      invariant 0 <= i <= |pushes| && |answers| == i
      invariant forall k :: 0 <= k < i ==>
        var since := Since(room, pushes[..k], answers[..k]);
        AnswerAfter(room, key, pushes[since..k], pushes[k], answers[k].0, answers[k].1,
                    Reception(room, eventId, envelope, mtu, pushes[since..k] + [pushes[k]]))
      invariant Phase(r, eventId, envelope, mtu, pushes[Since(room, pushes[..i], answers)..i])
      invariant tainted == !Reception(room, eventId, envelope, mtu, pushes[Since(room, pushes[..i], answers)..i])
      invariant Holder(room, pushes[..i]) in {None, Some(key)} && Reception(room, eventId, envelope, mtu, pushes[..i])
                ==> Since(room, pushes[..i], answers) == 0
    {
      ghost var n := Since(room, pushes[..i], answers);
      var status, length := ReceiveOne(r, eventId, envelope, mtu, pushes[i], tainted, pushes[n..i]);
      ReceiveNext(room, eventId, envelope, mtu, pushes, answers, i, status, length);
      var forged := Forged(RoomOf(r), eventId, envelope, mtu, pushes[i]);
      var resets := Resets(RoomOf(r), pushes[i], status);
      tainted := !resets && (tainted || forged);
      ghost var before := answers;
      answers := answers + [(status, length)];
      forall k | 0 <= k <= i ensures answers[..k] == before[..k] {
      }
      assert before[..i] == before;
      i := i + 1;
    }
    assert pushes[..i] == pushes;
    ghost var latest := pushes[Since(room, pushes, answers)..];
    assert pushes[Since(room, pushes, answers)..i] == latest;
    PhaseEnds(r, eventId, envelope, mtu, latest);
  }

  /** What one more push does to the fresh starts. */
  lemma ReceiveNext(room: Room, eventId: u32, envelope: seq<u8>, mtu: nat, pushes: seq<Fragment>,
                    answers: seq<(Status, nat)>, i: nat, status: Status, length: nat)
    requires Cuttable(envelope, mtu) && i < |pushes| && |answers| == i
    requires Reception(room, eventId, envelope, mtu, pushes[..i])
             && Holder(room, pushes[..i]) in {None, Some(EnvelopeKey(room.crc, eventId, envelope, mtu))} ==>
      Since(room, pushes[..i], answers) == 0
    requires var n := Since(room, pushes[..i], answers);
      AnswerAfter(room, EnvelopeKey(room.crc, eventId, envelope, mtu), pushes[n..i], pushes[i], status, length,
                  Reception(room, eventId, envelope, mtu, pushes[n..i] + [pushes[i]]))
    ensures
      var n := Since(room, pushes[..i], answers);
      var next := Since(room, pushes[..i + 1], answers + [(status, length)]);
      && next == (if Resets(room, pushes[i], status) then i + 1 else n)
      && pushes[next..i + 1] == (if Resets(room, pushes[i], status) then [] else pushes[n..i] + [pushes[i]])
      && (Reception(room, eventId, envelope, mtu, pushes[next..i + 1]) <==>
            Resets(room, pushes[i], status)
            || (Reception(room, eventId, envelope, mtu, pushes[n..i])
                && !Forged(room, eventId, envelope, mtu, pushes[i])))
    ensures Reception(room, eventId, envelope, mtu, pushes[..i + 1])
            && Holder(room, pushes[..i + 1]) in {None, Some(EnvelopeKey(room.crc, eventId, envelope, mtu))} ==>
      Since(room, pushes[..i + 1], answers + [(status, length)]) == 0
  {
    hide Count, Cut, AnswerAfter, Own, Seen, Holder, Check, Since, Reception, Resets, Forged;
    var key, n := EnvelopeKey(room.crc, eventId, envelope, mtu), Since(room, pushes[..i], answers);
    SinceNext(room, pushes[..i], answers, pushes[i], (status, length));
    assert pushes[..i] + [pushes[i]] == pushes[..i + 1] && pushes[n..i] + [pushes[i]] == pushes[n..i + 1];
    ReceptionNext(room, eventId, envelope, mtu, pushes[n..i], pushes[i]);
    ReceptionNext(room, eventId, envelope, mtu, pushes[..i], pushes[i]);
    ReceptionNone(room, eventId, envelope, mtu);
    OwnStays(room, key, pushes[..i], pushes[i], status, length);
    assert n == 0 ==> pushes[n..i] == pushes[..i];
  }

  lemma ReceptionNone(room: Room, eventId: u32, envelope: seq<u8>, mtu: nat)
    requires Cuttable(envelope, mtu)
    ensures Reception(room, eventId, envelope, mtu, [])
  {
  }

  /** While the envelope is the one being put together, there is no fresh start. */
  lemma OwnStays(room: Room, key: Key, before: seq<Fragment>, f: Fragment, status: Status, length: nat)
    ensures Holder(room, before + [f]) in {None, Some(key)} && AnswerAfter(room, key, before, f, status, length, true)
            ==> !Resets(room, f, status)
    ensures Holder(room, before + [f]) in {None, Some(key)} ==> Holder(room, before) in {None, Some(key)}
  {
    hide Check, Seen, Holder;
    PushedNext(room, key, before, f);
  }

  lemma PhaseNone(r: Reassembly, eventId: u32, envelope: seq<u8>, mtu: nat)
    requires r.Valid() && !r.active && Cuttable(envelope, mtu)
    ensures Phase(r, eventId, envelope, mtu, []) && Since(RoomOf(r), [], []) == 0
    ensures Reception(RoomOf(r), eventId, envelope, mtu, [])
  {
    hide Count, Reassembly.Got;
  }

  lemma PhaseEnds(r: Reassembly, eventId: u32, envelope: seq<u8>, mtu: nat, latest: seq<Fragment>)
    requires Cuttable(envelope, mtu) && Phase(r, eventId, envelope, mtu, latest)
    ensures var room, key := RoomOf(r), EnvelopeKey(r.crc, eventId, envelope, mtu);
      && r.active == Holder(room, latest).Some? && (r.active ==> r.key == Holder(room, latest).value)
      && (Holder(room, latest) == Some(key) && Reception(room, eventId, envelope, mtu, latest) ==>
            && r.Got() == Seen(room, key, latest) && r.receivedCount == |Seen(room, key, latest)|
            && (r.complete <==> |Seen(room, key, latest)| == Count(|envelope|, mtu))
            && (r.complete ==> |envelope| <= r.data.Length && r.data[..|envelope|] == envelope))
  {
    hide Count, Filled, Receiving, Seen, Holder, Reassembly.Got, Check, Reception;
    var room, key := RoomOf(r), EnvelopeKey(r.crc, eventId, envelope, mtu);
    if Holder(room, latest) == Some(key) && Reception(room, eventId, envelope, mtu, latest) {
      ReceivingEnds(r, eventId, envelope, mtu, Seen(room, key, latest));
    }
  }

  lemma ReceivingNone(r: Reassembly, eventId: u32, envelope: seq<u8>, mtu: nat)
    requires r.Valid() && !r.active && Cuttable(envelope, mtu) && |envelope| <= r.data.Length
    requires Count(|envelope|, mtu) <= r.received.Length * 8
    ensures Receiving(r, eventId, envelope, mtu, {})
  {
    hide Count;
    CountPositive(envelope, mtu);
  }

  lemma ReceivingEnds(r: Reassembly, eventId: u32, envelope: seq<u8>, mtu: nat, got: set<nat>)
    requires Cuttable(envelope, mtu) && Receiving(r, eventId, envelope, mtu, got)
    ensures r.active ==> r.receivedCount == |got|
    ensures r.Got() == got && (r.complete <==> |got| == Count(|envelope|, mtu))
    ensures r.complete ==> |envelope| <= r.data.Length && r.data[..|envelope|] == envelope
  {
    hide Count, Filled;
    if r.complete {
      AllFilled(envelope, mtu, r.data[..], got);
    }
  }

  // ---------------------------------------------------------------- several envelopes at once

  /** Every fragment that passes was cut from the envelope known under its key. */
  predicate Genuine(room: Room, source: Key -> seq<u8>, pushes: seq<Fragment>) {
    forall k :: 0 <= k < |pushes| && Passes(room, pushes[k]) ==> CutFrom(room, source(KeyOf(pushes[k])), pushes[k])
  }

  predicate CutFrom(room: Room, envelope: seq<u8>, f: Fragment) {
    && Cuttable(envelope, f.capacity) && |envelope| <= room.capacity && Count(|envelope|, f.capacity) <= room.bits
    && Own(room.crc, f.eventId, envelope, f.capacity, f)
  }

  /**
   Fragments of any number of envelopes at once, none of them forged: the first one to pass decides, that envelope is
   complete exactly when all its fragments have been seen, and every fragment of another one is turned away.
   */
  method ReceiveGenuine(r: Reassembly, source: Key -> seq<u8>, pushes: seq<Fragment>)
      returns (answers: seq<(Status, nat)>)
    requires r.Valid() && !r.active
    modifies r, r.data, r.received
    ensures |answers| == |pushes|
    ensures Genuine(RoomOf(r), source, pushes) && Holder(RoomOf(r), pushes).None? ==>
      !r.active && forall k :: 0 <= k < |pushes| ==>
        answers[k] == (Check(r.crc, pushes[k], r.data.Length, r.received.Length * 8), 0)
    ensures Genuine(RoomOf(r), source, pushes) && Holder(RoomOf(r), pushes).Some? ==>
      var key := Holder(RoomOf(r), pushes).value;
      && r.active && r.key == key && r.Got() == Seen(RoomOf(r), key, pushes)
      && (r.complete <==> |Seen(RoomOf(r), key, pushes)| == key.count)
      && (r.complete ==> key.totalLength <= r.data.Length && r.data[..key.totalLength] == source(key))
      && forall k :: 0 <= k < |pushes| ==>
        AnswerAfter(RoomOf(r), key, pushes[..k], pushes[k], answers[k].0, answers[k].1, true)
  {
    hide Count, BitAt, Cut, AnswerAfter, Own, Reassembly.Got, Seen, Holder, Check, Since, Reassembly.Valid, CutFrom,
         Genuine;
    ghost var room := RoomOf(r);
    var j := FirstPassing(r, pushes);
    assert pushes[..|pushes|] == pushes;
    if j == |pushes| || !Genuine(RoomOf(r), source, pushes) {
      if j < |pushes| {
        FirstDecides(room, pushes, j);
      }
      answers := PushAll(r, pushes);
      return;
    }
    var f := pushes[j];
    var envelope := source(KeyOf(f));
    FirstDecides(room, pushes, j);
    GenuineAt(room, source, pushes, j);
    GenuineReception(room, source, pushes, f);
    answers := Receive(r, f.eventId, envelope, f.capacity, pushes);
    ghost var key := KeyOf(f);
    forall k | 0 <= k < |pushes|
      ensures AnswerAfter(room, key, pushes[..k], pushes[k], answers[k].0, answers[k].1, true)
    {
      NeverReset(room, pushes, answers, k);
      ReceptionPrefix(room, f.eventId, envelope, f.capacity, pushes, k + 1);
      assert pushes[0..k] == pushes[..k] && pushes[..k] + [pushes[k]] == pushes[..k + 1];
    }
    assert pushes[0..] == pushes;
  }

  lemma GenuineAt(room: Room, source: Key -> seq<u8>, pushes: seq<Fragment>, j: nat)
    requires Genuine(room, source, pushes) && j < |pushes| && Passes(room, pushes[j])
    ensures CutFrom(room, source(KeyOf(pushes[j])), pushes[j])
  {
    hide CutFrom, Check;
  }

  method FirstPassing(r: Reassembly, pushes: seq<Fragment>) returns (j: nat)
    ensures j <= |pushes| && (forall k :: 0 <= k < j ==> !Passes(RoomOf(r), pushes[k]))
    ensures Holder(RoomOf(r), pushes[..j]).None?
    ensures j < |pushes| ==> Passes(RoomOf(r), pushes[j])
  {
    hide Check, Holder;
    j := 0;
    HoldsNone(RoomOf(r));
    while j < |pushes| && Check(r.crc, pushes[j], r.data.Length, r.received.Length * 8) != Ok
      invariant 0 <= j <= |pushes| && (forall k :: 0 <= k < j ==> !Passes(RoomOf(r), pushes[k]))
      invariant Holder(RoomOf(r), pushes[..j]).None?
    {
      assert pushes[..j] + [pushes[j]] == pushes[..j + 1];
      PushedNext(RoomOf(r), KeyOf(pushes[j]), pushes[..j], pushes[j]);
      j := j + 1;
    }
  }

  method PushAll(r: Reassembly, pushes: seq<Fragment>) returns (answers: seq<(Status, nat)>)
    requires r.Valid() && !r.active
    modifies r, r.data, r.received
    ensures r.Valid() && |answers| == |pushes|
    ensures (forall k :: 0 <= k < |pushes| ==> !Passes(RoomOf(r), pushes[k])) ==>
      !r.active && forall k :: 0 <= k < |pushes| ==>
        answers[k] == (Check(r.crc, pushes[k], r.data.Length, r.received.Length * 8), 0)
  {
    hide Check, Holder, Reassembly.Got, Reassembly.Pushed, Splice;
    answers := [];
    var i := 0;
    while i < |pushes|
      invariant 0 <= i <= |pushes| && |answers| == i && r.Valid()
      invariant (forall k :: 0 <= k < i ==> !Passes(RoomOf(r), pushes[k])) ==>
        !r.active && forall k :: 0 <= k < i ==>
          answers[k] == (Check(r.crc, pushes[k], r.data.Length, r.received.Length * 8), 0)
    {
      var status, length := r.Push(pushes[i]);
      answers := answers + [(status, length)];
      i := i + 1;
    }
  }

  lemma {:induction false} FirstDecides(room: Room, pushes: seq<Fragment>, j: nat)
    requires j < |pushes| && Passes(room, pushes[j]) && Holder(room, pushes[..j]).None?
    ensures Holder(room, pushes) == Some(KeyOf(pushes[j]))
    decreases |pushes|
  {
    hide Check;
    var last := |pushes| - 1;
    if j < last {
      assert pushes[..last][..j] == pushes[..j];
      FirstDecides(room, pushes[..last], j);
    }
  }

  lemma GenuineReception(room: Room, source: Key -> seq<u8>, pushes: seq<Fragment>, f: Fragment)
    requires Genuine(room, source, pushes) && CutFrom(room, source(KeyOf(f)), f)
    ensures var envelope := source(KeyOf(f));
      && Cuttable(envelope, f.capacity) && |envelope| <= room.capacity && Count(|envelope|, f.capacity) <= room.bits
      && EnvelopeKey(room.crc, f.eventId, envelope, f.capacity) == KeyOf(f)
      && Reception(room, f.eventId, envelope, f.capacity, pushes)
      && f.totalLength == |envelope| && f.count == Count(|envelope|, f.capacity)
  {
    hide Check, Count, Cut;
  }

  /**
   A fragment of another envelope that comes first shuts the envelope out: every fragment of its own is answered busy.
   */
  method ShutOut(r: Reassembly, first: Fragment, foreign: seq<u8>, key: Key, pushes: seq<Fragment>)
      returns (answers: seq<(Status, nat)>)
    requires r.Valid() && !r.active && Passes(RoomOf(r), first) && CutFrom(RoomOf(r), foreign, first)
    requires KeyOf(first) != key
    requires forall k :: 0 <= k < |pushes| ==> Passes(RoomOf(r), pushes[k]) && KeyOf(pushes[k]) == key
    modifies r, r.data, r.received
    ensures |answers| == |pushes| && forall k :: 0 <= k < |pushes| ==> answers[k] == (Ebusy, 0)
    ensures r.active && r.key == KeyOf(first)
  {
    hide Count, BitAt, Cut, Own, Reassembly.Got, Check, Receiving, Splice;
    GenuineReception(RoomOf(r), _ => foreign, [], first);
    ReceivingNone(r, first.eventId, foreign, first.capacity);
    var status, length := ReceiveOwn(r, first.eventId, foreign, first.capacity, first, {});
    assert r.Valid() && r.key == KeyOf(first) by {
      HoldsKey(r, first.eventId, foreign, first.capacity, {first.index as nat});
    }
    answers := [];
    var i := 0;
    while i < |pushes|
      invariant 0 <= i <= |pushes| && |answers| == i && r.Valid() && r.active && r.key == KeyOf(first)
      invariant forall k :: 0 <= k < i ==> answers[k] == (Ebusy, 0)
    {
      status, length := r.Push(pushes[i]);
      answers := answers + [(status, length)];
      i := i + 1;
    }
  }

  lemma HoldsKey(r: Reassembly, eventId: u32, envelope: seq<u8>, mtu: nat, got: set<nat>)
    requires Cuttable(envelope, mtu) && Receiving(r, eventId, envelope, mtu, got) && r.active
    ensures r.Valid() && r.key == EnvelopeKey(r.crc, eventId, envelope, mtu)
  {
  }
}
