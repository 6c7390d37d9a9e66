/**
 The spool: a transactional store of envelopes waiting for transport. Record state only moves from erased to
 committed to acknowledged; slots are reserved by priority; the flash is erased only when nothing is committed.
 */
module Spool {
  import opened Bits
  import opened Counting
  import opened Words
  import opened Storage
  import opened SlotCommit
  import opened SpoolFormat

  // ---------------------------------------------------------------- erasing and the spool header

  /** Erasing a prefix of the device leaves each slot as it was or without its first byte. */
  lemma WipedSlots(cfg: Config, b: seq<u8>, k: nat)
    requires k <= |b| && SlotOffset(cfg, cfg.slots) <= |b|
    ensures forall s :: 0 <= s < cfg.slots ==>
      Slot(cfg, Splice(b, 0, Blank(k)), s) == Slot(cfg, b, s) || Slot(cfg, Splice(b, 0, Blank(k)), s)[0] == ERASED
  {
    var b' := Splice(b, 0, Blank(k));
    forall s | 0 <= s < cfg.slots ensures Slot(cfg, b', s) == Slot(cfg, b, s) || Slot(cfg, b', s)[0] == ERASED {
      SlotInside(cfg, s, cfg.slots);
      var at := SlotOffset(cfg, s);
      if k <= at {
        assert forall i :: at <= i < at + SlotSize(cfg) ==> b'[i] == b[i];
      }
    }
  }

  /** An erase, complete or torn, commits nothing. */
  lemma WipedView(cfg: Config, b: seq<u8>, k: nat)
    requires k <= |b| && SlotOffset(cfg, cfg.slots) <= |b| && View(cfg, b) == map[]
    ensures View(cfg, Splice(b, 0, Blank(k))) == map[]
  {
    hide Committed, Slot, SlotOffset, Splice;
    var b' := Splice(b, 0, Blank(k));
    WipedSlots(cfg, b, k);
    forall s: nat | s < cfg.slots ensures !CommittedAt(cfg, b', s) {
      assert s !in View(cfg, b);
      if Slot(cfg, b', s)[0] == ERASED {
        NotCommittedErased(cfg, b', s);
      }
    }
  }

  lemma NotCommittedErased(cfg: Config, b: seq<u8>, s: nat)
    requires s < cfg.slots && SlotOffset(cfg, cfg.slots) <= |b| && Slot(cfg, b, s)[0] == ERASED
    ensures !CommittedAt(cfg, b, s)
  {
    ErasedIsInvalid(cfg, Slot(cfg, b, s));
  }

  /** Writing the spool header touches no slot. */
  lemma HeaderWriteKeepsSlots(cfg: Config, b: seq<u8>, at: nat, t: seq<u8>)
    requires at + |t| <= HEADER_SIZE && SlotOffset(cfg, cfg.slots) <= |b| && HEADER_SIZE <= |b|
    ensures forall s :: 0 <= s < cfg.slots ==> Slot(cfg, Splice(b, at, t), s) == Slot(cfg, b, s)
    ensures View(cfg, Splice(b, at, t)) == View(cfg, b)
  {
    hide Committed, RecOf;
    var b' := Splice(b, at, t);
    forall s | 0 <= s < cfg.slots ensures Slot(cfg, b', s) == Slot(cfg, b, s) {
      SlotInside(cfg, s, cfg.slots);
    }
    assert forall s: nat :: s < cfg.slots ==> CommittedAt(cfg, b', s) == CommittedAt(cfg, b, s);
  }

  function SpoolHeaderPrefix(cfg: Config, sequence: u32): (h: seq<u8>)
    requires Sane(cfg)
    ensures |h| == 16
  {
    U32Bytes(SPOOL_MAGIC) + U16Bytes(VERSION) + U16Bytes(cfg.slots) + U32Bytes(SlotSize(cfg)) + U32Bytes(sequence)
  }

  predicate HeaderValid(cfg: Config, h: seq<u8>)
    requires |h| == HEADER_SIZE
  {
    && ReadU32(h, 0) == SPOOL_MAGIC && ReadU16(h, 4) == VERSION && ReadU16(h, 6) == cfg.slots
    && ReadU32(h, 8) == SlotSize(cfg) && h[20] == COMMITTED && ReadU32(h, 16) == cfg.crc(h[..16])
  }

  // ---------------------------------------------------------------- appending

  /** The slot after an append: invisible, or exactly the record. */
  predicate Appended(cfg: Config, r: seq<u8>, rec: Rec)
    requires |r| == SlotSize(cfg) && |rec.data| <= cfg.maxEvent <= 0xffff
  {
    r[STATE] == ERASED || Complete(cfg, r, rec)
  }

  /** The three programming steps of an append, each possibly cut short. */
  lemma AppendSteps(cfg: Config, r: seq<u8>, rec: Rec, d1: nat, d2: nat, d3: nat)
    requires |r| == SlotSize(cfg) && 0 < |rec.data| <= cfg.maxEvent <= 0xffff && r[..RECORD_SIZE] == Blank(RECORD_SIZE)
    requires d1 <= RECORD_SIZE && d2 <= |rec.data| && d3 <= 1
    requires (d2 > 0 ==> d1 == RECORD_SIZE) && (d3 > 0 ==> d1 == RECORD_SIZE && d2 == |rec.data|)
    ensures var h := EncodeRecord(cfg.crc, rec);
      var r' := Splice(Splice(Splice(r, 0, h[..d1]), RECORD_SIZE, rec.data[..d2]), STATE, [COMMITTED][..d3]);
      Appended(cfg, r', rec) && (d3 > 0 ==> Complete(cfg, r', rec))
  {
    hide EncodePrefix;
    var h := EncodeRecord(cfg.crc, rec);
    assert r[STATE] == r[..RECORD_SIZE][STATE];
    assert h[STATE] == Blank(4)[0];
    var r1 := Splice(r, 0, h[..d1]);
    var r2 := Splice(r1, RECORD_SIZE, rec.data[..d2]);
    assert r1[STATE] == ERASED && r2[STATE] == ERASED;
    if d3 > 0 {
      var r3 := Splice(r2, STATE, [COMMITTED][..d3]);
      assert h[..d1] == h && rec.data[..d2] == rec.data;
      assert r3[..24] == h[..24];
      assert r3[RECORD_SIZE..RECORD_SIZE + |rec.data|] == rec.data;
    }
  }

  /** After an append the view has gained the record or nothing. */
  lemma AppendedView(cfg: Config, b: seq<u8>, b': seq<u8>, slot: nat, rec: Rec)
    requires Sane(cfg) && slot < cfg.slots && SlotOffset(cfg, cfg.slots) <= |b| == |b'|
    requires SlotOffset(cfg, slot) + SlotSize(cfg) <= |b| && OnlySlot(b, b', SlotOffset(cfg, slot), SlotSize(cfg))
    requires 0 < |rec.data| <= cfg.maxEvent && rec.priority <= DIAGNOSTIC
    requires Slot(cfg, b, slot)[0] == ERASED && Appended(cfg, Slot(cfg, b', slot), rec)
    ensures slot !in View(cfg, b)
    ensures var complete := Complete(cfg, Slot(cfg, b', slot), rec) && 1 <= rec.eventType <= 8;
      View(cfg, b') == if complete then View(cfg, b)[slot := rec] else View(cfg, b)
  {
    hide Slot, RecOf, OnlySlot, SlotOffset, SlotSize, Complete, RecordValid;
    var r := Slot(cfg, b', slot);
    NotCommittedErased(cfg, b, slot);
    ViewAfter(cfg, b, b', slot);
    if Complete(cfg, r, rec) {
      CompleteReadsBack(cfg, r, rec);
    }
    assert View(cfg, b) - {slot} == View(cfg, b);
  }

  // ---------------------------------------------------------------- acknowledging and retries

  /** Programming the state byte of a committed slot, cut short or not, keeps the record or removes it whole. */
  lemma AckView(cfg: Config, b: seq<u8>, b': seq<u8>, slot: nat, done: nat)
    requires slot < cfg.slots && SlotOffset(cfg, cfg.slots) <= |b| == |b'| && done <= 1
    requires SlotOffset(cfg, slot) + SlotSize(cfg) <= |b| && OnlySlot(b, b', SlotOffset(cfg, slot), SlotSize(cfg))
    requires Slot(cfg, b', slot) == Splice(Slot(cfg, b, slot), STATE, [ACKED][..done])
    ensures View(cfg, b') == if done == 1 then View(cfg, b) - {slot} else View(cfg, b)
  {
    hide RecOf, OnlySlot, SlotOffset, RecordValid, Slot;
    ViewAfter(cfg, b, b', slot);
    if done == 1 {
      assert [ACKED][..1] == [ACKED];
      assert Slot(cfg, b', slot)[STATE] == ACKED;
    } else {
      assert Slot(cfg, b', slot) == Slot(cfg, b, slot);
      if !CommittedAt(cfg, b, slot) {
        assert View(cfg, b) - {slot} == View(cfg, b);
      }
    }
  }

  /** Programming the retry byte changes no record. */
  lemma RetryView(cfg: Config, b: seq<u8>, b': seq<u8>, slot: nat, bits: seq<u8>)
    requires slot < cfg.slots && SlotOffset(cfg, cfg.slots) <= |b| == |b'| && |bits| <= 1
    requires SlotOffset(cfg, slot) + SlotSize(cfg) <= |b| && OnlySlot(b, b', SlotOffset(cfg, slot), SlotSize(cfg))
    requires Slot(cfg, b', slot) == Splice(Slot(cfg, b, slot), RETRY, bits)
    ensures View(cfg, b') == View(cfg, b)
  {
    hide RecOf, OnlySlot, SlotOffset, RecordValid, Slot;
    ViewAfter(cfg, b, b', slot);
    var r, r' := Slot(cfg, b, slot), Slot(cfg, b', slot);
    assert r'[..24] == r[..24] && r'[RECORD_SIZE..] == r[RECORD_SIZE..] && r'[STATE] == r[STATE];
    HeaderDecides(cfg, r, r');
    if !CommittedAt(cfg, b, slot) {
      assert View(cfg, b) - {slot} == View(cfg, b);
    }
  }

  /** The lowest set bit cleared: one more retry counted in unary. */
  function ClearLowest(bits: nat): (r: nat)
    ensures r <= bits && (bits > 0 ==> r < bits)
  {
    if bits == 0 then 0 else if bits % 2 == 1 then bits - 1 else 2 * ClearLowest(bits / 2)
  }

  /** How many retries have been counted in a byte. */
  function Ones(bits: nat): nat {
    if bits == 0 then 0 else bits % 2 + Ones(bits / 2)
  }

  /** A retry only clears bits. */
  lemma {:induction false} ClearLowestFalls(bits: nat)
    ensures And(bits, ClearLowest(bits)) == ClearLowest(bits)
  {
    if bits > 0 {
      if bits % 2 == 1 {
        AndSame(bits / 2);
        AndCons(1, 0, bits / 2, bits / 2);
      } else {
        ClearLowestFalls(bits / 2);
        AndCons(0, 0, bits / 2, ClearLowest(bits / 2));
      }
    }
  }

  /** It clears exactly one bit, so the cleared bits count the retries. */
  lemma {:induction false} ClearLowestCounts(bits: nat)
    requires bits > 0
    ensures Ones(ClearLowest(bits)) == Ones(bits) - 1
  {
    if bits % 2 == 0 {
      ClearLowestCounts(bits / 2);
    }
  }

  // ---------------------------------------------------------------- order of delivery

  /** Is a to be sent before b: more important, or equally important and older by the signed 32-bit difference? */
  predicate Before(a: Rec, b: Rec) {
    a.priority < b.priority || (a.priority == b.priority && (a.sequence - b.sequence) % 0x1_0000_0000 >= 0x8000_0000)
  }

  /** All sequence numbers of one priority lie within half the range above a base. */
  ghost predicate HalfRange(view: map<nat, Rec>, priority: u8, base: u32) {
    forall s :: s in view && view[s].priority == priority ==> Distance(base, view[s].sequence) < 0x8000_0000
  }

  lemma BeforeIsOrder(a: Rec, b: Rec, base: u32)
    requires Distance(base, a.sequence) < 0x8000_0000 && Distance(base, b.sequence) < 0x8000_0000
    ensures Before(a, b) <==>
      a.priority < b.priority || (a.priority == b.priority && Distance(base, a.sequence) < Distance(base, b.sequence))
  {
    hide Distance;
    DistanceDifference(a.sequence, b.sequence, base);
  }

  // ---------------------------------------------------------------- reserved slots

  function SlotLimit(cfg: Config, priority: u8): (limit: nat)
    requires Sane(cfg)
    ensures limit <= cfg.slots
  {
    if priority == EMERGENCY then cfg.slots
    else if priority == CRITICAL then cfg.slots - cfg.reservedEmergency
    else cfg.slots - cfg.reservedCritical
  }

  predicate Vacant(cfg: Config, b: seq<u8>, slot: nat)
    requires slot < cfg.slots && SlotOffset(cfg, cfg.slots) <= |b|
  {
    Slot(cfg, b, slot)[..RECORD_SIZE] == Blank(RECORD_SIZE)
  }

  // ---------------------------------------------------------------- the spool object

  class Store {
    const raw: Device
    const cfg: Config
    var sequence: u32
    var dropped: u32      // appends turned away for lack of a slot
    var watermark: nat    // the most committed records seen after an append

    predicate Ready() {
      Sane(cfg) && StorageSize(cfg) <= raw.data.Length && SlotOffset(cfg, cfg.slots) <= StorageSize(cfg)
    }

    constructor (device: Device, config: Config)
      requires Sane(config) && StorageSize(config) <= device.data.Length
      ensures Ready() && raw == device && cfg == config && sequence == 0 && dropped == 0 && watermark == 0
    {
      raw, cfg, sequence, dropped, watermark := device, config, 0, 0, 0;
      new;
      StorageSizeIs(cfg);
    }

    /** Reads the record header of a slot. */
    method ReadRecord(slot: nat) returns (status: Status, h: seq<u8>)
      requires Ready() && slot < cfg.slots
      modifies raw`operationCount
      ensures old(raw.Quiet()) ==> raw.Quiet() && status == Ok
      ensures status == Ok ==> h == Slot(cfg, raw.data[..], slot)[..RECORD_SIZE]
      ensures status == Ok ==> (RecordValid(cfg, h) <==> RecordValid(cfg, Slot(cfg, raw.data[..], slot)))
      ensures status == Ok ==> (Committed(cfg, h) <==> CommittedAt(cfg, raw.data[..], slot))
      ensures raw.operationCount == old(raw.operationCount) + 1 && (status == Ok <==> !raw.Failing())
    {
      SlotInside(cfg, slot, cfg.slots);
      status, h := ReadSlot(raw, SlotOffset(cfg, slot), SlotSize(cfg), 0, RECORD_SIZE);
      if status == Ok {
        PrefixDecides(cfg, Slot(cfg, raw.data[..], slot), h);
      }
    }

    /** Programs part of a slot. */
    method ProgramRecord(slot: nat, at: nat, src: seq<u8>) returns (status: Status, ghost done: nat)
      requires Ready() && slot < cfg.slots && at + |src| <= SlotSize(cfg)
      requires SlotOffset(cfg, slot) + SlotSize(cfg) <= raw.data.Length
      modifies raw`operationCount, raw.data
      ensures old(raw.Quiet()) ==> raw.Quiet()
      ensures done <= |src| && (status == Ok ==> done == |src|)
      ensures OnlySlot(old(raw.data[..]), raw.data[..], SlotOffset(cfg, slot), SlotSize(cfg))
      ensures Slot(cfg, raw.data[..], slot) == Splice(old(Slot(cfg, raw.data[..], slot)), at, src[..done])
      ensures (old(raw.Quiet()) && Whole() && Programmable(old(Slot(cfg, raw.data[..], slot)), at, src)) ==>
        status == Ok
      ensures old(raw.Off()) ==> done == 0
      ensures raw.Unit() == 1 && |src| > 0 ==> raw.operationCount == old(raw.operationCount) + 1
      ensures |src| == 1 && status == Ok && src[0] != old(Slot(cfg, raw.data[..], slot))[at] ==>
        raw.operationCount == old(raw.operationCount) + raw.ByteCost()
      ensures (|src| == 1 && old(raw.Calm(raw.ByteCost())) && Whole()
               && Programmable(old(Slot(cfg, raw.data[..], slot)), at, src)) ==> status == Ok
    {
      hide OnlySlot, Programmable, RoundUp, Splice, Aligned;
      SlotInside(cfg, slot, cfg.slots);
      if Whole() {
        RoundUpWithin(SlotOffset(cfg, slot) + at + |src|, StorageSize(cfg), raw.Unit());
      }
      status, done := ProgramSlot(raw, SlotOffset(cfg, slot), SlotSize(cfg), at, src);
    }

    /** The write unit divides the size of the spool. */
    predicate Whole() {
      raw.Unit() <= MAX_WRITE_SIZE && Aligned(StorageSize(cfg), raw.Unit())
    }

    /** The first slot below the limit of the priority whose record header is erased. */
    method FindEmptySlot(priority: u8) returns (status: Status, slot: nat)
      requires Ready()
      modifies raw`operationCount
      ensures old(raw.Quiet()) ==> raw.Quiet() && status != Eio
      ensures raw.data[..] == old(raw.data[..])
      ensures status == Ok ==> slot < SlotLimit(cfg, priority) && Vacant(cfg, raw.data[..], slot)
      ensures status == Ok ==> forall s :: 0 <= s < slot ==> !Vacant(cfg, raw.data[..], s)
      ensures status == Enospace ==> forall s :: 0 <= s < SlotLimit(cfg, priority) ==> !Vacant(cfg, raw.data[..], s)
      ensures status in {Ok, Enospace, Eio}
    {
      hide SlotOffset, Slot, StorageSize;
      slot := 0;
      var limit := SlotLimit(cfg, priority);
      while slot < limit
        invariant 0 <= slot <= limit && (old(raw.Quiet()) ==> raw.Quiet()) && raw.data[..] == old(raw.data[..])
        invariant forall s :: 0 <= s < slot ==> !Vacant(cfg, raw.data[..], s)
      {
        var vacant;
        status, vacant := CheckVacant(slot);
        if status != Ok {
          return;
        }
        if vacant {
          return;
        }
        slot := slot + 1;
      }
      status := Enospace;
    }

    method CheckVacant(slot: nat) returns (status: Status, vacant: bool)
      requires Ready() && slot < cfg.slots
      modifies raw`operationCount
      ensures old(raw.Quiet()) ==> raw.Quiet() && status == Ok
      ensures status == Ok || status == Eio
      ensures status == Ok ==> (vacant <==> Vacant(cfg, raw.data[..], slot))
    {
      SlotInside(cfg, slot, cfg.slots);
      status, vacant := raw.IsErased(SlotOffset(cfg, slot), RECORD_SIZE);
      assert raw.data[SlotOffset(cfg, slot)..SlotOffset(cfg, slot) + RECORD_SIZE] ==
        Slot(cfg, raw.data[..], slot)[..RECORD_SIZE];
    }

    /**
     Appends an envelope: header, payload, sync, commit byte, sync. Wherever it stops, the view has gained exactly
     this record or nothing, and no other slot has changed. All slots are open to emergencies, critical records leave
     the emergency reserve alone and all others the critical reserve, which includes it.
     */
    method Append(data: seq<u8>, priority: u8) returns (status: Status, ghost used: Option<nat>)
      requires Ready()
      modifies this`dropped, this`watermark, raw`operationCount, raw.data
      ensures old(raw.Quiet()) ==> raw.Quiet()
      ensures dropped == if Acceptable(cfg, data, priority) && used.None? && status == Enospace then Next(old(dropped))
        else old(dropped)
      ensures status != Ok ==> watermark == old(watermark)
      ensures status == Ok ==> old(watermark) <= watermark <= Greater(old(watermark), |View(cfg, raw.data[..])|)
      ensures status == Ok && old(raw.Quiet()) ==> watermark == Greater(old(watermark), |View(cfg, raw.data[..])|)
      ensures !Acceptable(cfg, data, priority) ==> used.None?
      ensures |data| == 0 || |data| > cfg.maxEvent || priority > 4 ==> status == Einval
      ensures 0 < |data| <= cfg.maxEvent && priority <= 4 && cfg.validate(data).None? ==> status == Ecorrupt
      ensures used.None? ==> raw.data[..] == old(raw.data[..]) && status != Ok
      ensures used.Some? ==> Acceptable(cfg, data, priority) && used.value < SlotLimit(cfg, priority)
      ensures used.Some? ==>
        Vacant(cfg, old(raw.data[..]), used.value) && Touches(old(raw.data[..]), raw.data[..], used.value)
      ensures used.Some? ==> used.value !in View(cfg, old(raw.data[..]))
      ensures used.Some? ==> var rec := NewRec(cfg, data, priority);
        View(cfg, raw.data[..]) in {View(cfg, old(raw.data[..])), View(cfg, old(raw.data[..]))[used.value := rec]}
      ensures status == Ok ==> var rec := NewRec(cfg, data, priority);
        View(cfg, raw.data[..]) == if 1 <= rec.eventType <= 8 then View(cfg, old(raw.data[..]))[used.value := rec]
          else View(cfg, old(raw.data[..]))
      ensures status == Enospace && Acceptable(cfg, data, priority) && used.None? ==>
        forall s :: 0 <= s < SlotLimit(cfg, priority) ==> !Vacant(cfg, raw.data[..], s)
      ensures (old(raw.Quiet()) && Acceptable(cfg, data, priority) && Whole()
               && BlankSlot(old(raw.data[..]), SlotLimit(cfg, priority))) ==> status == Ok
      ensures used.Some? && priority >= CRITICAL ==> used.value < cfg.slots - cfg.reservedEmergency
      ensures used.Some? && priority > CRITICAL ==> used.value < cfg.slots - cfg.reservedCritical
      ensures used.Some? ==> 0 < |data| <= cfg.maxEvent && priority <= 4 && cfg.validate(data).Some?
      ensures old(raw.Quiet()) && Whole() && 0 < |data| <= cfg.maxEvent && priority <= 4 && cfg.validate(data).Some? ==>
        && (BlankSlot(old(raw.data[..]), cfg.slots - cfg.reservedCritical) ==> status == Ok)
        && (BlankSlot(old(raw.data[..]), cfg.slots - cfg.reservedEmergency) && priority <= CRITICAL ==> status == Ok)
        && (BlankSlot(old(raw.data[..]), cfg.slots) && priority == EMERGENCY ==> status == Ok)
    {
      hide SlotOffset, SlotSize, Slot, StorageSize, View, OnlySlot, EncodeRecord, Complete, Appended, Vacant, Splice;
      used := None;
      if |data| == 0 || |data| > cfg.maxEvent || priority > DIAGNOSTIC {
        return Einval, None;
      }
      if cfg.validate(data).None? {
        return Ecorrupt, None;
      }
      var slot;
      status, slot := FindEmptySlot(priority);
      if status != Ok {
        if status == Enospace && BlankSlot(raw.data[..], SlotLimit(cfg, priority)) {
          BlankIsVacant(this, raw.data[..], SlotLimit(cfg, priority));
        }
        if status == Enospace {
          dropped := Next(dropped);
        }
        return;
      }
      used := Some(slot);
      if BlankSlot(raw.data[..], SlotLimit(cfg, priority)) {
        FirstBlank(this, raw.data[..], SlotLimit(cfg, priority), slot);
      }
      status := WriteRecord(slot, NewRec(cfg, data, priority));
      if status == Ok {
        var count := CountCommitted();
        if count > watermark {
          watermark := count;
        }
      }
    }

    /** Counts the committed records, up to the first that cannot be read. */
    method CountCommitted() returns (count: nat)
      requires Ready()
      modifies raw`operationCount
      ensures old(raw.Quiet()) ==> raw.Quiet() && count == |View(cfg, raw.data[..])|
      ensures count <= |View(cfg, raw.data[..])|
    {
      hide SlotOffset, Slot, StorageSize, Committed, RecordValid, RecOf;
      ghost var b := raw.data[..];
      count := 0;
      var slot := 0;
      while slot < cfg.slots
        invariant 0 <= slot <= cfg.slots && raw.data[..] == b && (old(raw.Quiet()) ==> raw.Quiet())
        invariant count == |CommittedBelow(cfg, b, slot)|
      {
        var status, h := ReadRecord(slot);
        if status != Ok {
          CommittedCount(cfg, b, slot);
          return;
        }
        CommittedNext(cfg, b, slot);
        if Committed(cfg, h) {
          count := count + 1;
        }
        slot := slot + 1;
      }
      CommittedCount(cfg, b, slot);
    }

    /** Only this slot has changed. */
    ghost predicate Touches(b: seq<u8>, b': seq<u8>, slot: nat)
      requires Ready() && SlotOffset(cfg, cfg.slots) <= |b| == |b'|
    {
      && slot < cfg.slots && SlotOffset(cfg, slot) + SlotSize(cfg) <= |b|
      && OnlySlot(b, b', SlotOffset(cfg, slot), SlotSize(cfg))
    }

    /** The first vacant slot below the limit is erased throughout, payload included. */
    ghost predicate BlankSlot(b: seq<u8>, limit: nat)
      requires Ready() && SlotOffset(cfg, cfg.slots) <= |b| && limit <= cfg.slots
    {
      exists s :: 0 <= s < limit && Slot(cfg, b, s) == Blank(SlotSize(cfg)) && forall t :: 0 <= t < s ==>
        !Vacant(cfg, b, t)
    }

    /** The steps of an append: header, payload, sync, commit byte, sync; five operations in units of one byte. */
    method WriteRecord(slot: nat, rec: Rec) returns (status: Status)
      requires Ready() && slot < cfg.slots && 0 < |rec.data| <= cfg.maxEvent && rec.priority <= DIAGNOSTIC
      requires Vacant(cfg, raw.data[..], slot)
      modifies raw`operationCount, raw.data
      ensures old(raw.Quiet()) ==> raw.Quiet()
      ensures Touches(old(raw.data[..]), raw.data[..], slot)
      ensures slot !in View(cfg, old(raw.data[..]))
      ensures View(cfg, raw.data[..]) in {View(cfg, old(raw.data[..])), View(cfg, old(raw.data[..]))[slot := rec]}
      ensures status == Ok ==>
        View(cfg, raw.data[..]) == if 1 <= rec.eventType <= 8 then View(cfg, old(raw.data[..]))[slot := rec]
          else View(cfg, old(raw.data[..]))
      ensures (old(raw.Quiet()) && Whole() && old(Slot(cfg, raw.data[..], slot)) == Blank(SlotSize(cfg))) ==>
        status == Ok
      ensures status == Ok && raw.Unit() == 1 ==> raw.operationCount == old(raw.operationCount) + 5
    {
      hide SlotOffset, Slot, StorageSize, View, OnlySlot, EncodeRecord, Complete, Appended, Splice, Programmable;
      SlotWithin(cfg, slot);
      ghost var b0 := raw.data[..];
      ghost var d1, d2, d3 := 0, 0, 0;
      var h := EncodeRecord(cfg.crc, rec);
      BlankSlotProgrammable(cfg, Slot(cfg, b0, slot), rec);
      status, d1 := ProgramRecord(slot, 0, h);
      ghost var b1 := raw.data[..];
      ghost var b2, b3 := b1, b1;
      if status == Ok {
        status, d2 := ProgramRecord(slot, RECORD_SIZE, rec.data);
        b2 := raw.data[..];
        b3 := b2;
        OnlySlotTransitive(b0, b1, b2, SlotOffset(cfg, slot), SlotSize(cfg));
        if status == Ok {
          status := raw.Sync();
          if status == Ok {
            status, d3 := ProgramRecord(slot, STATE, [COMMITTED]);
            b3 := raw.data[..];
            OnlySlotTransitive(b0, b2, b3, SlotOffset(cfg, slot), SlotSize(cfg));
            if status == Ok {
              status := raw.Sync();
            }
          }
        }
      }
      WriteRecordView(cfg, b0, b1, b2, b3, slot, rec, d1, d2, d3);
    }
  }

  lemma BlankIsVacant(store: Store, b: seq<u8>, limit: nat)
    requires store.Ready() && SlotOffset(store.cfg, store.cfg.slots) <= |b| && limit <= store.cfg.slots
    requires store.BlankSlot(b, limit)
    ensures exists s :: 0 <= s < limit && Vacant(store.cfg, b, s)
  {
    var cfg := store.cfg;
    var s :| 0 <= s < limit && Slot(cfg, b, s) == Blank(SlotSize(cfg)) && forall t :: 0 <= t < s ==> !Vacant(cfg, b, t);
    assert Blank(SlotSize(cfg))[..RECORD_SIZE] == Blank(RECORD_SIZE);
    assert Vacant(cfg, b, s);
  }

  lemma FirstBlank(store: Store, b: seq<u8>, limit: nat, slot: nat)
    requires store.Ready() && SlotOffset(store.cfg, store.cfg.slots) <= |b| && limit <= store.cfg.slots
    requires store.BlankSlot(b, limit)
    requires slot < limit && Vacant(store.cfg, b, slot) && forall t :: 0 <= t < slot ==> !Vacant(store.cfg, b, t)
    ensures Slot(store.cfg, b, slot) == Blank(SlotSize(store.cfg))
  {
    var cfg := store.cfg;
    var s :| 0 <= s < limit && Slot(cfg, b, s) == Blank(SlotSize(cfg)) && forall t :: 0 <= t < s ==> !Vacant(cfg, b, t);
    assert Blank(SlotSize(cfg))[..RECORD_SIZE] == Blank(RECORD_SIZE);
    assert Vacant(cfg, b, s);
  }

  /** An envelope the append accepts. */
  predicate Acceptable(cfg: Config, data: seq<u8>, priority: u8) {
    0 < |data| <= cfg.maxEvent && priority <= DIAGNOSTIC && cfg.validate(data).Some?
  }

  /** The record an append writes. */
  function NewRec(cfg: Config, data: seq<u8>, priority: u8): (rec: Rec)
    requires Acceptable(cfg, data, priority)
    ensures Intact(cfg, rec) && rec.data == data && rec.priority == priority
    ensures rec.sequence == cfg.validate(data).value.sequence && rec.eventType == cfg.validate(data).value.eventType
  {
    var info := cfg.validate(data).value;
    Rec(priority, info.sequence, info.eventType, cfg.crc(data), data)
  }

  function Greater(a: nat, b: nat): nat {
    if a < b then b else a
  }

  /** The committed slots below n. */
  ghost function CommittedBelow(cfg: Config, b: seq<u8>, n: nat): set<nat>
    requires n <= cfg.slots && SlotOffset(cfg, cfg.slots) <= |b|
  {
    set s: nat | s < n && CommittedAt(cfg, b, s)
  }

  lemma CommittedNext(cfg: Config, b: seq<u8>, n: nat)
    requires n < cfg.slots && SlotOffset(cfg, cfg.slots) <= |b|
    ensures |CommittedBelow(cfg, b, n + 1)| == |CommittedBelow(cfg, b, n)| + if CommittedAt(cfg, b, n) then 1 else 0
  {
    hide CommittedAt;
    assert CommittedBelow(cfg, b, n + 1) == CommittedBelow(cfg, b, n) + if CommittedAt(cfg, b, n) then {n} else {};
  }

  lemma CommittedCount(cfg: Config, b: seq<u8>, n: nat)
    requires n <= cfg.slots && SlotOffset(cfg, cfg.slots) <= |b|
    ensures |CommittedBelow(cfg, b, n)| <= |View(cfg, b)|
    ensures (n == cfg.slots ==> |CommittedBelow(cfg, b, n)| == |View(cfg, b)|)
  {
    hide CommittedAt, RecAt;
    assert |View(cfg, b)| == |View(cfg, b).Keys|;
    Smaller(CommittedBelow(cfg, b, n), View(cfg, b).Keys);
    assert n == cfg.slots ==> CommittedBelow(cfg, b, n) == View(cfg, b).Keys;
  }

  lemma SlotWithin(cfg: Config, slot: nat)
    requires slot < cfg.slots
    ensures SlotOffset(cfg, slot) + SlotSize(cfg) <= SlotOffset(cfg, cfg.slots)
  {
    SlotInside(cfg, slot, cfg.slots);
  }

  /** In a slot erased throughout, each step of an append can be programmed. */
  lemma BlankSlotProgrammable(cfg: Config, r: seq<u8>, rec: Rec)
    requires |r| == SlotSize(cfg) && |rec.data| <= cfg.maxEvent <= 0xffff
    ensures r == Blank(SlotSize(cfg)) ==>
      var h := EncodeRecord(cfg.crc, rec);
      var r1 := Splice(r, 0, h[..RECORD_SIZE]);
      var r2 := Splice(r1, RECORD_SIZE, rec.data[..|rec.data|]);
      Programmable(r, 0, h) && Programmable(r1, RECORD_SIZE, rec.data) && Programmable(r2, STATE, [COMMITTED])
  {
    hide Programmable, EncodePrefix;
    if r == Blank(SlotSize(cfg)) {
      var h := EncodeRecord(cfg.crc, rec);
      var r1 := Splice(r, 0, h[..RECORD_SIZE]);
      var r2 := Splice(r1, RECORD_SIZE, rec.data[..|rec.data|]);
      BlankProgrammable(r, 0, h);
      BlankProgrammable(r1, RECORD_SIZE, rec.data);
      assert h[STATE] == Blank(4)[0];
      assert r2[STATE] == ERASED;
      BlankProgrammable(r2, STATE, [COMMITTED]);
    }
  }

  lemma WriteRecordView(cfg: Config, b0: seq<u8>, b1: seq<u8>, b2: seq<u8>, b3: seq<u8>, slot: nat, rec: Rec, d1: nat,
                        d2: nat, d3: nat)
    requires Sane(cfg) && slot < cfg.slots && SlotOffset(cfg, cfg.slots) <= |b0| == |b1| == |b2| == |b3|
    requires 0 < |rec.data| <= cfg.maxEvent && rec.priority <= DIAGNOSTIC
    requires SlotOffset(cfg, slot) + SlotSize(cfg) <= |b0| && OnlySlot(b0, b3, SlotOffset(cfg, slot), SlotSize(cfg))
    requires Vacant(cfg, b0, slot) && d1 <= RECORD_SIZE && d2 <= |rec.data| && d3 <= 1
    requires (d2 > 0 ==> d1 == RECORD_SIZE) && (d3 > 0 ==> d1 == RECORD_SIZE && d2 == |rec.data|)
    requires Slot(cfg, b1, slot) == Splice(Slot(cfg, b0, slot), 0, EncodeRecord(cfg.crc, rec)[..d1])
    requires Slot(cfg, b2, slot) == Splice(Slot(cfg, b1, slot), RECORD_SIZE, rec.data[..d2])
    requires Slot(cfg, b3, slot) == Splice(Slot(cfg, b2, slot), STATE, [COMMITTED][..d3])
    ensures slot !in View(cfg, b0)
    ensures View(cfg, b3) in {View(cfg, b0), View(cfg, b0)[slot := rec]}
    ensures d3 > 0 ==> View(cfg, b3) == if 1 <= rec.eventType <= 8 then View(cfg, b0)[slot := rec] else View(cfg, b0)
  {
    hide Slot, View, OnlySlot, EncodeRecord, Complete, Appended, Splice, SlotOffset;
    AppendSteps(cfg, Slot(cfg, b0, slot), rec, d1, d2, d3);
    assert Slot(cfg, b0, slot)[0] == Slot(cfg, b0, slot)[..RECORD_SIZE][0];
    AppendedView(cfg, b0, b3, slot, rec);
  }

  lemma PrefixDecides(cfg: Config, r: seq<u8>, h: seq<u8>)
    requires |r| >= RECORD_SIZE && h == r[..RECORD_SIZE]
    ensures RecordValid(cfg, h) == RecordValid(cfg, r) && Committed(cfg, h) == Committed(cfg, r)
  {
    assert forall i :: 0 <= i < RECORD_SIZE ==> h[i] == r[i];
    assert h[..20] == r[..20];
  }
}
