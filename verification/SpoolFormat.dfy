/**
 The spool's on-flash format: a header, then slots that each hold one record header and one envelope. The
 committed records of a device are read off its bytes by `View`.
 */
module SpoolFormat {
  import opened Bits
  import opened Words
  import opened Storage
  import opened SlotCommit

  const SPOOL_MAGIC: u32 := 0x4c53534c
  const RECORD_MAGIC: u32 := 0x4c535245
  const VERSION: u16 := 3
  const HEADER_SIZE: nat := 24
  const RECORD_SIZE: nat := 28
  const STATE: nat := 24
  const RETRY: nat := 25
  const ACKED: u8 := 0

  const EMERGENCY: u8 := 0
  const CRITICAL: u8 := 1
  const DIAGNOSTIC: u8 := 4

  /** What the spool uses of a validated envelope. */
  datatype Info = Info(eventType: u8, sequence: u32, eventId: u32)

  /** Build-time configuration, with checksum and envelope validation as parameters. */
  datatype Config = Config(slots: nat, maxEvent: nat, reservedCritical: nat, reservedEmergency: nat,
                           crc: Checksum, validate: seq<u8> -> Option<Info>)

  predicate Sane(cfg: Config) {
    && 1 <= cfg.slots <= 0xffff && 1 <= cfg.maxEvent <= 0xffff
    && cfg.reservedEmergency <= cfg.reservedCritical <= cfg.slots
  }

  function SlotSize(cfg: Config): nat {
    RECORD_SIZE + cfg.maxEvent
  }

  function SlotOffset(cfg: Config, slot: nat): nat {
    HEADER_SIZE + slot * SlotSize(cfg)
  }

  function StorageSize(cfg: Config): nat {
    RoundUp(SlotOffset(cfg, cfg.slots), MAX_WRITE_SIZE)
  }

  lemma SlotInside(cfg: Config, slot: nat, n: nat)
    requires slot < n
    ensures HEADER_SIZE <= SlotOffset(cfg, slot) && SlotOffset(cfg, slot) + SlotSize(cfg) <= SlotOffset(cfg, n)
  {
    MulMono(slot + 1, n, SlotSize(cfg));
    MulMono(0, slot, SlotSize(cfg));
  }

  lemma StorageSizeIs(cfg: Config)
    ensures SlotOffset(cfg, cfg.slots) <= StorageSize(cfg) < SlotOffset(cfg, cfg.slots) + 256
    ensures Aligned(StorageSize(cfg), 256)
  {
    RoundUpIs(SlotOffset(cfg, cfg.slots), MAX_WRITE_SIZE);
  }

  // ---------------------------------------------------------------- records

  /** A record as the reader sees it. */
  datatype Rec = Rec(priority: u8, sequence: u32, eventType: u8, dataCrc: u32, data: seq<u8>)

  function EncodePrefix(rec: Rec): (p: seq<u8>)
    requires |rec.data| <= 0xffff
    ensures |p| == 20
  {
    U32Bytes(RECORD_MAGIC) + U16Bytes(VERSION) + U16Bytes(|rec.data|) + U32Bytes(rec.sequence) + U32Bytes(rec.dataCrc)
    + [rec.priority, rec.eventType, ERASED, ERASED]
  }

  /** The record header as first programmed: state and retry bits still erased. */
  function EncodeRecord(crc: Checksum, rec: Rec): (h: seq<u8>)
    requires |rec.data| <= 0xffff
    ensures |h| == RECORD_SIZE
  {
    EncodePrefix(rec) + U32Bytes(crc(EncodePrefix(rec))) + Blank(4)
  }

  predicate RecordValid(cfg: Config, r: seq<u8>)
    requires |r| >= RECORD_SIZE
  {
    && ReadU32(r, 0) == RECORD_MAGIC && ReadU16(r, 4) == VERSION
    && 0 < ReadU16(r, 6) <= cfg.maxEvent && r[16] <= DIAGNOSTIC && 1 <= r[17] <= 8
    && ReadU32(r, 20) == cfg.crc(r[..20])
  }

  predicate Committed(cfg: Config, r: seq<u8>)
    requires |r| >= RECORD_SIZE
  {
    RecordValid(cfg, r) && r[STATE] == COMMITTED
  }

  function RecOf(cfg: Config, r: seq<u8>): Rec
    requires |r| == SlotSize(cfg) && RecordValid(cfg, r)
  {
    Rec(r[16], ReadU32(r, 8), r[17], ReadU32(r, 12), r[RECORD_SIZE..RECORD_SIZE + ReadU16(r, 6)])
  }

  /** The payload matches its checksum and is a valid envelope. */
  predicate Intact(cfg: Config, rec: Rec) {
    cfg.crc(rec.data) == rec.dataCrc && cfg.validate(rec.data).Some?
  }

  lemma PrefixReadsBack(rec: Rec, h: seq<u8>)
    requires |rec.data| <= 0xffff && |h| >= 20 && h[..18] == EncodePrefix(rec)[..18]
    ensures ReadU32(h, 0) == RECORD_MAGIC && ReadU16(h, 4) == VERSION && ReadU16(h, 6) == |rec.data|
    ensures ReadU32(h, 8) == rec.sequence && ReadU32(h, 12) == rec.dataCrc && h[16] == rec.priority
    ensures h[17] == rec.eventType
  {
    var p := EncodePrefix(rec);
    assert forall i :: 0 <= i < 18 ==> h[i] == h[..18][i] == p[i];
    ReadU32Same(p, 0, U32Bytes(RECORD_MAGIC), 0);
    ReadU32Same(p, 8, U32Bytes(rec.sequence), 0);
    ReadU32Same(p, 12, U32Bytes(rec.dataCrc), 0);
    assert p[4..6] == U16Bytes(VERSION) && p[6..8] == U16Bytes(|rec.data|);
    assert p[4] == U16Bytes(VERSION)[0] && p[5] == U16Bytes(VERSION)[1];
    assert p[6] == U16Bytes(|rec.data|)[0] && p[7] == U16Bytes(|rec.data|)[1];
  }

  /** A slot holding the encoded header, the payload and the commit byte. */
  predicate Complete(cfg: Config, r: seq<u8>, rec: Rec)
    requires |r| == SlotSize(cfg) && |rec.data| <= cfg.maxEvent <= 0xffff
  {
    && r[..24] == EncodeRecord(cfg.crc, rec)[..24] && r[STATE] == COMMITTED
    && r[RECORD_SIZE..RECORD_SIZE + |rec.data|] == rec.data
  }

  /**
   A complete slot reads back as exactly the record written, and is visible exactly when the envelope's event
   type is one the record format knows.
   */
  lemma CompleteReadsBack(cfg: Config, r: seq<u8>, rec: Rec)
    requires |r| == SlotSize(cfg) && 0 < |rec.data| <= cfg.maxEvent <= 0xffff && rec.priority <= DIAGNOSTIC
    requires Complete(cfg, r, rec)
    ensures Committed(cfg, r) <==> 1 <= rec.eventType <= 8
    ensures Committed(cfg, r) ==> RecOf(cfg, r) == rec
  {
    hide ReadU32, ReadU16;
    var h := EncodeRecord(cfg.crc, rec);
    var c := U32Bytes(cfg.crc(EncodePrefix(rec)));
    assert h[..24] == EncodePrefix(rec) + c;
    assert r[..20] == r[..24][..20] == EncodePrefix(rec);
    assert r[20..24] == r[..24][20..24] == c;
    PrefixReadsBack(rec, r);
    ReadU32Same(r, 20, c, 0);
  }

  /** The header and payload of a record, its two unused bytes aside. */
  predicate Encoded(cfg: Config, r: seq<u8>, rec: Rec)
    requires |r| == SlotSize(cfg)
  {
    && 0 < |rec.data| <= cfg.maxEvent && |rec.data| <= 0xffff && rec.priority <= 4 && 1 <= rec.eventType <= 8
    && r[..18] == EncodePrefix(rec)[..18] && r[20..24] == U32Bytes(cfg.crc(r[..20]))
    && r[RECORD_SIZE..RECORD_SIZE + |rec.data|] == rec.data
  }

  /** A slot holds a record exactly if it carries its header and payload: nothing else is accepted. */
  lemma RecordIff(cfg: Config, r: seq<u8>, rec: Rec)
    requires |r| == SlotSize(cfg)
    ensures RecordValid(cfg, r) && RecOf(cfg, r) == rec <==> Encoded(cfg, r, rec)
  {
    hide ReadU32, ReadU16, U32Bytes, U16Bytes;
    BytesOfRead(r, 20);
    if RecordValid(cfg, r) && RecOf(cfg, r) == rec {
      BytesOfRead(r, 0);
      BytesOfRead(r, 8);
      BytesOfRead(r, 12);
      BytesOfRead16(r, 4);
      BytesOfRead16(r, 6);
      assert r[..18] == r[0..4] + r[4..6] + r[6..8] + r[8..12] + r[12..16] + [r[16], r[17]];
      assert EncodePrefix(rec)[..18] == r[..18];
    }
    if Encoded(cfg, r, rec) {
      PrefixReadsBack(rec, r);
      ReadU32Same(r, 20, U32Bytes(cfg.crc(r[..20])), 0);
    }
  }

  /** A slot whose first byte is erased holds no record. */
  lemma ErasedIsInvalid(cfg: Config, r: seq<u8>)
    requires |r| >= RECORD_SIZE && r[0] == ERASED
    ensures !RecordValid(cfg, r)
  {
  }

  /** The record depends on header and payload alone, not on state or retry bits. */
  lemma HeaderDecides(cfg: Config, r: seq<u8>, r': seq<u8>)
    requires |r| == |r'| == SlotSize(cfg) && r[..24] == r'[..24] && r[RECORD_SIZE..] == r'[RECORD_SIZE..]
    ensures RecordValid(cfg, r') == RecordValid(cfg, r)
    ensures RecordValid(cfg, r) ==> RecOf(cfg, r') == RecOf(cfg, r)
  {
    assert forall i :: 0 <= i < 24 ==> r[i] == r[..24][i] && r'[i] == r'[..24][i];
    assert r[..20] == r[..24][..20] && r'[..20] == r'[..24][..20];
    if RecordValid(cfg, r) {
      var n := ReadU16(r, 6);
      assert r[RECORD_SIZE..RECORD_SIZE + n] == r[RECORD_SIZE..][..n]
        && r'[RECORD_SIZE..RECORD_SIZE + n] == r'[RECORD_SIZE..][..n];
    }
  }

  // ---------------------------------------------------------------- the view of a device

  function Slot(cfg: Config, b: seq<u8>, slot: nat): (r: seq<u8>)
    requires slot < cfg.slots && SlotOffset(cfg, cfg.slots) <= |b|
    ensures |r| == SlotSize(cfg)
  {
    SlotInside(cfg, slot, cfg.slots);
    Region(b, SlotOffset(cfg, slot), SlotSize(cfg))
  }

  predicate CommittedAt(cfg: Config, b: seq<u8>, slot: nat)
    requires SlotOffset(cfg, cfg.slots) <= |b|
  {
    slot < cfg.slots && Committed(cfg, Slot(cfg, b, slot))
  }

  function RecAt(cfg: Config, b: seq<u8>, slot: nat): Rec
    requires SlotOffset(cfg, cfg.slots) <= |b| && CommittedAt(cfg, b, slot)
  {
    RecOf(cfg, Slot(cfg, b, slot))
  }

  /** The committed records, by slot. */
  function View(cfg: Config, b: seq<u8>): (v: map<nat, Rec>)
    requires SlotOffset(cfg, cfg.slots) <= |b|
  {
    map s: nat | s < cfg.slots && CommittedAt(cfg, b, s) :: RecAt(cfg, b, s)
  }

  lemma OtherSlotSame(cfg: Config, b: seq<u8>, b': seq<u8>, slot: nat, other: nat)
    requires slot < cfg.slots && other < cfg.slots && slot != other && SlotOffset(cfg, cfg.slots) <= |b| == |b'|
    requires SlotOffset(cfg, slot) + SlotSize(cfg) <= |b| && OnlySlot(b, b', SlotOffset(cfg, slot), SlotSize(cfg))
    ensures Slot(cfg, b', other) == Slot(cfg, b, other)
  {
    hide OnlySlot;
    SlotInside(cfg, other, cfg.slots);
    if other < slot {
      SlotInside(cfg, other, slot);
    } else {
      SlotInside(cfg, slot, other);
    }
    OutsideSlot(b, b', SlotOffset(cfg, slot), SlotSize(cfg), SlotOffset(cfg, other), SlotSize(cfg));
  }

  /** Changing one slot changes the view there and nowhere else. */
  lemma ViewAfter(cfg: Config, b: seq<u8>, b': seq<u8>, slot: nat)
    requires slot < cfg.slots && SlotOffset(cfg, cfg.slots) <= |b| == |b'|
    requires SlotOffset(cfg, slot) + SlotSize(cfg) <= |b| && OnlySlot(b, b', SlotOffset(cfg, slot), SlotSize(cfg))
    ensures var r := Slot(cfg, b', slot);
      View(cfg, b') == if Committed(cfg, r) then View(cfg, b)[slot := RecOf(cfg, r)] else View(cfg, b) - {slot}
    ensures forall s :: 0 <= s < cfg.slots && s != slot ==> Slot(cfg, b', s) == Slot(cfg, b, s)
  {
    hide Slot, Committed, RecOf, OnlySlot, SlotOffset, SlotSize;
    var r := Slot(cfg, b', slot);
    forall s | 0 <= s < cfg.slots && s != slot ensures Slot(cfg, b', s) == Slot(cfg, b, s) {
      OtherSlotSame(cfg, b, b', slot, s);
    }
  }
}
