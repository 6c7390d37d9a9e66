/**
 Mounting the spool and reclaiming its flash: the spool is erased only when no record on it is committed.
 */
module SpoolReclaim {
  import opened Bits
  import opened Words
  import opened Storage
  import opened SlotCommit
  import opened SpoolFormat
  import opened Spool

  // ---------------------------------------------------------------- vacancy

  /** No vacant slot has been taken. */
  ghost predicate KeepsVacant(cfg: Config, b: seq<u8>, b': seq<u8>)
    requires SlotOffset(cfg, cfg.slots) <= |b| == |b'|
  {
    forall s: nat :: s < cfg.slots && Vacant(cfg, b, s) ==> Vacant(cfg, b', s)
  }

  lemma KeepsVacantTransitive(cfg: Config, a: seq<u8>, b: seq<u8>, c: seq<u8>)
    requires SlotOffset(cfg, cfg.slots) <= |a| == |b| == |c| && KeepsVacant(cfg, a, b) && KeepsVacant(cfg, b, c)
    ensures KeepsVacant(cfg, a, c)
  {
    hide Vacant, SlotOffset;
  }

  /** Changing a slot that holds a record takes no vacant one. */
  lemma CommittedNotVacant(cfg: Config, b: seq<u8>, b': seq<u8>, slot: nat)
    requires slot < cfg.slots && SlotOffset(cfg, cfg.slots) <= |b| == |b'| && CommittedAt(cfg, b, slot)
    requires SlotOffset(cfg, slot) + SlotSize(cfg) <= |b| && OnlySlot(b, b', SlotOffset(cfg, slot), SlotSize(cfg))
    ensures KeepsVacant(cfg, b, b')
  {
    hide OnlySlot, SlotOffset, Slot;
    forall s: nat | s < cfg.slots && Vacant(cfg, b, s) ensures Vacant(cfg, b', s) {
      if s == slot {
        assert Slot(cfg, b, s)[0] == Slot(cfg, b, s)[..RECORD_SIZE][0];
        NotCommittedErased(cfg, b, s);
      } else {
        OtherSlotSame(cfg, b, b', slot, s);
      }
    }
  }

  /** An erase, complete or torn, takes no vacant slot. */
  lemma WipedVacant(cfg: Config, b: seq<u8>, k: nat)
    requires k <= |b| && SlotOffset(cfg, cfg.slots) <= |b|
    ensures KeepsVacant(cfg, b, Splice(b, 0, Blank(k)))
  {
    hide SlotOffset;
    var b' := Splice(b, 0, Blank(k));
    forall s: nat | s < cfg.slots && Vacant(cfg, b, s) ensures Vacant(cfg, b', s) {
      SlotInside(cfg, s, cfg.slots);
      var r, r' := Slot(cfg, b, s), Slot(cfg, b', s);
      forall i | 0 <= i < RECORD_SIZE ensures r'[i] == ERASED {
        assert r[i] == r[..RECORD_SIZE][i];
      }
    }
  }

  lemma KeepsVacantSame(cfg: Config, b: seq<u8>)
    requires SlotOffset(cfg, cfg.slots) <= |b|
    ensures KeepsVacant(cfg, b, b)
  {
  }

  // ---------------------------------------------------------------- the spool header

  function HeaderBytes(cfg: Config, sequence: u32): (h: seq<u8>)
    requires Sane(cfg)
    ensures |h| == HEADER_SIZE
  {
    SpoolHeaderPrefix(cfg, sequence) + U32Bytes(cfg.crc(SpoolHeaderPrefix(cfg, sequence))) + Blank(4)
  }

  lemma HeaderPrefixReads(cfg: Config, sequence: u32, h: seq<u8>)
    requires Sane(cfg) && |h| == HEADER_SIZE && h[..16] == SpoolHeaderPrefix(cfg, sequence)
    ensures ReadU32(h, 0) == SPOOL_MAGIC && ReadU16(h, 4) == VERSION && ReadU16(h, 6) == cfg.slots
    ensures ReadU32(h, 8) == SlotSize(cfg) && ReadU32(h, 12) == sequence
  {
    hide SlotSize;
    var p := SpoolHeaderPrefix(cfg, sequence);
    assert forall i :: 0 <= i < 16 ==> h[i] == h[..16][i];
    ReadU32Same(p, 0, U32Bytes(SPOOL_MAGIC), 0);
    ReadU32Same(p, 8, U32Bytes(SlotSize(cfg)), 0);
    ReadU32Same(p, 12, U32Bytes(sequence), 0);
    assert p[4..6] == U16Bytes(VERSION) && p[6..8] == U16Bytes(cfg.slots);
    assert p[4] == U16Bytes(VERSION)[0] && p[5] == U16Bytes(VERSION)[1];
    assert p[6] == U16Bytes(cfg.slots)[0] && p[7] == U16Bytes(cfg.slots)[1];
  }

  /** The header as committed is valid and carries the sequence floor. */
  lemma HeaderReadsBack(cfg: Config, sequence: u32, h: seq<u8>)
    requires Sane(cfg) && h == Splice(HeaderBytes(cfg, sequence), 20, [COMMITTED])
    ensures HeaderValid(cfg, h) && ReadU32(h, 12) == sequence
  {
    hide ReadU32, ReadU16, SpoolHeaderPrefix, SlotSize;
    var p := SpoolHeaderPrefix(cfg, sequence);
    assert h[..16] == p;
    assert h[16..20] == U32Bytes(cfg.crc(p));
    HeaderPrefixReads(cfg, sequence, h);
    ReadU32Same(h, 16, U32Bytes(cfg.crc(p)), 0);
  }

  /** A spool header is valid exactly if it is the committed one of this configuration and some sequence floor. */
  lemma HeaderIff(cfg: Config, h: seq<u8>)
    requires Sane(cfg) && |h| == HEADER_SIZE
    ensures HeaderValid(cfg, h) <==>
      && h[..16] == SpoolHeaderPrefix(cfg, ReadU32(h, 12)) && h[16..20] == U32Bytes(cfg.crc(h[..16]))
      && h[20] == COMMITTED
  {
    hide ReadU32, ReadU16, U32Bytes, U16Bytes, SlotSize;
    BytesOfRead(h, 16);
    if HeaderValid(cfg, h) {
      BytesOfRead(h, 0);
      BytesOfRead16(h, 4);
      BytesOfRead16(h, 6);
      BytesOfRead(h, 8);
      BytesOfRead(h, 12);
      assert h[..16] == h[0..4] + h[4..6] + h[6..8] + h[8..12] + h[12..16];
    } else if h[..16] == SpoolHeaderPrefix(cfg, ReadU32(h, 12)) && h[16..20] == U32Bytes(cfg.crc(h[..16])) {
      HeaderPrefixReads(cfg, ReadU32(h, 12), h);
      ReadU32Same(h, 16, U32Bytes(cfg.crc(h[..16])), 0);
    }
  }

  /** The device starts with a valid header of this sequence floor. */
  predicate Headed(cfg: Config, b: seq<u8>, sequence: u32) {
    HEADER_SIZE <= |b| && HeaderValid(cfg, b[..HEADER_SIZE]) && ReadU32(b[..HEADER_SIZE], 12) == sequence
  }

  predicate Headless(b: seq<u8>) {
    HEADER_SIZE <= |b| && b[..HEADER_SIZE] == Blank(HEADER_SIZE)
  }

  /** Writes the spool header, its commit byte last. No slot changes, wherever it stops. */
  method WriteHeader(store: Store) returns (status: Status)
    requires store.Ready()
    modifies store.raw`operationCount, store.raw.data
    ensures old(store.raw.Quiet()) ==> store.raw.Quiet()
    ensures View(store.cfg, store.raw.data[..]) == View(store.cfg, old(store.raw.data[..]))
    ensures forall s :: 0 <= s < store.cfg.slots ==>
      Slot(store.cfg, store.raw.data[..], s) == Slot(store.cfg, old(store.raw.data[..]), s)
    ensures status == Ok ==> Headed(store.cfg, store.raw.data[..], store.sequence)
    ensures old(store.raw.Quiet()) && store.Whole() && Headless(old(store.raw.data[..])) ==> status == Ok
    ensures status == Ok && store.raw.Unit() == 1 ==> store.raw.operationCount == old(store.raw.operationCount) + 4
  {
    hide Slot, View, SlotOffset, HeaderValid, HeaderBytes, Programmable, RoundUp, Aligned, ReadU32, Splice, Falls,
         StorageSize, Device.Unit, Device.Guarded, Device.ByteCost, Device.Calm, Device.Off, SpoolHeaderPrefix;
    var cfg := store.cfg;
    HeaderFits(store);
    ghost var b0 := store.raw.data[..];
    var h := HeaderBytes(cfg, store.sequence);
    ghost var done;
    HeaderProgrammable(b0, h);
    status, done := store.raw.Program(0, h);
    ghost var b1 := store.raw.data[..];
    HeaderWriteKeepsSlots(cfg, b0, 0, h[..done]);
    if status != Ok {
      return;
    }
    assert h[..done] == h;
    status := store.raw.Sync();
    if status != Ok {
      return;
    }
    assert b1[..HEADER_SIZE] == h;
    CommitProgrammable(cfg, store.sequence, b1);
    status, done := store.raw.Program(20, [COMMITTED]);
    HeaderWriteKeepsSlots(cfg, b1, 20, [COMMITTED][..done]);
    if status != Ok {
      return;
    }
    assert [COMMITTED][..done] == [COMMITTED];
    HeaderCommitted(b1, store.raw.data[..], h);
    HeaderReadsBack(cfg, store.sequence, store.raw.data[..][..HEADER_SIZE]);
    status := store.raw.Sync();
  }

  lemma HeaderCommitted(b1: seq<u8>, b2: seq<u8>, h: seq<u8>)
    requires HEADER_SIZE == |h| <= |b1| && b1[..HEADER_SIZE] == h && b2 == Splice(b1, 20, [COMMITTED])
    ensures b2[..HEADER_SIZE] == Splice(h, 20, [COMMITTED])
  {
    assert forall i :: 0 <= i < HEADER_SIZE ==> b1[i] == h[i];
  }

  lemma HeaderFits(store: Store)
    requires store.Ready()
    ensures HEADER_SIZE <= SlotOffset(store.cfg, store.cfg.slots) <= store.raw.data.Length
    ensures store.Whole() ==>
      store.raw.Unit() <= MAX_WRITE_SIZE && RoundUp(HEADER_SIZE, store.raw.Unit()) <= store.raw.data.Length
    ensures store.Whole() ==> RoundUp(21, store.raw.Unit()) <= store.raw.data.Length
  {
    hide RoundUp, Aligned;
    SlotInside(store.cfg, 0, store.cfg.slots);
    if store.Whole() {
      RoundUpWithin(HEADER_SIZE, StorageSize(store.cfg), store.raw.Unit());
      RoundUpWithin(21, StorageSize(store.cfg), store.raw.Unit());
    }
  }

  lemma HeaderProgrammable(b: seq<u8>, h: seq<u8>)
    requires HEADER_SIZE == |h| <= |b|
    ensures b[..HEADER_SIZE] == Blank(HEADER_SIZE) ==> Programmable(b, 0, h)
  {
    hide Programmable;
    if b[..HEADER_SIZE] == Blank(HEADER_SIZE) {
      assert forall i :: 0 <= i < HEADER_SIZE ==> b[i] == b[..HEADER_SIZE][i];
      BlankProgrammable(b, 0, h);
    }
  }

  lemma CommitProgrammable(cfg: Config, sequence: u32, b: seq<u8>)
    requires Sane(cfg) && |b| >= HEADER_SIZE && b[..HEADER_SIZE] == HeaderBytes(cfg, sequence)
    ensures Programmable(b, 20, [COMMITTED])
  {
    hide Programmable, SpoolHeaderPrefix;
    assert b[20] == b[..HEADER_SIZE][20] == Blank(4)[0];
    BlankProgrammable(b, 20, [COMMITTED]);
  }

  // ---------------------------------------------------------------- erasing

  /** The erase block size divides the size of the spool. */
  predicate Erasable(store: Store) {
    store.raw.eraseSize <= 1 || StorageSize(store.cfg) % store.raw.eraseSize == 0
  }

  /** Erases the whole spool, which must hold no committed record; a torn erase still leaves none. */
  method EraseSpool(store: Store) returns (status: Status)
    requires store.Ready() && View(store.cfg, store.raw.data[..]) == map[]
    modifies store.raw`operationCount, store.raw.data
    ensures old(store.raw.Quiet()) ==> store.raw.Quiet()
    ensures View(store.cfg, store.raw.data[..]) == map[]
    ensures KeepsVacant(store.cfg, old(store.raw.data[..]), store.raw.data[..])
    ensures status == Ok ==> store.raw.data[..StorageSize(store.cfg)] == Blank(StorageSize(store.cfg))
    ensures status == Ok ==> store.raw.operationCount == old(store.raw.operationCount) + 2
    ensures old(store.raw.Quiet()) && Erasable(store) ==> status == Ok
  {
    hide Slot, View, SlotOffset, StorageSize, KeepsVacant;
    var size := StorageSize(store.cfg);
    ghost var b := store.raw.data[..];
    if store.raw.eraseSize > 1 && size % store.raw.eraseSize != 0 {
      KeepsVacantSame(store.cfg, b);
      return Enotsup;
    }
    ghost var erased;
    status, erased := store.raw.Erase(0, size);
    WipedView(store.cfg, b, erased);
    WipedVacant(store.cfg, b, erased);
    if status == Ok {
      assert store.raw.data[..size] == Blank(size);
      status := store.raw.Sync();
    }
  }

  lemma AllVacant(cfg: Config, b: seq<u8>)
    requires SlotOffset(cfg, cfg.slots) <= StorageSize(cfg) <= |b| && b[..StorageSize(cfg)] == Blank(StorageSize(cfg))
    ensures forall s :: 0 <= s < cfg.slots ==> Slot(cfg, b, s) == Blank(SlotSize(cfg)) && Vacant(cfg, b, s)
    ensures HEADER_SIZE <= |b| && (cfg.slots > 0 ==> b[..HEADER_SIZE] == Blank(HEADER_SIZE))
  {
    hide StorageSize;
    forall s | 0 <= s < cfg.slots ensures Slot(cfg, b, s) == Blank(SlotSize(cfg)) && Vacant(cfg, b, s) {
      SlotInside(cfg, s, cfg.slots);
      assert forall i :: 0 <= i < StorageSize(cfg) ==> b[i] == b[..StorageSize(cfg)][i];
    }
    if cfg.slots > 0 {
      SlotInside(cfg, 0, cfg.slots);
      assert b[..HEADER_SIZE] == b[..StorageSize(cfg)][..HEADER_SIZE];
    }
  }

  lemma SameSlotsSame(cfg: Config, b: seq<u8>, b': seq<u8>)
    requires SlotOffset(cfg, cfg.slots) <= |b| == |b'|
    requires forall s :: 0 <= s < cfg.slots ==> Slot(cfg, b', s) == Slot(cfg, b, s)
    ensures KeepsVacant(cfg, b, b') && forall s: nat :: s < cfg.slots ==> Vacant(cfg, b', s) == Vacant(cfg, b, s)
  {
    hide Slot, SlotOffset;
  }

  /** Erases the spool and writes its header again. */
  method Reformat(store: Store) returns (status: Status)
    requires store.Ready() && View(store.cfg, store.raw.data[..]) == map[]
    modifies store.raw`operationCount, store.raw.data
    ensures old(store.raw.Quiet()) ==> store.raw.Quiet()
    ensures View(store.cfg, store.raw.data[..]) == map[]
    ensures KeepsVacant(store.cfg, old(store.raw.data[..]), store.raw.data[..])
    ensures status == Ok ==>
      forall s :: 0 <= s < store.cfg.slots ==> Slot(store.cfg, store.raw.data[..], s) == Blank(SlotSize(store.cfg))
    ensures status == Ok ==> Headed(store.cfg, store.raw.data[..], store.sequence)
    ensures old(store.raw.Quiet()) && Erasable(store) && store.Whole() ==> status == Ok
  {
    hide Slot, View, SlotOffset, StorageSize, KeepsVacant, HeaderValid, Vacant, ReadU32;
    ghost var b0 := store.raw.data[..];
    status := EraseSpool(store);
    if status != Ok {
      return;
    }
    ghost var b1 := store.raw.data[..];
    AllVacant(store.cfg, b1);
    status := WriteHeader(store);
    SameSlotsSame(store.cfg, b1, store.raw.data[..]);
    KeepsVacantTransitive(store.cfg, b0, b1, store.raw.data[..]);
  }

  /**
   Reclaims the flash once it is drained. Nothing committed is touched: with a committed record left, nothing
   changes at all; otherwise every slot is free again.
   */
  method ReclaimIfDrained(store: Store) returns (status: Status)
    requires store.Ready()
    modifies store.raw`operationCount, store.raw.data
    ensures old(store.raw.Quiet()) ==> store.raw.Quiet()
    ensures View(store.cfg, store.raw.data[..]) == View(store.cfg, old(store.raw.data[..]))
    ensures View(store.cfg, old(store.raw.data[..])) != map[] ==> store.raw.data[..] == old(store.raw.data[..])
    ensures KeepsVacant(store.cfg, old(store.raw.data[..]), store.raw.data[..])
    ensures status == Ok && View(store.cfg, store.raw.data[..]) == map[] ==>
      forall s :: 0 <= s < store.cfg.slots ==> Vacant(store.cfg, store.raw.data[..], s)
    ensures old(store.raw.Quiet()) && Erasable(store) && store.Whole() ==> status == Ok
  {
    hide Slot, SlotOffset, StorageSize, KeepsVacant, HeaderValid, Vacant, Committed, RecOf, RecordValid;
    var cfg := store.cfg;
    ghost var b := store.raw.data[..];
    KeepsVacantSame(cfg, b);
    var consumed := false;
    var slot := 0;
    while slot < cfg.slots
      invariant 0 <= slot <= cfg.slots && store.raw.data[..] == b && (old(store.raw.Quiet()) ==> store.raw.Quiet())
      invariant forall s: nat :: s < slot ==> !CommittedAt(cfg, b, s)
      invariant !consumed ==> forall s :: 0 <= s < slot ==> Vacant(cfg, b, s)
    {
      var h;
      status, h := store.ReadRecord(slot);
      if status != Ok {
        return;
      }
      if Committed(cfg, h) {
        assert slot in View(cfg, b);
        return Ok;
      }
      if !RecordErased(h) {
        consumed := true;
      } else {
        VacantIs(cfg, b, slot);
      }
      slot := slot + 1;
    }
    assert View(cfg, b) == map[];
    if !consumed {
      return Ok;
    }
    status := Reformat(store);
    if status == Ok {
      BlankVacant(cfg, store.raw.data[..]);
    }
  }

  predicate RecordErased(h: seq<u8>)
    requires |h| == RECORD_SIZE
  {
    h == Blank(RECORD_SIZE)
  }

  lemma VacantIs(cfg: Config, b: seq<u8>, slot: nat)
    requires slot < cfg.slots && SlotOffset(cfg, cfg.slots) <= |b|
    ensures Vacant(cfg, b, slot) <==> Slot(cfg, b, slot)[..RECORD_SIZE] == Blank(RECORD_SIZE)
  {
  }

  lemma BlankVacant(cfg: Config, b: seq<u8>)
    requires SlotOffset(cfg, cfg.slots) <= |b|
    requires forall s :: 0 <= s < cfg.slots ==> Slot(cfg, b, s) == Blank(SlotSize(cfg))
    ensures forall s :: 0 <= s < cfg.slots ==> Vacant(cfg, b, s)
  {
    hide Slot, SlotOffset;
    assert Blank(SlotSize(cfg))[..RECORD_SIZE] == Blank(RECORD_SIZE);
  }

  // ---------------------------------------------------------------- mounting

  predicate ValidAt(cfg: Config, b: seq<u8>, slot: nat)
    requires SlotOffset(cfg, cfg.slots) <= |b|
  {
    slot < cfg.slots && RecordValid(cfg, Slot(cfg, b, slot))
  }

  function SequenceAt(cfg: Config, b: seq<u8>, slot: nat): u32
    requires SlotOffset(cfg, cfg.slots) <= |b| && slot < cfg.slots
  {
    ReadU32(Slot(cfg, b, slot), 8)
  }

  /** The sequence the scan of the first n slots arrives at. */
  function Scanned(cfg: Config, b: seq<u8>, n: nat, start: u32): u32
    requires SlotOffset(cfg, cfg.slots) <= |b| && n <= cfg.slots
  {
    if n == 0 then start else
    var seen := Scanned(cfg, b, n - 1, start);
    if ValidAt(cfg, b, n - 1) && Newer(SequenceAt(cfg, b, n - 1), seen) then SequenceAt(cfg, b, n - 1) else seen
  }

  /** Within half the number range the scan finds the newest sequence of all records, consumed ones included. */
  lemma {:induction false} ScannedIsNewest(cfg: Config, b: seq<u8>, n: nat, start: u32, base: u32)
    requires SlotOffset(cfg, cfg.slots) <= |b| && n <= cfg.slots && Distance(base, start) < 0x8000_0000
    requires forall s :: 0 <= s < n && ValidAt(cfg, b, s) ==> Distance(base, SequenceAt(cfg, b, s)) < 0x8000_0000
    ensures var m := Scanned(cfg, b, n, start);
      && Distance(base, start) <= Distance(base, m) < 0x8000_0000
      && (forall s :: 0 <= s < n && ValidAt(cfg, b, s) ==> Distance(base, SequenceAt(cfg, b, s)) <= Distance(base, m))
      && (m == start || exists s :: 0 <= s < n && ValidAt(cfg, b, s) && SequenceAt(cfg, b, s) == m)
    decreases n
  {
    hide ValidAt, SequenceAt, Newer, Distance, SlotOffset;
    if n > 0 {
      ScannedIsNewest(cfg, b, n - 1, start, base);
      if ValidAt(cfg, b, n - 1) {
        NewerIsOrder(SequenceAt(cfg, b, n - 1), Scanned(cfg, b, n - 1, start), base);
      }
    }
  }

  /** Scans all slots for valid records. */
  method ScanRecords(store: Store, start: u32) returns (status: Status, sequence: u32, found: bool)
    requires store.Ready()
    modifies store.raw`operationCount
    ensures old(store.raw.Quiet()) ==> store.raw.Quiet() && status == Ok
    ensures status == Ok ==> sequence == Scanned(store.cfg, store.raw.data[..], store.cfg.slots, start)
    ensures status == Ok ==>
      (found <==> exists s :: 0 <= s < store.cfg.slots && ValidAt(store.cfg, store.raw.data[..], s))
  {
    hide Slot, SlotOffset, StorageSize, RecordValid, Newer, ReadU32;
    var cfg := store.cfg;
    ghost var b := store.raw.data[..];
    sequence, found, status := start, false, Ok;
    var slot := 0;
    while slot < cfg.slots
      invariant 0 <= slot <= cfg.slots && store.raw.data[..] == b && (old(store.raw.Quiet()) ==> store.raw.Quiet())
      invariant status == Ok && sequence == Scanned(cfg, b, slot, start)
      invariant found <==> exists s :: 0 <= s < slot && ValidAt(cfg, b, s)
    {
      var h;
      status, h := store.ReadRecord(slot);
      if status != Ok {
        return;
      }
      HeaderSequence(Slot(cfg, b, slot), h);
      if RecordValid(cfg, h) {
        assert ValidAt(cfg, b, slot);
        found := true;
        if Newer(ReadU32(h, 8), sequence) {
          sequence := ReadU32(h, 8);
        }
      }
      slot := slot + 1;
    }
  }

  lemma HeaderSequence(r: seq<u8>, h: seq<u8>)
    requires |r| >= RECORD_SIZE && h == r[..RECORD_SIZE]
    ensures ReadU32(h, 8) == ReadU32(r, 8)
  {
    assert forall i :: 0 <= i < RECORD_SIZE ==> h[i] == r[i];
  }

  lemma NoneValid(cfg: Config, b: seq<u8>)
    requires SlotOffset(cfg, cfg.slots) <= |b| && forall s :: 0 <= s < cfg.slots ==> !ValidAt(cfg, b, s)
    ensures View(cfg, b) == map[]
  {
    hide Slot, SlotOffset, RecordValid, RecOf;
    forall s: nat ensures !CommittedAt(cfg, b, s) {
      assert s < cfg.slots ==> !ValidAt(cfg, b, s);
    }
  }

  lemma KeptFloor(cfg: Config, b: seq<u8>)
    requires SlotOffset(cfg, cfg.slots) <= |b|
    ensures HEADER_SIZE <= |b|
  {
  }

  /** The sequence floor a mount starts from: that of a valid header, or zero. */
  function Floor(cfg: Config, b: seq<u8>): u32
    requires HEADER_SIZE <= |b|
  {
    if HeaderValid(cfg, b[..HEADER_SIZE]) then ReadU32(b[..HEADER_SIZE], 12) else 0
  }

  /**
   Mounts the spool. No committed record is touched, whatever fails; the flash is formatted only when it carries
   neither a valid header nor a valid record. The runtime sequence moves up to what the scan found.
   */
  method Init(store: Store) returns (status: Status)
    requires store.Ready()
    modifies store`sequence, store.raw`operationCount, store.raw.data
    ensures old(store.raw.Quiet()) ==> store.raw.Quiet()
    ensures View(store.cfg, store.raw.data[..]) == View(store.cfg, old(store.raw.data[..]))
    ensures KeepsVacant(store.cfg, old(store.raw.data[..]), store.raw.data[..])
    ensures (HEADER_SIZE <= store.raw.data.Length && HeaderValid(store.cfg, old(store.raw.data[..])[..HEADER_SIZE]))
            || (exists s :: 0 <= s < store.cfg.slots && ValidAt(store.cfg, old(store.raw.data[..]), s))
            ==> store.raw.data[..] == old(store.raw.data[..])
    ensures HEADER_SIZE <= store.raw.data.Length
    ensures status == Ok ==>
      || HeaderValid(store.cfg, store.raw.data[..][..HEADER_SIZE])
      || exists s :: 0 <= s < store.cfg.slots && ValidAt(store.cfg, store.raw.data[..], s)
    ensures status == Ok && store.raw.data[..] == old(store.raw.data[..]) ==>
      var m := Scanned(store.cfg, store.raw.data[..], store.cfg.slots, Floor(store.cfg, store.raw.data[..]));
      store.sequence == if Newer(m, old(store.sequence)) then m else old(store.sequence)
    ensures status != Ok || store.raw.data[..] != old(store.raw.data[..]) ==> store.sequence == old(store.sequence)
    ensures old(store.raw.Quiet()) && Erasable(store) && store.Whole() ==> status == Ok
  {
    hide Slot, SlotOffset, StorageSize, RecordValid, Newer, ReadU32, ReadU16, View, KeepsVacant, Vacant, Scanned;
    var cfg := store.cfg;
    ghost var b := store.raw.data[..];
    KeptFloor(cfg, b);
    KeepsVacantSame(cfg, b);
    var h;
    status, h := store.raw.Read(0, HEADER_SIZE);
    if status != Ok {
      return;
    }
    var start := if HeaderValid(cfg, h) then ReadU32(h, 12) else 0;
    var sequence, found;
    status, sequence, found := ScanRecords(store, start);
    if status != Ok {
      return;
    }
    if HeaderValid(cfg, h) || found {
      if Newer(sequence, store.sequence) {
        store.sequence := sequence;
      }
      return Ok;
    }
    NoneValid(cfg, b);
    status := Format(store);
  }

  /** Formats a spool on which nothing is committed: erases it unless it is erased already, and writes the header. */
  method Format(store: Store) returns (status: Status)
    requires store.Ready() && View(store.cfg, store.raw.data[..]) == map[]
    modifies store.raw`operationCount, store.raw.data
    ensures old(store.raw.Quiet()) ==> store.raw.Quiet()
    ensures View(store.cfg, store.raw.data[..]) == map[]
    ensures KeepsVacant(store.cfg, old(store.raw.data[..]), store.raw.data[..])
    ensures status == Ok ==> Headed(store.cfg, store.raw.data[..], store.sequence)
    ensures status == Ok ==>
      forall s :: 0 <= s < store.cfg.slots ==> Slot(store.cfg, store.raw.data[..], s) == Blank(SlotSize(store.cfg))
    ensures old(store.raw.Quiet()) && Erasable(store) && store.Whole() ==> status == Ok
  {
    hide Slot, SlotOffset, StorageSize, View, KeepsVacant, Vacant, HeaderValid;
    ghost var b := store.raw.data[..];
    var erased;
    status, erased := store.raw.IsErased(0, StorageSize(store.cfg));
    KeepsVacantSame(store.cfg, b);
    if status != Ok {
      return;
    }
    if !erased {
      status := Reformat(store);
      return;
    }
    AllVacant(store.cfg, b);
    status := WriteHeader(store);
    SameSlotsSame(store.cfg, b, store.raw.data[..]);
  }

  /**
   The sequence number lives through a reclaim: reclaiming a spool without records, and mounting it after a reset that
   left the runtime with another number, gives the number held before, unless the other one is not older.
   */
  method ReclaimThenMount(store: Store, found: u32) returns (status: Status)
    requires store.Ready() && View(store.cfg, store.raw.data[..]) == map[]
    requires store.raw.Quiet() && Erasable(store) && store.Whole()
    modifies store`sequence, store.raw`operationCount, store.raw.data
    ensures status == Ok
    ensures store.sequence ==
      if 0 < (old(store.sequence) - found) % 0x1_0000_0000 < 0x8000_0000 then old(store.sequence) else found
    ensures found == 0 ==> (store.sequence == old(store.sequence) <==> old(store.sequence) < 0x8000_0000)
  {
    hide Slot, SlotOffset, StorageSize, View, KeepsVacant, HeaderValid, Vacant, ReadU32, Scanned, ValidAt;
    ghost var held := store.sequence;
    status := Reformat(store);
    NothingScanned(store.cfg, store.raw.data[..], store.cfg.slots, held);
    store.sequence := found;
    status := Init(store);
  }

  lemma {:induction false} NothingScanned(cfg: Config, b: seq<u8>, n: nat, start: u32)
    requires SlotOffset(cfg, cfg.slots) <= |b| && n <= cfg.slots
    requires forall s :: 0 <= s < cfg.slots ==> Slot(cfg, b, s) == Blank(SlotSize(cfg))
    ensures Scanned(cfg, b, n, start) == start
    decreases n
  {
    hide Slot, SlotOffset, Newer, SequenceAt;
    if n > 0 {
      NothingScanned(cfg, b, n - 1, start);
      BlankInvalid(cfg, Slot(cfg, b, n - 1));
    }
  }

  lemma BlankInvalid(cfg: Config, r: seq<u8>)
    requires |r| >= RECORD_SIZE && r[0] == ERASED
    ensures !RecordValid(cfg, r)
  {
  }
}
