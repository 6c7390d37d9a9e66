/**
 The wear leveller: N slots instead of two banks, each update going to the least erased slot that is not the
 active one.
 */
module WearLevel {
  import opened Bits
  import opened Words
  import opened Storage
  import opened SlotCommit
  import opened AtomicStore

  const MAGIC: u32 := 0x574c534c
  const VERSION: u32 := 2
  const HEADER_SIZE: nat := 28
  const MAX_SLOTS: nat := 32

  // ---------------------------------------------------------------- slot contents

  function HeaderPrefix(crc: Checksum, generation: u32, erases: u32, capacity: u32, image: seq<u8>): (h: seq<u8>)
    ensures |h| == 24
  {
    U32Bytes(MAGIC) + U32Bytes(VERSION) + U32Bytes(generation) + U32Bytes(erases) + U32Bytes(capacity)
    + U32Bytes(crc(image))
  }

  function EncodeHeader(crc: Checksum, generation: u32, erases: u32, capacity: u32, image: seq<u8>): (h: seq<u8>)
    ensures |h| == HEADER_SIZE
  {
    var prefix := HeaderPrefix(crc, generation, erases, capacity, image);
    prefix + U32Bytes(crc(prefix))
  }

  predicate ValidHeader(crc: Checksum, capacity: nat, h: seq<u8>)
    requires |h| == HEADER_SIZE
  {
    ReadU32(h, 0) == MAGIC && ReadU32(h, 4) == VERSION && ReadU32(h, 16) == capacity && ReadU32(h, 24) == crc(h[..24])
  }

  predicate SlotFits(g: Geometry) {
    Fits(g) && g.header == HEADER_SIZE && g.capacity <= U32_MAX
  }

  function Image(g: Geometry, s: seq<u8>): (image: seq<u8>)
    requires SlotFits(g) && |s| == g.size
    ensures |image| == g.capacity
  {
    s[g.payload..g.payload + g.capacity]
  }

  function Generation(g: Geometry, s: seq<u8>): u32
    requires SlotFits(g) && |s| == g.size
  {
    ReadU32(s, 8)
  }

  predicate ValidSlot(crc: Checksum, g: Geometry, s: seq<u8>)
    requires SlotFits(g) && |s| == g.size
  {
    && ValidHeader(crc, g.capacity, s[..HEADER_SIZE])
    && s[g.commit] == COMMITTED
    && ReadU32(s, 20) == crc(Image(g, s))
  }

  lemma HeaderReadsBack(crc: Checksum, generation: u32, erases: u32, capacity: u32, image: seq<u8>)
    ensures var h := EncodeHeader(crc, generation, erases, capacity, image);
      && ValidHeader(crc, capacity, h) && ReadU32(h, 8) == generation && ReadU32(h, 12) == erases
      && ReadU32(h, 20) == crc(image) && h[0] == 0x4c
  {
    hide ReadU32;
    var p := HeaderPrefix(crc, generation, erases, capacity, image);
    var h := EncodeHeader(crc, generation, erases, capacity, image);
    assert h[..24] == p;
    ReadU32Same(h, 0, U32Bytes(MAGIC), 0);
    ReadU32Same(h, 4, U32Bytes(VERSION), 0);
    ReadU32Same(h, 8, U32Bytes(generation), 0);
    ReadU32Same(h, 12, U32Bytes(erases), 0);
    ReadU32Same(h, 16, U32Bytes(capacity), 0);
    ReadU32Same(h, 20, U32Bytes(crc(image)), 0);
    ReadU32Same(h, 24, U32Bytes(crc(p)), 0);
    assert h[0] == U32Bytes(MAGIC)[0];
  }

  /** A complete slot is valid with exactly the generation and image written. */
  lemma CompleteIsValid(crc: Checksum, g: Geometry, s: seq<u8>, generation: u32, erases: u32, image: seq<u8>)
    requires SlotFits(g) && |s| == g.size && |image| == g.capacity
    requires Holds(g, s, EncodeHeader(crc, generation, erases, g.capacity, image), image)
    ensures ValidSlot(crc, g, s) && Generation(g, s) == generation && Image(g, s) == image
  {
    hide ReadU32, EncodeHeader;
    var h := EncodeHeader(crc, generation, erases, g.capacity, image);
    HeaderReadsBack(crc, generation, erases, g.capacity, image);
    HeaderWords(h, s);
  }

  /** A slot is valid exactly if it is the complete slot of its own generation, erase count and image. */
  lemma ValidIff(crc: Checksum, g: Geometry, s: seq<u8>)
    requires SlotFits(g) && |s| == g.size
    ensures ValidSlot(crc, g, s) <==>
      Holds(g, s, EncodeHeader(crc, Generation(g, s), ReadU32(s, 12), g.capacity, Image(g, s)), Image(g, s))
  {
    hide ReadU32, U32Bytes;
    if ValidSlot(crc, g, s) {
      var h := s[..HEADER_SIZE];
      HeaderWords(h, s);
      BytesOfRead(h, 0);
      BytesOfRead(h, 4);
      BytesOfRead(h, 8);
      BytesOfRead(h, 12);
      BytesOfRead(h, 16);
      BytesOfRead(h, 20);
      BytesOfRead(h, 24);
      assert h[..24] == h[0..4] + h[4..8] + h[8..12] + h[12..16] + h[16..20] + h[20..24];
      assert h == h[..24] + h[24..28];
    } else if Holds(g, s, EncodeHeader(crc, Generation(g, s), ReadU32(s, 12), g.capacity, Image(g, s)), Image(g, s)) {
      CompleteIsValid(crc, g, s, Generation(g, s), ReadU32(s, 12), Image(g, s));
    }
  }

  lemma DeadIsInvalid(crc: Checksum, g: Geometry, s: seq<u8>)
    requires SlotFits(g) && |s| == g.size && Dead(g, s, 0x4c)
    ensures !ValidSlot(crc, g, s)
  {
    assert s[0] == s[..HEADER_SIZE][0];
  }

  // ---------------------------------------------------------------- slots of a device

  lemma SlotInside(slot: nat, n: nat, size: nat)
    requires slot < n
    ensures 0 <= slot * size && slot * size + size <= n * size
  {
    MulMono(slot + 1, n, size);
  }

  function SlotBase(g: Geometry, slot: nat): nat {
    slot * g.size
  }

  function Slot(g: Geometry, b: seq<u8>, n: nat, slot: nat): (s: seq<u8>)
    requires SlotFits(g) && n * g.size <= |b| && slot < n
    ensures |s| == g.size
  {
    SlotInside(slot, n, g.size);
    Region(b, slot * g.size, g.size)
  }

  predicate Valid(crc: Checksum, g: Geometry, b: seq<u8>, n: nat, slot: nat)
    requires SlotFits(g) && n * g.size <= |b| && slot < n
  {
    ValidSlot(crc, g, Slot(g, b, n, slot))
  }

  function Gen(g: Geometry, b: seq<u8>, n: nat, slot: nat): u32
    requires SlotFits(g) && n * g.size <= |b| && slot < n
  {
    Generation(g, Slot(g, b, n, slot))
  }

  /** Writing one slot leaves the others alone. */
  lemma OtherSlotSame(g: Geometry, b: seq<u8>, b': seq<u8>, n: nat, slot: nat, other: nat)
    requires SlotFits(g) && n * g.size <= |b| == |b'| && slot < n && other < n && slot != other
    requires SlotBase(g, slot) + g.size <= |b| && OnlySlot(b, b', SlotBase(g, slot), g.size)
    ensures Slot(g, b', n, other) == Slot(g, b, n, other)
  {
    SlotInside(other, n, g.size);
    if other < slot {
      SlotInside(other, slot, g.size);
    } else {
      SlotInside(slot, other, g.size);
    }
    OutsideSlot(b, b', slot * g.size, g.size, other * g.size, g.size);
  }

  // ---------------------------------------------------------------- recovery

  /** The newest of the first k slots, as the scan of the initialisation finds it. */
  function Newest(crc: Checksum, g: Geometry, b: seq<u8>, n: nat, k: nat): (slot: Option<nat>)
    requires SlotFits(g) && n * g.size <= |b| && k <= n
    ensures slot.Some? ==> slot.value < k && Valid(crc, g, b, n, slot.value)
    ensures slot.None? ==> forall s :: 0 <= s < k ==> !Valid(crc, g, b, n, s)
  {
    if k == 0 then None else
    var best := Newest(crc, g, b, n, k - 1);
    if !Valid(crc, g, b, n, k - 1) then best
    else if best.None? || Newer(Gen(g, b, n, k - 1), Gen(g, b, n, best.value)) then Some(k - 1)
    else best
  }

  /** How many generations behind `top`, counting around the 32-bit wrap. */
  function Behind(top: u32, generation: u32): u32 {
    (top - generation) % 0x1_0000_0000
  }

  /** Valid slots carry distinct generations, all less than half the range behind `top`. */
  predicate Ordered(crc: Checksum, g: Geometry, b: seq<u8>, n: nat, top: u32)
    requires SlotFits(g) && n * g.size <= |b|
  {
    && (forall s :: 0 <= s < n && Valid(crc, g, b, n, s) ==> Behind(top, Gen(g, b, n, s)) < 0x8000_0000)
    && (forall s, t :: 0 <= s < t < n && Valid(crc, g, b, n, s) && Valid(crc, g, b, n, t) ==>
          Gen(g, b, n, s) != Gen(g, b, n, t))
  }

  predicate TopAt(crc: Checksum, g: Geometry, b: seq<u8>, n: nat, top: u32, slot: nat)
    requires SlotFits(g) && n * g.size <= |b|
  {
    slot < n && Valid(crc, g, b, n, slot) && Gen(g, b, n, slot) == top
  }

  lemma NewerFromBehind(top: u32, generation: u32)
    requires Behind(top, generation) < 0x8000_0000
    ensures generation != top ==> Newer(top, generation)
    ensures !Newer(generation, top)
  {
  }

  lemma BehindNext(top: u32, generation: u32)
    requires Behind(top, generation) < 0x7fff_ffff
    ensures Behind(Next(top), generation) == Behind(top, generation) + 1
    ensures generation != Next(top) && Behind(Next(top), Next(top)) == 0
  {
  }

  /** The scan finds the slot with the top generation, wherever it is and wherever the others are. */
  lemma {:induction false} NewestIsTop(crc: Checksum, g: Geometry, b: seq<u8>, n: nat, k: nat, top: u32, slot: nat)
    requires SlotFits(g) && n * g.size <= |b| && k <= n
    requires Ordered(crc, g, b, n, top) && TopAt(crc, g, b, n, top, slot)
    ensures slot < k ==> Newest(crc, g, b, n, k) == Some(slot)
    decreases k
  {
    hide ValidSlot, Slot, Generation, Newer, Behind;
    if k > 0 {
      NewestIsTop(crc, g, b, n, k - 1, top, slot);
      var best := Newest(crc, g, b, n, k - 1);
      if slot == k - 1 {
        if best.Some? {
          assert Gen(g, b, n, best.value) != top;
          NewerFromBehind(top, Gen(g, b, n, best.value));
        }
      } else if slot < k - 1 && Valid(crc, g, b, n, k - 1) {
        NewerFromBehind(top, Gen(g, b, n, k - 1));
      }
    }
  }

  /** Room for one more generation: every valid slot is well within half the range. */
  predicate SpanOk(crc: Checksum, g: Geometry, b: seq<u8>, n: nat, generation: u32)
    requires SlotFits(g) && n * g.size <= |b|
  {
    forall s :: 0 <= s < n && Valid(crc, g, b, n, s) ==> Behind(generation, Gen(g, b, n, s)) < 0x7fff_ffff
  }

  lemma UnchangedSlots(crc: Checksum, g: Geometry, b: seq<u8>, b': seq<u8>, n: nat, target: nat)
    requires SlotFits(g) && n * g.size <= |b| == |b'| && target < n && SlotBase(g, target) + g.size <= |b|
    requires OnlySlot(b, b', SlotBase(g, target), g.size)
    ensures forall s :: 0 <= s < n && s != target ==>
      && Slot(g, b', n, s) == Slot(g, b, n, s)
      && Valid(crc, g, b', n, s) == Valid(crc, g, b, n, s)
      && Gen(g, b', n, s) == Gen(g, b, n, s)
  {
    hide ValidSlot, OnlySlot, Generation;
    forall s | 0 <= s < n && s != target
      ensures Slot(g, b', n, s) == Slot(g, b, n, s)
    {
      OtherSlotSame(g, b, b', n, target, s);
    }
  }

  /** The target ended up invalid: nothing has changed for recovery. */
  lemma TargetInvalid(crc: Checksum, g: Geometry, b: seq<u8>, b': seq<u8>, n: nat, target: nat, active: nat, top: u32)
    requires SlotFits(g) && n * g.size <= |b| == |b'| && target < n && SlotBase(g, target) + g.size <= |b|
    requires target != active
    requires Ordered(crc, g, b, n, top) && TopAt(crc, g, b, n, top, active)
    requires OnlySlot(b, b', SlotBase(g, target), g.size)
    requires !Valid(crc, g, b', n, target) || Slot(g, b', n, target) == Slot(g, b, n, target)
    ensures Ordered(crc, g, b', n, top) && TopAt(crc, g, b', n, top, active)
    ensures Slot(g, b', n, active) == Slot(g, b, n, active)
  {
    hide ValidSlot, OnlySlot, Generation, Behind, Slot;
    UnchangedSlots(crc, g, b, b', n, target);
    forall s | 0 <= s < n && Valid(crc, g, b', n, s)
      ensures Valid(crc, g, b, n, s) && Gen(g, b', n, s) == Gen(g, b, n, s)
    {
    }
  }

  /** The target holds the next generation: it is the new top, and all generations are still distinct. */
  lemma TargetNext(crc: Checksum, g: Geometry, b: seq<u8>, b': seq<u8>, n: nat, target: nat, top: u32)
    requires SlotFits(g) && n * g.size <= |b| == |b'| && target < n && SlotBase(g, target) + g.size <= |b|
    requires Ordered(crc, g, b, n, top) && SpanOk(crc, g, b, n, top)
    requires OnlySlot(b, b', SlotBase(g, target), g.size)
    requires Valid(crc, g, b', n, target) && Gen(g, b', n, target) == Next(top)
    ensures Ordered(crc, g, b', n, Next(top)) && TopAt(crc, g, b', n, Next(top), target)
  {
    hide ValidSlot, OnlySlot, Generation, Behind, Slot, Next;
    UnchangedSlots(crc, g, b, b', n, target);
    forall s | 0 <= s < n && Valid(crc, g, b', n, s)
      ensures Behind(Next(top), Gen(g, b', n, s)) < 0x8000_0000
      ensures s != target ==> Gen(g, b', n, s) != Next(top)
    {
      if s != target {
        BehindNext(top, Gen(g, b, n, s));
      } else {
        NextBehindZero(top);
      }
    }
  }

  lemma NextBehindZero(top: u32)
    ensures Behind(Next(top), Next(top)) == 0
  {
  }

  /** One commit into a slot other than the active one, however it ends. */
  lemma CommitOutcome(crc: Checksum, g: Geometry, b: seq<u8>, b': seq<u8>, n: nat, target: nat, active: nat, top: u32,
                      erases: u32, image: seq<u8>, complete: bool)
    requires SlotFits(g) && n * g.size <= |b| == |b'| && target < n && SlotBase(g, target) + g.size <= |b|
    requires target != active
    requires |image| == g.capacity
    requires Ordered(crc, g, b, n, top) && TopAt(crc, g, b, n, top, active) && SpanOk(crc, g, b, n, top)
    requires OnlySlot(b, b', SlotBase(g, target), g.size)
    requires Outcome(g, Slot(g, b, n, target), Slot(g, b', n, target),
                     EncodeHeader(crc, Next(top), erases, g.capacity, image), image, complete)
    ensures complete ==> Ordered(crc, g, b', n, Next(top)) && TopAt(crc, g, b', n, Next(top), target)
                         && Image(g, Slot(g, b', n, target)) == image
    ensures || (Ordered(crc, g, b', n, top) && TopAt(crc, g, b', n, top, active)
                && Slot(g, b', n, active) == Slot(g, b, n, active))
            || (Ordered(crc, g, b', n, Next(top)) && TopAt(crc, g, b', n, Next(top), target)
                && Image(g, Slot(g, b', n, target)) == image)
  {
    hide ValidSlot, OnlySlot, Generation, Behind, Slot, Next, Ordered, SpanOk, EncodeHeader, Holds, Dead, Image, TopAt;
    HeaderReadsBack(crc, Next(top), erases, g.capacity, image);
    var now := Slot(g, b', n, target);
    if Holds(g, now, EncodeHeader(crc, Next(top), erases, g.capacity, image), image) {
      CompleteIsValid(crc, g, now, Next(top), erases, image);
      TargetNext(crc, g, b, b', n, target, top);
    } else {
      if Dead(g, now, 0x4c) {
        DeadIsInvalid(crc, g, now);
      }
      TargetInvalid(crc, g, b, b', n, target, active, top);
    }
  }

  // ---------------------------------------------------------------- sessions that go on after a failed commit

  /** The lowest valid slot that carries a generation. */
  predicate LowestWith(crc: Checksum, g: Geometry, b: seq<u8>, n: nat, generation: u32, slot: nat)
    requires SlotFits(g) && n * g.size <= |b|
  {
    TopAt(crc, g, b, n, generation, slot) && forall s :: 0 <= s < slot && Valid(crc, g, b, n, s) ==>
      Gen(g, b, n, s) != generation
  }

  /** Of several slots with the newest generation, the scan keeps the lowest. */
  lemma {:induction false} LowestTopWins(crc: Checksum, g: Geometry, b: seq<u8>, n: nat, k: nat, top: u32, first: nat)
    requires SlotFits(g) && n * g.size <= |b| && k <= n && LowestWith(crc, g, b, n, top, first)
    requires forall s :: 0 <= s < n && Valid(crc, g, b, n, s) ==> Behind(top, Gen(g, b, n, s)) < 0x8000_0000
    ensures first < k ==> Newest(crc, g, b, n, k) == Some(first)
    decreases k
  {
    hide ValidSlot, Slot, Generation, Newer, Behind;
    if k > 0 {
      LowestTopWins(crc, g, b, n, k - 1, top, first);
      var best := Newest(crc, g, b, n, k - 1);
      if first == k - 1 {
        if best.Some? {
          NewerFromBehind(top, Gen(g, b, n, best.value));
        }
      } else if first < k - 1 && Valid(crc, g, b, n, k - 1) {
        NewerFromBehind(top, Gen(g, b, n, k - 1));
      }
    }
  }

  lemma {:induction false} LowestExists(crc: Checksum, g: Geometry, b: seq<u8>, n: nat, generation: u32, slot: nat)
      returns (first: nat)
    requires SlotFits(g) && n * g.size <= |b| && TopAt(crc, g, b, n, generation, slot)
    ensures first <= slot && LowestWith(crc, g, b, n, generation, first)
    decreases slot
  {
    hide ValidSlot, Slot, Generation;
    if s: nat :| s < slot && TopAt(crc, g, b, n, generation, s) {
      first := LowestExists(crc, g, b, n, generation, s);
    } else {
      first := slot;
      forall s: nat | s < slot && Valid(crc, g, b, n, s) ensures Gen(g, b, n, s) != generation {
        assert !TopAt(crc, g, b, n, generation, s);
      }
    }
  }

  /**
   A session that may have had failed commits: the active slot carries the generation `top`, and no valid slot is ahead
   of the next one or more than m behind it. Slots of failed commits that landed carry the next generation; once a later
   commit succeeds with that generation they are its rivals.
   */
  predicate Live(crc: Checksum, g: Geometry, b: seq<u8>, n: nat, top: u32, active: nat, m: nat)
    requires SlotFits(g) && n * g.size <= |b|
  {
    && TopAt(crc, g, b, n, top, active)
    && forall s :: 0 <= s < n && Valid(crc, g, b, n, s) ==> Behind(Next(top), Gen(g, b, n, s)) <= m
  }

  /** A valid slot carries this generation. */
  ghost predicate Carried(crc: Checksum, g: Geometry, b: seq<u8>, n: nat, generation: u32)
    requires SlotFits(g) && n * g.size <= |b|
  {
    exists s :: 0 <= s < n && Valid(crc, g, b, n, s) && Gen(g, b, n, s) == generation
  }

  /** Exactly when a restart finds the active slot: no failed commit landed since, and no rival lies below it. */
  lemma LiveRecovers(crc: Checksum, g: Geometry, b: seq<u8>, n: nat, top: u32, active: nat, m: nat)
    requires SlotFits(g) && n * g.size <= |b| && Live(crc, g, b, n, top, active, m) && m < 0x8000_0000
    ensures Newest(crc, g, b, n, n).Some? && Gen(g, b, n, Newest(crc, g, b, n, n).value) in {top, Next(top)}
    ensures Newest(crc, g, b, n, n) == Some(active) <==>
      !Carried(crc, g, b, n, Next(top)) && LowestWith(crc, g, b, n, top, active)
  {
    hide ValidSlot, Slot, Generation, Newest;
    NextDiffers(top);
    if Carried(crc, g, b, n, Next(top)) {
      var s: nat :| s < n && Valid(crc, g, b, n, s) && Gen(g, b, n, s) == Next(top);
      var first := LowestExists(crc, g, b, n, Next(top), s);
      LowestTopWins(crc, g, b, n, n, Next(top), first);
    } else {
      forall s | 0 <= s < n && Valid(crc, g, b, n, s) ensures Behind(top, Gen(g, b, n, s)) < 0x8000_0000 {
        assert Gen(g, b, n, s) != Next(top);
        BehindBefore(top, Gen(g, b, n, s));
      }
      var first := LowestExists(crc, g, b, n, top, active);
      LowestTopWins(crc, g, b, n, n, top, first);
    }
  }

  lemma NextDiffers(top: u32)
    ensures Next(top) != top
  {
  }

  lemma BehindBefore(top: u32, generation: u32)
    requires Behind(Next(top), generation) < 0x8000_0000 && generation != Next(top)
    ensures Behind(top, generation) == Behind(Next(top), generation) - 1
  {
  }

  /** A commit that failed keeps the session: at worst its slot is ahead. */
  lemma AfterFailure(crc: Checksum, g: Geometry, b: seq<u8>, b': seq<u8>, n: nat, target: nat, active: nat, top: u32,
                     erases: u32, image: seq<u8>, m: nat)
    requires SlotFits(g) && n * g.size <= |b| == |b'| && Live(crc, g, b, n, top, active, m) && target != active
    requires Attempted(crc, g, b, b', n, target, Next(top), erases, image, false)
    ensures Live(crc, g, b', n, top, active, m) && Slot(g, b', n, active) == Slot(g, b, n, active)
  {
    hide ValidSlot, OnlySlot, Generation, Behind, Slot, Next, EncodeHeader, Holds, Dead, Image;
    UnchangedSlots(crc, g, b, b', n, target);
    HeaderReadsBack(crc, Next(top), erases, g.capacity, image);
    var now := Slot(g, b', n, target);
    if Holds(g, now, EncodeHeader(crc, Next(top), erases, g.capacity, image), image) {
      CompleteIsValid(crc, g, now, Next(top), erases, image);
      NextBehindZero(top);
    } else if Dead(g, now, 0x4c) {
      DeadIsInvalid(crc, g, now);
    }
    forall s | 0 <= s < n && Valid(crc, g, b', n, s) ensures Behind(Next(top), Gen(g, b', n, s)) <= m {
      if s == target && now == Slot(g, b, n, target) {
        assert Valid(crc, g, b, n, s);
      }
    }
  }

  /**
   A commit that succeeded: its image is what a restart finds exactly unless an earlier commit of the session that was
   reported as failed had landed in a lower slot. With two slots a retry hits the same slot, so that it always is.
   */
  lemma AfterSuccess(crc: Checksum, g: Geometry, b: seq<u8>, b': seq<u8>, n: nat, target: nat, active: nat, top: u32,
                     erases: u32, image: seq<u8>, m: nat)
    requires SlotFits(g) && n * g.size <= |b| == |b'| && Live(crc, g, b, n, top, active, m) && target != active
    requires m < 0x7fff_ffff
    requires Attempted(crc, g, b, b', n, target, Next(top), erases, image, true)
    ensures Live(crc, g, b', n, Next(top), target, m + 1) && Image(g, Slot(g, b', n, target)) == image
    ensures !Carried(crc, g, b', n, Next(Next(top)))
    ensures Newest(crc, g, b', n, n) == Some(target) <==>
      forall s :: 0 <= s < target && Valid(crc, g, b, n, s) ==> Gen(g, b, n, s) != Next(top)
    ensures n == 2 ==> Newest(crc, g, b', n, n) == Some(target)
  {
    hide ValidSlot, OnlySlot, Generation, Slot, EncodeHeader, Image, Newest, Behind, Next;
    UnchangedSlots(crc, g, b, b', n, target);
    HeaderReadsBack(crc, Next(top), erases, g.capacity, image);
    CompleteIsValid(crc, g, Slot(g, b', n, target), Next(top), erases, image);
    forall s | 0 <= s < n && Valid(crc, g, b', n, s)
      ensures Behind(Next(Next(top)), Gen(g, b', n, s)) <= m + 1 && Gen(g, b', n, s) != Next(Next(top))
    {
      if s == target {
        NextBehindOne(Next(top));
      } else {
        BehindNext(Next(top), Gen(g, b, n, s));
      }
    }
    LiveRecovers(crc, g, b', n, Next(top), target, m + 1);
    NextDiffers(top);
    assert n == 2 ==> forall s :: 0 <= s < target && Valid(crc, g, b, n, s) ==> Gen(g, b, n, s) == top;
  }

  lemma NextBehindOne(top: u32)
    ensures Behind(Next(top), top) == 1 && top != Next(top)
  {
  }

  /** The other case: a commit reported as failed had landed in a lower slot, and a restart finds that image. */
  lemma RivalKept(crc: Checksum, g: Geometry, b: seq<u8>, b': seq<u8>, n: nat, target: nat, active: nat, top: u32,
                  erases: u32, image: seq<u8>, m: nat, rival: nat)
    requires SlotFits(g) && n * g.size <= |b| == |b'| && Live(crc, g, b, n, top, active, m) && target != active
    requires m < 0x7fff_ffff
    requires Attempted(crc, g, b, b', n, target, Next(top), erases, image, true)
    requires LowestWith(crc, g, b, n, Next(top), rival) && rival < target
    ensures Newest(crc, g, b', n, n) == Some(rival) && Slot(g, b', n, rival) == Slot(g, b, n, rival)
  {
    hide ValidSlot, OnlySlot, Generation, Slot, EncodeHeader, Image, Newest, Behind, Next;
    UnchangedSlots(crc, g, b, b', n, target);
    HeaderReadsBack(crc, Next(top), erases, g.capacity, image);
    CompleteIsValid(crc, g, Slot(g, b', n, target), Next(top), erases, image);
    NextBehindZero(top);
    LowestTopWins(crc, g, b', n, n, Next(top), rival);
  }

  /** A commit of an image into one slot, with one of the outcomes of the protocol. */
  predicate Attempted(crc: Checksum, g: Geometry, b: seq<u8>, b': seq<u8>, n: nat, target: nat, generation: u32,
                      erases: u32, image: seq<u8>, complete: bool)
    requires SlotFits(g) && n * g.size <= |b| == |b'|
  {
    && target < n && |image| == g.capacity && SlotBase(g, target) + g.size <= |b|
    && OnlySlot(b, b', SlotBase(g, target), g.size)
    && Outcome(g, Slot(g, b, n, target), Slot(g, b', n, target),
               EncodeHeader(crc, generation, erases, g.capacity, image), image, complete)
  }

  // ---------------------------------------------------------------- wear balance

  /**
   Balance of one session from a freshly formatted device: with f failed commits, no slot has been erased more
   than f times oftener than the active one, nor more than f + 1 times oftener than any other.
   */
  predicate Balanced(counts: seq<u32>, active: nat, failures: nat) {
    && active < |counts|
    && forall s, t :: 0 <= s < |counts| && 0 <= t < |counts| ==>
         counts[t] <= counts[s] + failures + (if s == active then 0 else 1)
  }

  /** The slot chosen for an update: not the active one, and no other inactive slot has been erased less. */
  predicate LeastErased(counts: seq<u32>, active: nat, target: nat) {
    target < |counts| && target != active && forall s :: 0 <= s < |counts| && s != active ==>
      counts[target] <= counts[s]
  }

  /** Of equally erased slots, the one next in the round from the active slot. */
  predicate FirstAround(counts: seq<u32>, active: nat, target: nat) {
    && 0 < |counts| && target < |counts|
    && forall j, k :: 1 <= j < k <= |counts| && Around(active, k, |counts|) == target ==>
         Around(active, j, |counts|) == active || counts[Around(active, j, |counts|)] > counts[target]
  }

  /** A commit that succeeded: the target was erased once and is active now. */
  lemma BalanceCommit(counts: seq<u32>, active: nat, failures: nat, target: nat)
    requires Balanced(counts, active, failures) && LeastErased(counts, active, target) && counts[target] < U32_MAX
    ensures Balanced(counts[target := counts[target] + 1], target, failures)
  {
  }

  /** A commit that failed: the target may have been erased, the active slot has not changed. */
  lemma BalanceFailure(counts: seq<u32>, active: nat, failures: nat, target: nat)
    requires Balanced(counts, active, failures) && LeastErased(counts, active, target)
    ensures Balanced(counts, active, failures + 1)
    ensures counts[target] < U32_MAX ==> Balanced(counts[target := counts[target] + 1], active, failures + 1)
  {
  }

  lemma BalanceStep(counts: seq<u32>, active: nat, failures: nat, target: nat, counts': seq<u32>, committed: bool)
    requires LeastErased(counts, active, target)
    requires counts' == counts || (counts[target] < U32_MAX && counts' == counts[target := counts[target] + 1])
    requires committed ==> counts[target] < U32_MAX && counts' == counts[target := counts[target] + 1]
    ensures Balanced(counts, active, failures) ==>
      if committed then Balanced(counts', target, failures) else Balanced(counts', active, failures + 1)
  {
    hide Balanced;
    if Balanced(counts, active, failures) {
      if committed {
        BalanceCommit(counts, active, failures, target);
      } else {
        BalanceFailure(counts, active, failures, target);
      }
    }
  }

  function Max(counts: seq<u32>): u32
    requires |counts| > 0
  {
    if |counts| == 1 then counts[0] else
    var m := Max(counts[1..]);
    if counts[0] > m then counts[0] else m
  }

  function Min(counts: seq<u32>): u32
    requires |counts| > 0
  {
    if |counts| == 1 then counts[0] else
    var m := Min(counts[1..]);
    if counts[0] < m then counts[0] else m
  }

  function Total(counts: seq<u32>): nat {
    if counts == [] then 0 else counts[0] + Total(counts[1..])
  }

  lemma {:induction false} ExtremesAre(counts: seq<u32>)
    requires |counts| > 0
    ensures Max(counts) in counts && Min(counts) in counts
    ensures forall s :: 0 <= s < |counts| ==> Min(counts) <= counts[s] <= Max(counts)
  {
    if |counts| > 1 {
      ExtremesAre(counts[1..]);
      assert counts == [counts[0]] + counts[1..];
    }
  }

  lemma {:induction false} TotalAtMost(counts: seq<u32>, high: nat)
    requires forall s :: 0 <= s < |counts| ==> counts[s] <= high
    ensures Total(counts) <= |counts| * high
  {
    if counts != [] {
      TotalAtMost(counts[1..], high);
      MulSub(|counts|, |counts[1..]|, high);
    }
  }

  lemma {:induction false} TotalAtLeast(counts: seq<u32>, low: nat)
    requires forall s :: 0 <= s < |counts| ==> low <= counts[s]
    ensures |counts| * low <= Total(counts)
  {
    if counts != [] {
      TotalAtLeast(counts[1..], low);
      MulSub(|counts|, |counts[1..]|, low);
    }
  }

  lemma TotalFirst(counts: seq<u32>)
    requires counts != []
    ensures Total(counts) == counts[0] + Total(counts[1..])
  {
  }

  lemma MulOne(a: int, low: int)
    ensures (a + 1) * low == a * low + low
  {
  }

  lemma {:induction false} TotalAbove(counts: seq<u32>, low: nat, s: nat)
    requires s < |counts| && low < counts[s] && forall i :: 0 <= i < |counts| ==> low <= counts[i]
    ensures |counts| * low < Total(counts)
    decreases s
  {
    var rest := counts[1..];
    TotalFirst(counts);
    if s == 0 {
      TotalAtLeast(rest, low);
    } else {
      TotalAbove(rest, low, s - 1);
    }
    MulOne(|rest|, low);
  }

  /** The spread of erase counts, whatever failed; and without failures the maximum is the least possible. */
  lemma WearSpread(counts: seq<u32>, active: nat, failures: nat)
    requires Balanced(counts, active, failures)
    ensures Max(counts) - Min(counts) <= 1 + failures
    ensures failures == 0 && counts[active] > 0 ==> Max(counts) == (Total(counts) + |counts| - 1) / |counts|
  {
    hide Max, Min, Total;
    ExtremesAre(counts);
    var m: nat := Max(counts);
    if failures == 0 && counts[active] > 0 {
      assert counts[active] == m;
      var n := |counts|;
      TotalAtMost(counts, m);
      TotalAbove(counts, m - 1, active);
      MulSub(m, 1, n);
      CeilIs(Total(counts), n, m);
    }
  }

  lemma CeilIs(total: nat, n: nat, m: nat)
    requires n > 0 && m * n - n < total <= m * n
    ensures (total + n - 1) / n == m
  {
    DivModUnique(total + n - 1, n, m, total + n - 1 - m * n);
  }

  // ---------------------------------------------------------------- recovered image

  /** The image a restart would find. */
  function Recovered(crc: Checksum, g: Geometry, b: seq<u8>, n: nat): Option<seq<u8>>
    requires SlotFits(g) && n * g.size <= |b|
  {
    match Newest(crc, g, b, n, n)
    case None => None
    case Some(slot) => Some(Image(g, Slot(g, b, n, slot)))
  }

  /** A device the leveller can be started on: its valid slots are in order below the newest. */
  predicate Mountable(crc: Checksum, g: Geometry, b: seq<u8>, n: nat)
    requires SlotFits(g) && n * g.size <= |b|
  {
    var newest := Newest(crc, g, b, n, n);
    newest.Some? ==> Ordered(crc, g, b, n, Gen(g, b, n, newest.value))
  }

  lemma TopRecovers(crc: Checksum, g: Geometry, b: seq<u8>, n: nat, top: u32, slot: nat)
    requires SlotFits(g) && n * g.size <= |b| && Ordered(crc, g, b, n, top) && TopAt(crc, g, b, n, top, slot)
    ensures Mountable(crc, g, b, n) && Newest(crc, g, b, n, n) == Some(slot)
    ensures Recovered(crc, g, b, n) == Some(Image(g, Slot(g, b, n, slot)))
  {
    hide ValidSlot, Slot, Generation, Ordered;
    NewestIsTop(crc, g, b, n, n, top, slot);
  }

  /** After a commit, however it ended, a restart finds the old image or the new one. */
  lemma CommitRecovers(crc: Checksum, g: Geometry, b: seq<u8>, b': seq<u8>, n: nat, target: nat, active: nat, top: u32,
                       erases: u32, image: seq<u8>, complete: bool)
    requires SlotFits(g) && n * g.size <= |b| == |b'| && target < n && SlotBase(g, target) + g.size <= |b|
    requires target != active
    requires |image| == g.capacity
    requires Ordered(crc, g, b, n, top) && TopAt(crc, g, b, n, top, active) && SpanOk(crc, g, b, n, top)
    requires OnlySlot(b, b', SlotBase(g, target), g.size)
    requires Outcome(g, Slot(g, b, n, target), Slot(g, b', n, target),
                     EncodeHeader(crc, Next(top), erases, g.capacity, image), image, complete)
    ensures complete ==> Ordered(crc, g, b', n, Next(top)) && TopAt(crc, g, b', n, Next(top), target)
    ensures complete ==> Image(g, Slot(g, b', n, target)) == image
    ensures Mountable(crc, g, b', n) && Recovered(crc, g, b', n).Some?
    ensures Recovered(crc, g, b', n).value in {Image(g, Slot(g, b, n, active)), image}
    ensures Slot(g, b', n, active) == Slot(g, b, n, active)
  {
    hide ValidSlot, OnlySlot, Generation, Slot, Ordered, SpanOk, EncodeHeader, Image, Outcome, Mountable, Recovered,
         SlotBase;
    CommitOutcome(crc, g, b, b', n, target, active, top, erases, image, complete);
    OtherSlotSame(g, b, b', n, target, active);
    if TopAt(crc, g, b', n, top, active) && Ordered(crc, g, b', n, top) {
      TopRecovers(crc, g, b', n, top, active);
    } else {
      TopRecovers(crc, g, b', n, Next(top), target);
    }
  }

  /** Formatting a device without valid slots, however it ends. */
  lemma FormatOutcome(crc: Checksum, g: Geometry, b: seq<u8>, b': seq<u8>, n: nat, erases: u32, complete: bool)
    requires SlotFits(g) && 0 < n && n * g.size <= |b| == |b'| && Newest(crc, g, b, n, n).None?
    requires SlotBase(g, 0) + g.size <= |b| && OnlySlot(b, b', SlotBase(g, 0), g.size)
    requires Outcome(g, Slot(g, b, n, 0), Slot(g, b', n, 0),
                     EncodeHeader(crc, 1, erases, g.capacity, Blank(g.capacity)), Blank(g.capacity), complete)
    ensures Mountable(crc, g, b', n)
    ensures complete ==>
      Ordered(crc, g, b', n, 1) && TopAt(crc, g, b', n, 1, 0) && Image(g, Slot(g, b', n, 0)) == Blank(g.capacity)
    ensures complete ==> Live(crc, g, b', n, 1, 0, 1)
    ensures Recovered(crc, g, b', n).None? || Recovered(crc, g, b', n) == Some(Blank(g.capacity))
  {
    hide ValidSlot, OnlySlot, Generation, Slot, EncodeHeader, Holds, Dead, Image, Newest, Mountable, Recovered,
         Ordered, TopAt, Live;
    UnchangedSlots(crc, g, b, b', n, 0);
    HeaderReadsBack(crc, 1, erases, g.capacity, Blank(g.capacity));
    var now := Slot(g, b', n, 0);
    forall s | 0 < s < n ensures !Valid(crc, g, b', n, s) {
      assert !Valid(crc, g, b, n, s);
    }
    if Holds(g, now, EncodeHeader(crc, 1, erases, g.capacity, Blank(g.capacity)), Blank(g.capacity)) {
      CompleteIsValid(crc, g, now, 1, erases, Blank(g.capacity));
      FirstAlone(crc, g, b', n);
    } else {
      if Dead(g, now, 0x4c) {
        DeadIsInvalid(crc, g, now);
      }
      assert !Valid(crc, g, b, n, 0) && !Valid(crc, g, b', n, 0);
      NoneValid(crc, g, b', n);
    }
  }

  /** Slot 0 alone is valid, with the first generation. */
  lemma FirstAlone(crc: Checksum, g: Geometry, b: seq<u8>, n: nat)
    requires SlotFits(g) && 0 < n && n * g.size <= |b|
    requires Valid(crc, g, b, n, 0) && Gen(g, b, n, 0) == 1 && forall s :: 0 < s < n ==> !Valid(crc, g, b, n, s)
    ensures Ordered(crc, g, b, n, 1) && TopAt(crc, g, b, n, 1, 0) && Live(crc, g, b, n, 1, 0, 1)
    ensures Mountable(crc, g, b, n) && Recovered(crc, g, b, n) == Some(Image(g, Slot(g, b, n, 0)))
  {
    hide ValidSlot, Generation, Slot, Image, Newest;
    TopRecovers(crc, g, b, n, 1, 0);
  }

  lemma NoneValid(crc: Checksum, g: Geometry, b: seq<u8>, n: nat)
    requires SlotFits(g) && 0 < n && n * g.size <= |b| && forall s :: 0 <= s < n ==> !Valid(crc, g, b, n, s)
    ensures Mountable(crc, g, b, n) && Recovered(crc, g, b, n).None?
  {
    hide ValidSlot, Generation, Slot, Image;
  }

  /** The erase count a start-up reads from a slot. */
  function HeaderErases(crc: Checksum, g: Geometry, s: seq<u8>): u32
    requires SlotFits(g) && |s| == g.size
  {
    if ValidHeader(crc, g.capacity, s[..HEADER_SIZE]) then ReadU32(s, 12) else 0
  }

  // ---------------------------------------------------------------- the leveller object

  class Leveller {
    const raw: Device
    const crc: Checksum
    const g: Geometry
    const n: nat
    const eraseCounts: array<u32>
    var workspace: seq<u8>
    var activeSlot: nat
    var generation: u32
    var failedCommits: u32
    ghost var failures: nat
    ghost var committed: seq<u8>

    predicate Ready() {
      SlotFits(g) && 2 <= n <= MAX_SLOTS && n * g.size <= raw.data.Length && eraseCounts.Length == n
    }

    ghost predicate Mounted()
      reads this, raw.data
      requires Ready()
    {
      && Ordered(crc, g, raw.data[..], n, generation) && TopAt(crc, g, raw.data[..], n, generation, activeSlot)
      && committed == Image(g, Slot(g, raw.data[..], n, activeSlot))
    }

    /** An active slot whose image is the committed one; this survives failed commits. */
    ghost predicate Open()
      reads this, raw.data
      requires Ready()
    {
      && activeSlot < n && committed == Image(g, Slot(g, raw.data[..], n, activeSlot))
      && failedCommits == failures % 0x1_0000_0000
    }

    constructor (device: Device, checksum: Checksum, geometry: Geometry, slots: nat)
      requires SlotFits(geometry) && 2 <= slots <= MAX_SLOTS && slots * geometry.size <= device.data.Length
      ensures Ready() && raw == device && crc == checksum && g == geometry && n == slots && fresh(eraseCounts)
    {
      raw, crc, g, n := device, checksum, geometry, slots;
      eraseCounts := new u32[slots](_ => 0);
      workspace, activeSlot, generation, failedCommits := [], 0, 0, 0;
      failures, committed := 0, [];
    }

    /** The least erased slot other than the active one, looking round from the active one. */
    method NextSlot() returns (selected: nat)
      requires eraseCounts.Length == n && n >= 2 && activeSlot < n
      ensures LeastErased(eraseCounts[..], activeSlot, selected)
      ensures FirstAround(eraseCounts[..], activeSlot, selected)
    {
      hide Around;
      AroundFirst(activeSlot, n);
      selected := Around(activeSlot, 1, n);
      var minimum: u32 := U32_MAX;
      ghost var found := 1;
      var step := 1;
      while step <= n
        invariant 1 <= step <= n + 1 && 1 <= found <= n && (found < step || found == 1)
        invariant selected == Around(activeSlot, found, n)
        invariant forall j :: 1 <= j < found && Around(activeSlot, j, n) != activeSlot ==>
          eraseCounts[Around(activeSlot, j, n)] > eraseCounts[selected]
        invariant selected < n && selected != activeSlot && minimum <= U32_MAX
        invariant minimum < U32_MAX ==> eraseCounts[selected] == minimum
        invariant forall k :: 1 <= k < step && Around(activeSlot, k, n) != activeSlot ==>
          minimum <= eraseCounts[Around(activeSlot, k, n)]
      {
        var slot := Around(activeSlot, step, n);
        if slot != activeSlot && eraseCounts[slot] < minimum {
          minimum := eraseCounts[slot];
          selected := slot;
          found := step;
        }
        step := step + 1;
      }
      forall k | 1 <= k <= n && Around(activeSlot, k, n) == selected ensures k == found {
        AroundOnce(activeSlot, k, found, n);
      }
      forall s | 0 <= s < n && s != activeSlot ensures minimum <= eraseCounts[s] {
        var k := AroundReaches(activeSlot, s, n);
      }
    }

    /** Reads a slot: is its header valid, is the slot committed and intact? */
    method CheckSlot(slot: nat) returns (status: Status, valid: bool, gen: u32, erases: u32)
      requires Ready() && slot < n
      modifies this`workspace, raw`operationCount
      ensures old(raw.Quiet()) ==> raw.Quiet() && status == Ok
      ensures status == Ok ==> (valid <==> Valid(crc, g, raw.data[..], n, slot))
      ensures status == Ok ==> erases == HeaderErases(crc, g, Slot(g, raw.data[..], n, slot))
      ensures status == Ok && valid ==> gen == Gen(g, raw.data[..], n, slot)
    {
      hide ReadU32, Region;
      valid, gen, erases := false, 0, 0;
      SlotInside(slot, n, g.size);
      var offset := slot * g.size;
      ghost var s := Slot(g, raw.data[..], n, slot);
      var header, marker;
      status, header := ReadSlot(raw, offset, g.size, 0, HEADER_SIZE);
      if status != Ok {
        return;
      }
      assert header == s[..HEADER_SIZE];
      if !ValidHeader(crc, g.capacity, header) {
        return;
      }
      HeaderWords(header, s);
      erases := ReadU32(header, 12);
      status, marker := ReadSlot(raw, offset, g.size, g.commit, 1);
      if status != Ok {
        return;
      }
      assert marker[0] == s[g.commit..g.commit + 1][0];
      if marker[0] != COMMITTED {
        return;
      }
      status, workspace := ReadSlot(raw, offset, g.size, g.payload, g.capacity);
      if status != Ok {
        return;
      }
      gen := ReadU32(header, 8);
      valid := ReadU32(header, 20) == crc(workspace);
    }

    /** Erases a slot and writes the workspace image to it with the given generation. */
    method Commit(slot: nat, gen: u32) returns (status: Status)
      requires Ready() && slot < n && |workspace| == g.capacity && SlotBase(g, slot) + g.size <= raw.data.Length
      modifies this`activeSlot, this`generation, this`failedCommits, this`failures, eraseCounts, raw`operationCount,
               raw.data
      ensures old(raw.Quiet()) ==> raw.Quiet()
      ensures OnlySlot(old(raw.data[..]), raw.data[..], SlotBase(g, slot), g.size)
      ensures Outcome(g, old(Region(raw.data[..], SlotBase(g, slot), g.size)),
                      Region(raw.data[..], SlotBase(g, slot), g.size),
                      EncodeHeader(crc, gen, Next(old(eraseCounts[slot])), g.capacity, workspace), workspace,
                      status == Ok)
      ensures eraseCounts[..] == old(eraseCounts[..])
           || (old(eraseCounts[slot]) < U32_MAX
               && eraseCounts[..] == old(eraseCounts[..])[slot := old(eraseCounts[slot]) + 1])
      ensures status == Ok ==>
        && old(eraseCounts[slot]) < U32_MAX
        && eraseCounts[..] == old(eraseCounts[..])[slot := old(eraseCounts[slot]) + 1]
      ensures status == Ok ==>
        activeSlot == slot && generation == gen && failures == old(failures) && failedCommits == old(failedCommits)
      ensures status != Ok ==> activeSlot == old(activeSlot) && generation == old(generation)
      ensures status != Ok ==> failures == old(failures) + 1 && failedCommits == Next(old(failedCommits))
      ensures old(failedCommits == failures % 0x1_0000_0000) ==> failedCommits == failures % 0x1_0000_0000
      ensures old(raw.Quiet()) && old(eraseCounts[slot]) < U32_MAX && WholeUnits(raw, SlotBase(g, slot), g.size) ==>
        status == Ok
      ensures old(eraseCounts[slot]) == U32_MAX ==> status == Eoverflow && raw.data[..] == old(raw.data[..])
      ensures (old(eraseCounts[slot]) < U32_MAX && raw.Unit() == 1 && g.capacity > 0
               && raw.failOperation == old(raw.operationCount) + 6) ==>
        && status != Ok && eraseCounts[..] == old(eraseCounts[..])[slot := old(eraseCounts[slot]) + 1]
        && Holds(g, Region(raw.data[..], SlotBase(g, slot), g.size),
                 EncodeHeader(crc, gen, Next(old(eraseCounts[slot])), g.capacity, workspace), workspace)
    {
      hide OnlySlot, WholeUnits, Region, EncodeHeader, Holds, SlotBase, Outcome, ValidHeader;
      ghost var b0 := raw.data[..];
      var base := SlotBase(g, slot);
      HeaderReadsBack(crc, gen, Next(eraseCounts[slot]), g.capacity, workspace);
      var header := EncodeHeader(crc, gen, Next(eraseCounts[slot]), g.capacity, workspace);
      SameSlot(b0, base, g.size);
      status := Eoverflow;
      if eraseCounts[slot] < U32_MAX {
        status := EraseSlot(raw, base, g);
        if status == Ok {
          ghost var b1 := raw.data[..];
          eraseCounts[slot] := eraseCounts[slot] + 1;
          status := FillSlot(raw, base, g, header, workspace);
          OnlySlotTransitive(b0, b1, raw.data[..], base, g.size);
        }
      }
      OutcomeCases(g, Region(b0, base, g.size), Region(raw.data[..], base, g.size), header, workspace, status == Ok);
      if status == Ok {
        activeSlot, generation := slot, gen;
      } else {
        CountFailure();
      }
    }

    /** Mounts the newest valid slot, or formats the device when there is none. */
    method Init() returns (status: Status)
      requires Ready()
      modifies this, eraseCounts, raw`operationCount, raw.data
      ensures old(raw.Quiet()) ==> raw.Quiet()
      ensures status == Ok ==> Open() && failures == 0
      ensures old(Mountable(crc, g, raw.data[..], n)) ==>
        Mountable(crc, g, raw.data[..], n) && (status == Ok ==> Mounted())
      ensures old(Recovered(crc, g, raw.data[..], n)).Some? ==>
        && raw.data[..] == old(raw.data[..])
        && (status == Ok ==> committed == old(Recovered(crc, g, raw.data[..], n)).value)
      ensures old(Recovered(crc, g, raw.data[..], n)).None? ==>
        && (Recovered(crc, g, raw.data[..], n).None? || Recovered(crc, g, raw.data[..], n) == Some(Blank(g.capacity)))
        && (status == Ok ==> committed == Blank(g.capacity) && Formatted(old(raw.data[..])))
      ensures status == Ok && old(Recovered(crc, g, raw.data[..], n)).Some? ==> Counted(old(raw.data[..]))
      ensures old(raw.Quiet()) && (old(Recovered(crc, g, raw.data[..], n)).Some? || (AllWhole() && !old(WornOut()))) ==>
        status == Ok
      ensures old(WornOut()) ==> raw.data[..] == old(raw.data[..])
    {
      hide ValidSlot, Slot, Generation, Image, Ordered, OnlySlot, EncodeHeader, Outcome, HeaderErases, Holds,
           WholeUnits, SlotBase, Live, Attempted;
      ghost var b := raw.data[..];
      var found;
      failures, failedCommits := 0, 0;
      status, found := Scan();
      if status != Ok {
        return;
      }
      if found {
        committed := Recovered(crc, g, b, n).value;
        return;
      }
      status := Format();
    }

    /** Writes a blank image to slot 0 of a device without valid slots. */
    method Format() returns (status: Status)
      requires Ready() && Newest(crc, g, raw.data[..], n, n).None? && Counted(raw.data[..])
      requires failures == 0 == failedCommits
      modifies this, eraseCounts, raw`operationCount, raw.data
      ensures old(raw.Quiet()) ==> raw.Quiet()
      ensures Mountable(crc, g, raw.data[..], n)
      ensures Recovered(crc, g, raw.data[..], n).None? || Recovered(crc, g, raw.data[..], n) == Some(Blank(g.capacity))
      ensures status == Ok ==>
        Open() && Mounted() && failures == 0 && committed == Blank(g.capacity) && Formatted(old(raw.data[..]))
      ensures old(raw.Quiet()) && AllWhole() && !old(WornOut()) ==> status == Ok
      ensures old(WornOut()) ==> raw.data[..] == old(raw.data[..])
    {
      hide ValidSlot, Slot, Generation, Image, Ordered, OnlySlot, EncodeHeader, Outcome, HeaderErases, Holds,
           WholeUnits, SlotBase, Mountable, Recovered, Newest, Attempted, Live, TopAt;
      ghost var b, counts := raw.data[..], eraseCounts[..];
      workspace := Blank(g.capacity);
      SlotIsRegion(g, b, n, 0);
      assert AllWhole() ==> WholeUnits(raw, SlotBase(g, 0), g.size);
      status := Commit(0, 1);
      SlotIsRegion(g, raw.data[..], n, 0);
      FormatOutcome(crc, g, b, raw.data[..], n, Next(counts[0]), status == Ok);
      if status == Ok {
        committed := Blank(g.capacity);
        AttemptedIs(crc, g, b, raw.data[..], n, 0, 1, Next(counts[0]), Blank(g.capacity), true);
      }
    }

    /** The erase counts are those found on the device. */
    ghost predicate Counted(b: seq<u8>)
      reads eraseCounts
      requires Ready() && n * g.size <= |b|
    {
      forall s :: 0 <= s < n ==> eraseCounts[s] == HeaderErases(crc, g, Slot(g, b, n, s))
    }

    /** Slot 0 was formatted, with one more erase than found there. */
    ghost predicate Formatted(b: seq<u8>)
      reads this, eraseCounts, raw.data
      requires Ready() && n * g.size <= |b| == raw.data.Length
    {
      var erases := HeaderErases(crc, g, Slot(g, b, n, 0));
      && erases < U32_MAX && activeSlot == 0 && generation == 1 && eraseCounts[0] == erases + 1
      && (forall s :: 0 < s < n ==> eraseCounts[s] == HeaderErases(crc, g, Slot(g, b, n, s)))
      && Attempted(crc, g, b, raw.data[..], n, 0, 1, erases + 1, Blank(g.capacity), true)
      && Live(crc, g, raw.data[..], n, 1, 0, 1)
    }

    /** The erase counter of the slot to be formatted is used up. */
    ghost predicate WornOut()
      reads raw.data
      requires Ready()
    {
      HeaderErases(crc, g, Slot(g, raw.data[..], n, 0)) == U32_MAX
    }

    /** Every slot ends on a write unit of the device. */
    predicate AllWhole()
      requires Ready()
    {
      forall s :: 0 <= s < n ==> WholeUnits(raw, SlotBase(g, s), g.size)
    }

    /** No slot of the device carries an erase count yet. */
    ghost predicate Unworn()
      reads raw.data
      requires Ready()
    {
      forall s :: 0 <= s < n ==> HeaderErases(crc, g, Slot(g, raw.data[..], n, s)) == 0
    }

    /** Looks at every slot: erase counts, and the newest valid one. */
    method Scan() returns (status: Status, found: bool)
      requires Ready()
      modifies this`workspace, this`activeSlot, this`generation, eraseCounts, raw`operationCount
      ensures old(raw.Quiet()) ==> raw.Quiet() && status == Ok
      ensures status == Ok ==> (found <==> Newest(crc, g, raw.data[..], n, n).Some?)
      ensures status == Ok && found ==>
        Newest(crc, g, raw.data[..], n, n) == Some(activeSlot) && generation == Gen(g, raw.data[..], n, activeSlot)
      ensures status == Ok ==> Counted(raw.data[..])
      ensures raw.data[..] == old(raw.data[..])
    {
      hide ValidSlot, Slot, Generation, Image, HeaderErases;
      found := false;
      status := Ok;
      var slot := 0;
      while slot < n
        invariant 0 <= slot <= n && status == Ok && (old(raw.Quiet()) ==> raw.Quiet())
        invariant raw.data[..] == old(raw.data[..])
        invariant found <==> Newest(crc, g, raw.data[..], n, slot).Some?
        invariant found ==>
          Newest(crc, g, raw.data[..], n, slot) == Some(activeSlot) && generation == Gen(g, raw.data[..], n, activeSlot)
        invariant forall s :: 0 <= s < slot ==> eraseCounts[s] == HeaderErases(crc, g, Slot(g, raw.data[..], n, s))
      {
        var valid, gen, erases;
        status, valid, gen, erases := CheckSlot(slot);
        if status != Ok {
          return;
        }
        eraseCounts[slot] := erases;
        if valid && (!found || Newer(gen, generation)) {
          found, activeSlot, generation := true, slot, gen;
        }
        slot := slot + 1;
      }
    }

    /**
     Copies the active image, applies the change, and commits it to the least erased inactive slot. Any number of failed
     commits may have gone before: the erase counts stay balanced, and the active image is kept or replaced whole.
     */
    method Update(change: Change) returns (status: Status, tried: bool, ghost target: nat)
      requires Ready() && Open()
      modifies this, eraseCounts, raw`operationCount, raw.data
      ensures old(raw.Quiet()) ==> raw.Quiet()
      ensures Open() && (status == Ok ==> tried)
      ensures !tried ==> raw.data[..] == old(raw.data[..]) && eraseCounts[..] == old(eraseCounts[..])
      ensures tried ==>
        InRange(g.capacity, change) && LeastErased(old(eraseCounts[..]), old(activeSlot), target) && target < n
      ensures tried ==> FirstAround(old(eraseCounts[..]), old(activeSlot), target)
      ensures tried ==>
        Attempted(crc, g, old(raw.data[..]), raw.data[..], n, target, Next(old(generation)),
                  Next(old(eraseCounts[..])[target]), Apply(old(committed), change), status == Ok)
      ensures status == Ok ==>
        committed == Apply(old(committed), change) && activeSlot == target && generation == Next(old(generation))
      ensures status == Ok ==>
        && old(eraseCounts[..])[target] < U32_MAX
        && eraseCounts[..] == old(eraseCounts[..])[target := old(eraseCounts[..])[target] + 1]
      ensures status != Ok ==>
        committed == old(committed) && activeSlot == old(activeSlot) && generation == old(generation)
      ensures old(Balanced(eraseCounts[..], activeSlot, failures)) ==> Balanced(eraseCounts[..], activeSlot, failures)
      ensures old(eraseCounts[activeSlot]) > 0 ==> eraseCounts[activeSlot] > 0
      ensures failures == old(failures) + (if status != Ok && tried then 1 else 0)
      ensures tried && !old(Endures(eraseCounts[..], activeSlot)) ==>
        status == Eoverflow && raw.data[..] == old(raw.data[..]) && eraseCounts[..] == old(eraseCounts[..])
      ensures old(raw.Quiet()) ==> (tried <==> InRange(g.capacity, change))
      ensures !InRange(g.capacity, change) ==> status == Einval && !tried
      ensures (old(raw.Quiet()) && InRange(g.capacity, change) && old(Endures(eraseCounts[..], activeSlot))
               && AllWhole()) ==> status == Ok
      ensures (InRange(g.capacity, change) && old(Endures(eraseCounts[..], activeSlot)) && raw.Unit() == 1
               && g.capacity > 0 && raw.failOperation == old(raw.operationCount) + 7) ==>
        && tried && status != Ok
        && Landed(old(eraseCounts[..]), target, Next(old(generation)), Apply(old(committed), change))
    {
      hide ValidSlot, Slot, Generation, Image, Ordered, OnlySlot, EncodeHeader, Outcome, Balanced, LeastErased,
           WholeUnits, SlotBase, Endures, Holds, Around, Region, FirstAround, Attempted, Landed, Apply, InRange,
           SlotFits;
      tried, target := false, 0;
      status := Load(change);
      if status != Ok {
        return;
      }
      tried := true;
      status, target := CommitNext();
    }

    /** Reads the active image into the workspace and applies the change there. */
    method Load(change: Change) returns (status: Status)
      requires Ready() && Open()
      modifies this`workspace, raw`operationCount
      ensures old(raw.Quiet()) ==> raw.Quiet() && (status == Ok <==> InRange(g.capacity, change))
      ensures status == Ok ==>
        InRange(g.capacity, change) && |committed| == g.capacity && workspace == Apply(committed, change)
      ensures !InRange(g.capacity, change) ==> status == Einval
      ensures InRange(g.capacity, change) ==>
        raw.operationCount == old(raw.operationCount) + 1 && (status == Ok <==> !raw.Failing())
    {
      hide Image, Slot;
      if !InRange(g.capacity, change) {
        return Einval;
      }
      SlotIsRegion(g, raw.data[..], n, activeSlot);
      ImageIs(g, raw.data[..], n, activeSlot);
      var image;
      status, image := ReadSlot(raw, SlotBase(g, activeSlot), g.size, g.payload, g.capacity);
      if status == Ok {
        workspace := Apply(image, change);
      }
    }

    /** Commits the workspace to the least erased inactive slot. */
    method CommitNext() returns (status: Status, ghost target: nat)
      requires Ready() && Open() && |workspace| == g.capacity
      modifies this`activeSlot, this`generation, this`failedCommits, this`failures, this`committed, eraseCounts,
               raw`operationCount, raw.data
      ensures old(raw.Quiet()) ==> raw.Quiet()
      ensures Open() && LeastErased(old(eraseCounts[..]), old(activeSlot), target) && target < n
      ensures FirstAround(old(eraseCounts[..]), old(activeSlot), target)
      ensures Attempted(crc, g, old(raw.data[..]), raw.data[..], n, target, Next(old(generation)),
                        Next(old(eraseCounts[..])[target]), workspace, status == Ok)
      ensures status == Ok ==> committed == workspace && activeSlot == target && generation == Next(old(generation))
      ensures status == Ok ==>
        && old(eraseCounts[..])[target] < U32_MAX
        && eraseCounts[..] == old(eraseCounts[..])[target := old(eraseCounts[..])[target] + 1]
      ensures status != Ok ==>
        committed == old(committed) && activeSlot == old(activeSlot) && generation == old(generation)
      ensures old(Balanced(eraseCounts[..], activeSlot, failures)) ==> Balanced(eraseCounts[..], activeSlot, failures)
      ensures old(eraseCounts[activeSlot]) > 0 ==> eraseCounts[activeSlot] > 0
      ensures failures == old(failures) + (if status != Ok then 1 else 0)
      ensures !old(Endures(eraseCounts[..], activeSlot)) ==>
        status == Eoverflow && raw.data[..] == old(raw.data[..]) && eraseCounts[..] == old(eraseCounts[..])
      ensures old(raw.Quiet()) && old(Endures(eraseCounts[..], activeSlot)) && AllWhole() ==> status == Ok
      ensures (old(Endures(eraseCounts[..], activeSlot)) && raw.Unit() == 1 && g.capacity > 0
               && raw.failOperation == old(raw.operationCount) + 6) ==>
        status != Ok && Landed(old(eraseCounts[..]), target, Next(old(generation)), workspace)
    {
      hide ValidSlot, Slot, Generation, Image, Ordered, OnlySlot, EncodeHeader, Outcome, Balanced, LeastErased,
           WholeUnits, SlotBase, Endures, Holds, Around, Region, FirstAround, Attempted, Landed;
      ghost var b := raw.data[..];
      ghost var active, counts := activeSlot, eraseCounts[..];
      var slot := NextSlot();
      target := slot;
      TargetIs(counts, active, slot);
      SlotIsRegion(g, b, n, slot);
      assert AllWhole() ==> WholeUnits(raw, SlotBase(g, slot), g.size);
      status := Commit(slot, Next(generation));
      SlotIsRegion(g, raw.data[..], n, slot);
      OtherSlotSame(g, b, raw.data[..], n, slot, active);
      if status == Ok {
        committed := workspace;
        HoldsImage(g, Slot(g, raw.data[..], n, slot),
                   EncodeHeader(crc, generation, Next(counts[slot]), g.capacity, workspace), workspace,
                   Slot(g, b, n, slot));
      }
      BalanceStep(counts, active, old(failures), slot, eraseCounts[..], status == Ok);
      AttemptedIs(crc, g, b, raw.data[..], n, slot, Next(old(generation)), Next(counts[slot]), workspace, status == Ok);
      if counts[slot] < U32_MAX && eraseCounts[..] == counts[slot := counts[slot] + 1] {
        LandedIs(this, counts, slot, Next(old(generation)), workspace);
      }
    }

    /**
     The slot holds the image with the generation and is counted as erased, although the commit was reported as failed.
     */
    ghost predicate Landed(counts: seq<u32>, target: nat, gen: u32, image: seq<u8>)
      reads this, eraseCounts, raw.data
      requires Ready() && |counts| == n
    {
      && target < n && counts[target] < U32_MAX && eraseCounts[..] == counts[target := counts[target] + 1]
      && |image| == g.capacity
      && Holds(g, Slot(g, raw.data[..], n, target), EncodeHeader(crc, gen, Next(counts[target]), g.capacity, image),
               image)
    }

    /** Reads from the committed image. */
    method Read(offset: nat, length: nat) returns (status: Status, bytes: seq<u8>)
      requires Ready() && Open()
      modifies raw`operationCount
      ensures status == Ok ==> offset + length <= |committed| && bytes == committed[offset..offset + length]
      ensures old(raw.Quiet()) && offset + length <= g.capacity ==> status == Ok
    {
      hide ValidSlot, Generation, Ordered, Region, Slot, Image;
      if offset + length > g.capacity {
        return Einval, [];
      }
      SlotInside(activeSlot, n, g.size);
      SlotIsRegion(g, raw.data[..], n, activeSlot);
      ImageIs(g, raw.data[..], n, activeSlot);
      status, bytes := ReadSlot(raw, SlotBase(g, activeSlot), g.size, g.payload + offset, length);
      SliceOfSlice(Slot(g, raw.data[..], n, activeSlot), g.payload, g.capacity, offset, length);
    }

    method CountFailure()
      modifies this`failedCommits, this`failures
      ensures failures == old(failures) + 1 && failedCommits == Next(old(failedCommits))
      ensures old(failedCommits == failures % 0x1_0000_0000) ==> failedCommits == failures % 0x1_0000_0000
    {
      failedCommits := Next(failedCommits);
      failures := failures + 1;
    }
  }

  lemma HeaderWords(header: seq<u8>, s: seq<u8>)
    requires HEADER_SIZE <= |s| && header == s[..HEADER_SIZE]
    ensures ReadU32(header, 8) == ReadU32(s, 8) && ReadU32(header, 12) == ReadU32(s, 12)
    ensures ReadU32(header, 20) == ReadU32(s, 20)
  {
    SliceOfSlice(s, 0, HEADER_SIZE, 8, 4);
    SliceOfSlice(s, 0, HEADER_SIZE, 12, 4);
    SliceOfSlice(s, 0, HEADER_SIZE, 20, 4);
    ReadU32Same(header, 8, s, 8);
    ReadU32Same(header, 12, s, 12);
    ReadU32Same(header, 20, s, 20);
  }

  lemma SlotIsRegion(g: Geometry, b: seq<u8>, n: nat, slot: nat)
    requires SlotFits(g) && n * g.size <= |b| && slot < n
    ensures SlotBase(g, slot) + g.size <= |b| && Slot(g, b, n, slot) == Region(b, SlotBase(g, slot), g.size)
  {
    SlotInside(slot, n, g.size);
  }

  lemma ImageIs(g: Geometry, b: seq<u8>, n: nat, slot: nat)
    requires SlotFits(g) && n * g.size <= |b| && slot < n
    ensures Image(g, Slot(g, b, n, slot)) == Slot(g, b, n, slot)[g.payload..g.payload + g.capacity]
  {
  }

  lemma AttemptedIs(crc: Checksum, g: Geometry, b: seq<u8>, b': seq<u8>, n: nat, target: nat, generation: u32,
                    erases: u32, image: seq<u8>, complete: bool)
    requires SlotFits(g) && n * g.size <= |b| == |b'| && target < n && |image| == g.capacity
    requires SlotBase(g, target) + g.size <= |b| && OnlySlot(b, b', SlotBase(g, target), g.size)
    requires Outcome(g, Slot(g, b, n, target), Slot(g, b', n, target),
                     EncodeHeader(crc, generation, erases, g.capacity, image), image, complete)
    ensures Attempted(crc, g, b, b', n, target, generation, erases, image, complete)
  {
  }

  lemma LandedIs(w: Leveller, counts: seq<u32>, target: nat, gen: u32, image: seq<u8>)
    requires w.Ready() && |counts| == w.n && target < w.n && |image| == w.g.capacity
    requires counts[target] < U32_MAX && w.eraseCounts[..] == counts[target := counts[target] + 1]
    ensures w.Landed(counts, target, gen, image) <==>
      Holds(w.g, Slot(w.g, w.raw.data[..], w.n, target),
            EncodeHeader(w.crc, gen, Next(counts[target]), w.g.capacity, image), image)
  {
    hide Holds, Slot, EncodeHeader;
  }

  lemma HoldsImage(g: Geometry, s: seq<u8>, header: seq<u8>, image: seq<u8>, was: seq<u8>)
    requires SlotFits(g) && |s| == |was| == g.size && |header| == g.header && |image| == g.capacity
    requires Outcome(g, was, s, header, image, true)
    ensures Image(g, s) == image
  {
  }

  lemma TargetIs(counts: seq<u32>, active: nat, target: nat)
    requires LeastErased(counts, active, target)
    ensures target < |counts| && target != active
    ensures Endures(counts, active) <==> counts[target] < U32_MAX
  {
  }

  /** Some slot other than the active one has erase cycles left to count. */
  predicate Endures(counts: seq<u32>, active: nat) {
    exists s :: 0 <= s < |counts| && s != active && counts[s] < U32_MAX
  }

  lemma SameSlot(b: seq<u8>, base: nat, size: nat)
    requires base + size <= |b|
    ensures OnlySlot(b, b, base, size)
  {
  }

  /** The slot k steps after the active one. */
  function Around(active: nat, k: nat, n: nat): (slot: nat)
    requires n > 0
    ensures slot < n
  {
    (active + k) % n
  }

  lemma AroundFirst(active: nat, n: nat)
    requires active < n && n >= 2
    ensures Around(active, 1, n) != active
  {
    DivModUnique(active + 1, n, if active + 1 == n then 1 else 0, if active + 1 == n then 0 else active + 1);
  }

  lemma AroundOnce(active: nat, j: nat, k: nat, n: nat)
    requires 1 <= j <= n && 1 <= k <= n && Around(active, j, n) == Around(active, k, n)
    ensures j == k
  {
    var p, q := (active + j) / n, (active + k) / n;
    assert active + j == p * n + Around(active, j, n) && active + k == q * n + Around(active, k, n);
    MulSub(p, q, n);
    if p > q {
      MulMono(1, p - q, n);
    } else if q > p {
      MulMono(1, q - p, n);
      MulSub(q, p, n);
    }
  }

  lemma AroundReaches(active: nat, slot: nat, n: nat) returns (k: nat)
    requires active < n && slot < n && slot != active
    ensures 1 <= k <= n && Around(active, k, n) == slot
  {
    k := if slot > active then slot - active else slot + n - active;
    DivModUnique(active + k, n, if slot > active then 0 else 1, slot);
  }
}
