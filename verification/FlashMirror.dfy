/**
 The two-bank flash mirror. Updates go to the bank that is not active; recovery takes the newest valid bank,
 comparing 32-bit generations with wrap-around.
 */
module FlashMirror {
  import opened Bits
  import opened Words
  import opened Storage
  import opened SlotCommit
  import opened AtomicStore

  const MAGIC: u32 := 0x464d534c
  const VERSION: u32 := 2
  const HEADER_SIZE: nat := 24

  // ---------------------------------------------------------------- bank contents

  function HeaderPrefix(crc: Checksum, generation: u32, capacity: u32, image: seq<u8>): (h: seq<u8>)
    ensures |h| == 20
  {
    U32Bytes(MAGIC) + U32Bytes(VERSION) + U32Bytes(generation) + U32Bytes(capacity) + U32Bytes(crc(image))
  }

  function EncodeHeader(crc: Checksum, generation: u32, capacity: u32, image: seq<u8>): (h: seq<u8>)
    ensures |h| == HEADER_SIZE
  {
    var prefix := HeaderPrefix(crc, generation, capacity, image);
    prefix + U32Bytes(crc(prefix))
  }

  predicate ValidHeader(crc: Checksum, capacity: nat, h: seq<u8>)
    requires |h| == HEADER_SIZE
  {
    ReadU32(h, 0) == MAGIC && ReadU32(h, 4) == VERSION && ReadU32(h, 12) == capacity && ReadU32(h, 20) == crc(h[..20])
  }

  predicate BankFits(g: Geometry) {
    Fits(g) && g.header == HEADER_SIZE && g.capacity <= U32_MAX
  }

  function Image(g: Geometry, s: seq<u8>): (image: seq<u8>)
    requires BankFits(g) && |s| == g.size
    ensures |image| == g.capacity
  {
    s[g.payload..g.payload + g.capacity]
  }

  function Generation(g: Geometry, s: seq<u8>): u32
    requires BankFits(g) && |s| == g.size
  {
    ReadU32(s, 8)
  }

  predicate ValidBank(crc: Checksum, g: Geometry, s: seq<u8>)
    requires BankFits(g) && |s| == g.size
  {
    && ValidHeader(crc, g.capacity, s[..HEADER_SIZE])
    && s[g.commit] == COMMITTED
    && ReadU32(s, 16) == crc(Image(g, s))
  }

  lemma HeaderReadsBack(crc: Checksum, generation: u32, capacity: u32, image: seq<u8>)
    ensures var h := EncodeHeader(crc, generation, capacity, image);
      && ValidHeader(crc, capacity, h) && ReadU32(h, 8) == generation && ReadU32(h, 16) == crc(image) && h[0] == 0x4c
  {
    var p := HeaderPrefix(crc, generation, capacity, image);
    var h := EncodeHeader(crc, generation, capacity, image);
    assert h[..20] == p;
    ReadU32Same(h, 0, U32Bytes(MAGIC), 0);
    ReadU32Same(h, 4, U32Bytes(VERSION), 0);
    ReadU32Same(h, 8, U32Bytes(generation), 0);
    ReadU32Same(h, 12, U32Bytes(capacity), 0);
    ReadU32Same(h, 16, U32Bytes(crc(image)), 0);
    ReadU32Same(h, 20, U32Bytes(crc(p)), 0);
    assert h[0] == U32Bytes(MAGIC)[0];
  }

  /** A complete slot is a valid bank with exactly the generation and image written. */
  lemma CompleteIsValid(crc: Checksum, g: Geometry, s: seq<u8>, generation: u32, image: seq<u8>)
    requires BankFits(g) && |s| == g.size && |image| == g.capacity
    requires Holds(g, s, EncodeHeader(crc, generation, g.capacity, image), image)
    ensures ValidBank(crc, g, s) && Generation(g, s) == generation && Image(g, s) == image
  {
    var h := EncodeHeader(crc, generation, g.capacity, image);
    HeaderReadsBack(crc, generation, g.capacity, image);
    ReadU32Same(s, 8, h, 8);
    ReadU32Same(s, 16, h, 16);
  }

  /** A bank is valid exactly if it is the complete bank of its own generation and image: nothing else is accepted. */
  lemma ValidIff(crc: Checksum, g: Geometry, s: seq<u8>)
    requires BankFits(g) && |s| == g.size
    ensures ValidBank(crc, g, s) <==>
      Holds(g, s, EncodeHeader(crc, Generation(g, s), g.capacity, Image(g, s)), Image(g, s))
  {
    hide ReadU32, U32Bytes;
    if ValidBank(crc, g, s) {
      var h := s[..HEADER_SIZE];
      HeaderWords(h, s);
      BytesOfRead(h, 0);
      BytesOfRead(h, 4);
      BytesOfRead(h, 8);
      BytesOfRead(h, 12);
      BytesOfRead(h, 16);
      BytesOfRead(h, 20);
      assert h[..20] == h[0..4] + h[4..8] + h[8..12] + h[12..16] + h[16..20];
      assert h == h[..20] + h[20..24];
    } else if Holds(g, s, EncodeHeader(crc, Generation(g, s), g.capacity, Image(g, s)), Image(g, s)) {
      CompleteIsValid(crc, g, s, Generation(g, s), Image(g, s));
    }
  }

  /** A slot without its first magic byte or its commit byte is no valid bank, whatever the checksums say. */
  lemma DeadIsInvalid(crc: Checksum, g: Geometry, s: seq<u8>)
    requires BankFits(g) && |s| == g.size && Dead(g, s, 0x4c)
    ensures !ValidBank(crc, g, s)
  {
    assert s[0] == s[..HEADER_SIZE][0];
  }

  // ---------------------------------------------------------------- recovery

  function BankOffset(g: Geometry, bank: nat): nat
    requires bank < 2
  {
    if bank == 0 then 0 else g.size
  }

  function Bank(g: Geometry, b: seq<u8>, bank: nat): (s: seq<u8>)
    requires BankFits(g) && 2 * g.size <= |b| && bank < 2
    ensures |s| == g.size
  {
    Region(b, BankOffset(g, bank), g.size)
  }

  predicate Valid(crc: Checksum, g: Geometry, b: seq<u8>, bank: nat)
    requires BankFits(g) && 2 * g.size <= |b| && bank < 2
  {
    ValidBank(crc, g, Bank(g, b, bank))
  }

  /** The bank that initialisation makes active, if any is valid. */
  function Recover(crc: Checksum, g: Geometry, b: seq<u8>): (bank: Option<nat>)
    requires BankFits(g) && 2 * g.size <= |b|
    ensures bank.Some? ==> bank.value < 2 && Valid(crc, g, b, bank.value)
    ensures bank.None? ==> !Valid(crc, g, b, 0) && !Valid(crc, g, b, 1)
  {
    var first, second := Valid(crc, g, b, 0), Valid(crc, g, b, 1);
    if second && (!first || Newer(Generation(g, Bank(g, b, 1)), Generation(g, Bank(g, b, 0)))) then Some(1)
    else if first then Some(0)
    else None
  }

  /** The image a restart would find. */
  function Recovered(crc: Checksum, g: Geometry, b: seq<u8>): Option<seq<u8>>
    requires BankFits(g) && 2 * g.size <= |b|
  {
    match Recover(crc, g, b)
    case None => None
    case Some(bank) => Some(Image(g, Bank(g, b, bank)))
  }

  /** Two valid banks are always exactly one generation apart, even across the 32-bit wrap. */
  predicate Consistent(crc: Checksum, g: Geometry, b: seq<u8>)
    requires BankFits(g) && 2 * g.size <= |b|
  {
    Valid(crc, g, b, 0) && Valid(crc, g, b, 1) ==>
      var first, second := Generation(g, Bank(g, b, 0)), Generation(g, Bank(g, b, 1));
      second == Next(first) || first == Next(second)
  }

  /**
   The invariant of a mounted session: the active bank holds the last committed image; the other one is
   invalid, one generation older, or one generation newer with the image of an update that was cut short.
   */
  ghost predicate Session(crc: Checksum, g: Geometry, b: seq<u8>, active: nat, generation: u32, committed: seq<u8>,
                          attempts: set<seq<u8>>)
    requires BankFits(g) && 2 * g.size <= |b|
  {
    && active < 2 && Valid(crc, g, b, active)
    && Generation(g, Bank(g, b, active)) == generation && Image(g, Bank(g, b, active)) == committed
    && (Valid(crc, g, b, 1 - active) ==>
          var other := Bank(g, b, 1 - active);
          || generation == Next(Generation(g, other))
          || (Generation(g, other) == Next(generation) && Image(g, other) in attempts))
  }

  /** Recovery from any session state finds the committed image or the image of an update cut short since. */
  lemma SessionRecovers(crc: Checksum, g: Geometry, b: seq<u8>, active: nat, generation: u32, committed: seq<u8>,
                        attempts: set<seq<u8>>)
    requires BankFits(g) && 2 * g.size <= |b| && Session(crc, g, b, active, generation, committed, attempts)
    ensures Consistent(crc, g, b) && Recovered(crc, g, b).Some?
    ensures Recovered(crc, g, b).value == committed || Recovered(crc, g, b).value in attempts
  {
    hide ValidBank, Image, Generation, Bank;
    NewerNext(Generation(g, Bank(g, b, 0)));
    NewerNext(Generation(g, Bank(g, b, 1)));
  }

  /** Initialisation starts a session on whatever it recovers. */
  lemma RecoverStartsSession(crc: Checksum, g: Geometry, b: seq<u8>)
    requires BankFits(g) && 2 * g.size <= |b| && Consistent(crc, g, b) && Recover(crc, g, b).Some?
    ensures var bank := Recover(crc, g, b).value;
      Session(crc, g, b, bank, Generation(g, Bank(g, b, bank)), Image(g, Bank(g, b, bank)), {})
  {
    hide ValidBank, Image, Generation, Bank;
    NewerNext(Generation(g, Bank(g, b, 0)));
    NewerNext(Generation(g, Bank(g, b, 1)));
  }

  lemma OtherBankSame(g: Geometry, b: seq<u8>, b': seq<u8>, bank: nat)
    requires BankFits(g) && 2 * g.size <= |b| == |b'| && bank < 2 && OnlySlot(b, b', BankOffset(g, bank), g.size)
    ensures Bank(g, b', 1 - bank) == Bank(g, b, 1 - bank)
  {
    if bank == 0 {
      assert b'[g.size..] == b[g.size..];
      assert b'[g.size..2 * g.size] == b'[g.size..][..g.size];
      assert b[g.size..2 * g.size] == b[g.size..][..g.size];
    } else {
      assert b'[..g.size] == b[..g.size];
    }
  }

  /** One commit into the inactive bank, however it ends. */
  lemma CommitKeepsSession(crc: Checksum, g: Geometry, b: seq<u8>, b': seq<u8>, active: nat, generation: u32,
                           committed: seq<u8>, attempts: set<seq<u8>>, image: seq<u8>, complete: bool)
    requires BankFits(g) && 2 * g.size <= |b| == |b'| && |image| == g.capacity
    requires Session(crc, g, b, active, generation, committed, attempts)
    requires OnlySlot(b, b', BankOffset(g, 1 - active), g.size)
    requires Outcome(g, Bank(g, b, 1 - active), Bank(g, b', 1 - active),
                     EncodeHeader(crc, Next(generation), g.capacity, image), image, complete)
    ensures if complete then Session(crc, g, b', 1 - active, Next(generation), image, {})
            else Session(crc, g, b', active, generation, committed, attempts + {image})
  {
    hide ValidBank, Image, Generation, Bank, EncodeHeader, Holds, Dead, OnlySlot;
    OtherBankSame(g, b, b', 1 - active);
    HeaderReadsBack(crc, Next(generation), g.capacity, image);
    var now := Bank(g, b', 1 - active);
    if Holds(g, now, EncodeHeader(crc, Next(generation), g.capacity, image), image) {
      CompleteIsValid(crc, g, now, Next(generation), image);
    } else if Dead(g, now, 0x4c) {
      DeadIsInvalid(crc, g, now);
    }
  }

  /** Formatting an unformatted device, however it ends. */
  lemma FormatOutcome(crc: Checksum, g: Geometry, b: seq<u8>, b': seq<u8>, complete: bool)
    requires BankFits(g) && 2 * g.size <= |b| == |b'| && Recover(crc, g, b).None?
    requires OnlySlot(b, b', BankOffset(g, 0), g.size)
    requires Outcome(g, Bank(g, b, 0), Bank(g, b', 0), EncodeHeader(crc, 1, g.capacity, Blank(g.capacity)),
                     Blank(g.capacity), complete)
    ensures complete ==> Session(crc, g, b', 0, 1, Blank(g.capacity), {})
    ensures Consistent(crc, g, b')
    ensures Recovered(crc, g, b').None? || Recovered(crc, g, b') == Some(Blank(g.capacity))
  {
    hide ValidBank, Image, Generation, Bank, EncodeHeader, Holds, Dead, OnlySlot;
    OtherBankSame(g, b, b', 0);
    HeaderReadsBack(crc, 1, g.capacity, Blank(g.capacity));
    var now := Bank(g, b', 0);
    if Holds(g, now, EncodeHeader(crc, 1, g.capacity, Blank(g.capacity)), Blank(g.capacity)) {
      CompleteIsValid(crc, g, now, 1, Blank(g.capacity));
    } else if Dead(g, now, 0x4c) {
      DeadIsInvalid(crc, g, now);
    }
  }

  // ---------------------------------------------------------------- the mirror object

  lemma CommittedIs(m: Mirror)
    requires m.Ready() && m.Mounted()
    ensures m.activeBank < 2 && m.committed == Image(m.g, Bank(m.g, m.raw.data[..], m.activeBank))
    ensures Bank(m.g, m.raw.data[..], m.activeBank) == Region(m.raw.data[..], BankOffset(m.g, m.activeBank), m.g.size)
  {
  }

  class Mirror {
    const raw: Device
    const crc: Checksum
    const g: Geometry
    var workspace: seq<u8>
    var activeBank: nat
    var generation: u32
    ghost var committed: seq<u8>
    ghost var attempts: set<seq<u8>>

    predicate Ready() {
      BankFits(g) && 2 * g.size <= raw.data.Length
    }

    ghost predicate Mounted()
      reads this, raw.data
      requires Ready()
    {
      Session(crc, g, raw.data[..], activeBank, generation, committed, attempts)
    }

    constructor (device: Device, checksum: Checksum, geometry: Geometry)
      requires BankFits(geometry) && 2 * geometry.size <= device.data.Length
      ensures Ready() && raw == device && crc == checksum && g == geometry
    {
      raw, crc, g := device, checksum, geometry;
      workspace, activeBank, generation := [], 0, 0;
      committed, attempts := [], {};
    }

    /** Reads a bank and decides whether it is valid. */
    method CheckBank(bank: nat) returns (status: Status, valid: bool, gen: u32)
      requires Ready() && bank < 2
      modifies this`workspace, raw`operationCount
      ensures old(raw.Quiet()) ==> raw.Quiet() && status == Ok
      ensures status == Ok ==> (valid <==> Valid(crc, g, raw.data[..], bank))
      ensures status == Ok && valid ==> gen == Generation(g, Bank(g, raw.data[..], bank))
    {
      hide ReadU32, Region;
      valid, gen := false, 0;
      var offset := BankOffset(g, bank);
      ghost var s := Bank(g, raw.data[..], bank);
      var header, marker;
      status, header := ReadSlot(raw, offset, g.size, 0, HEADER_SIZE);
      if status != Ok {
        return;
      }
      assert header == s[..HEADER_SIZE];
      if !ValidHeader(crc, g.capacity, header) {
        return;
      }
      status, marker := ReadSlot(raw, offset, g.size, g.commit, 1);
      if status != Ok {
        return;
      }
      assert marker[0] == s[g.commit..g.commit + 1][0];
      if marker[0] != COMMITTED {
        return;
      }
      status, workspace := ReadSlot(raw, offset, g.size, g.payload, g.capacity);
      if status != Ok {
        return;
      }
      assert workspace == Image(g, s);
      HeaderWords(header, s);
      gen := ReadU32(header, 8);
      valid := ReadU32(header, 16) == crc(workspace);
    }

    /** Writes the workspace image to a bank with the given generation. */
    method CommitImage(bank: nat, gen: u32) returns (status: Status)
      requires Ready() && bank < 2 && |workspace| == g.capacity
      modifies this`activeBank, this`generation, raw`operationCount, raw.data
      ensures old(raw.Quiet()) ==> raw.Quiet()
      ensures OnlySlot(old(raw.data[..]), raw.data[..], BankOffset(g, bank), g.size)
      ensures Outcome(g, old(Bank(g, raw.data[..], bank)), Bank(g, raw.data[..], bank),
                      EncodeHeader(crc, gen, g.capacity, workspace), workspace, status == Ok)
      ensures status == Ok ==> activeBank == bank && generation == gen
      ensures status != Ok ==> activeBank == old(activeBank) && generation == old(generation)
      ensures old(raw.Quiet()) && WholeUnits(raw, BankOffset(g, bank), g.size) ==> status == Ok
    {
      hide OnlySlot, Outcome, WholeUnits, Region, EncodeHeader;
      HeaderReadsBack(crc, gen, g.capacity, workspace);
      status := CommitSlot(raw, BankOffset(g, bank), g, EncodeHeader(crc, gen, g.capacity, workspace), workspace);
      if status == Ok {
        activeBank, generation := bank, gen;
      }
    }

    /** Mounts the newest valid bank, or formats the device when there is none. */
    method Init() returns (status: Status)
      requires Ready() && Consistent(crc, g, raw.data[..])
      modifies this, raw`operationCount, raw.data
      ensures old(raw.Quiet()) ==> raw.Quiet()
      ensures Consistent(crc, g, raw.data[..])
      ensures status == Ok ==> Mounted() && attempts == {}
      ensures old(Recovered(crc, g, raw.data[..])).Some? ==>
        raw.data[..] == old(raw.data[..]) && (status == Ok ==> committed == old(Recovered(crc, g, raw.data[..])).value)
      ensures old(Recovered(crc, g, raw.data[..])).None? ==>
        && (Recovered(crc, g, raw.data[..]).None? || Recovered(crc, g, raw.data[..]) == Some(Blank(g.capacity)))
        && (status == Ok ==> committed == Blank(g.capacity))
      ensures (old(raw.Quiet()) && WholeUnits(raw, 0, g.size)) ==> status == Ok
    {
      hide ValidBank, Image, Generation, Bank, EncodeHeader, Outcome, OnlySlot, WholeUnits;
      var first, second, gen0, gen1;
      ghost var b := raw.data[..];
      status, first, gen0 := CheckBank(0);
      if status != Ok {
        return;
      }
      status, second, gen1 := CheckBank(1);
      if status != Ok {
        return;
      }
      if first || second {
        if second && (!first || Newer(gen1, gen0)) {
          activeBank, generation := 1, gen1;
        } else {
          activeBank, generation := 0, gen0;
        }
        committed, attempts := Recovered(crc, g, b).value, {};
        RecoverStartsSession(crc, g, b);
      } else {
        workspace := Blank(g.capacity);
        status := CommitImage(0, 1);
        FormatOutcome(crc, g, b, raw.data[..], status == Ok);
        if status == Ok {
          committed, attempts := Blank(g.capacity), {};
        }
      }
    }

    /** Copies the active image, applies the change to it, and commits it to the other bank. */
    method Update(change: Change) returns (status: Status, ghost tried: bool)
      requires Ready() && Mounted()
      modifies this, raw`operationCount, raw.data
      ensures old(raw.Quiet()) ==> raw.Quiet()
      ensures Mounted()
      ensures status == Ok ==> tried
      ensures tried ==> InRange(|old(committed)|, change)
      ensures status == Ok ==> committed == Apply(old(committed), change) && attempts == {}
      ensures status != Ok ==> committed == old(committed)
      ensures status != Ok && tried ==> attempts == old(attempts) + {Apply(old(committed), change)}
      ensures !tried ==> raw.data[..] == old(raw.data[..]) && attempts == old(attempts)
      ensures !InRange(g.capacity, change) ==> status == Einval
      ensures (old(raw.Quiet()) && InRange(g.capacity, change)
               && WholeUnits(raw, BankOffset(g, 1 - old(activeBank)), g.size)) ==> status == Ok
    {
      hide ValidBank, Generation, EncodeHeader, Outcome, OnlySlot, WholeUnits;
      tried := false;
      if !InRange(g.capacity, change) {
        return Einval, false;
      }
      ghost var b := raw.data[..];
      var image;
      status, image := ReadSlot(raw, BankOffset(g, activeBank), g.size, g.payload, g.capacity);
      if status != Ok {
        return;
      }
      assert image == Image(g, Bank(g, b, activeBank));
      workspace := Apply(image, change);
      tried := true;
      ghost var active, gen := activeBank, generation;
      status := CommitImage(1 - activeBank, Next(generation));
      CommitKeepsSession(crc, g, b, raw.data[..], active, gen, committed, attempts, workspace, status == Ok);
      if status == Ok {
        committed, attempts := workspace, {};
      } else {
        attempts := attempts + {workspace};
      }
    }

    /** Reads from the committed image. */
    method Read(offset: nat, length: nat) returns (status: Status, bytes: seq<u8>)
      requires Ready() && Mounted()
      modifies raw`operationCount
      ensures status == Ok ==> offset + length <= |committed| && bytes == committed[offset..offset + length]
      ensures old(raw.Quiet()) && offset + length <= g.capacity ==> status == Ok
    {
      hide Session, Bank, Region;
      if offset + length > g.capacity {
        return Einval, [];
      }
      CommittedIs(this);
      status, bytes := ReadSlot(raw, BankOffset(g, activeBank), g.size, g.payload + offset, length);
      ghost var s := Bank(g, raw.data[..], activeBank);
      SliceOfSlice(s, g.payload, g.capacity, offset, length);
    }
  }

  /** On a working device an update within the capacity succeeds, and a read then returns what it left, byte by byte. */
  method UpdateThenRead(m: Mirror, change: Change, offset: nat, length: nat) returns (status: Status, bytes: seq<u8>)
    requires m.Ready() && m.Mounted() && m.raw.Quiet() && Begin(change) + Extent(change) <= m.g.capacity
    requires WholeUnits(m.raw, BankOffset(m.g, 0), m.g.size) && WholeUnits(m.raw, BankOffset(m.g, 1), m.g.size)
    requires offset + length <= m.g.capacity
    modifies m, m.raw`operationCount, m.raw.data
    ensures status == Ok && |bytes| == length && |old(m.committed)| == m.g.capacity
    ensures forall i :: 0 <= i < length ==> bytes[i] == ByteAfter(old(m.committed), change, offset + i)
  {
    hide Session, Bank, Region, WholeUnits, InRange, Apply;
    CommittedIs(m);
    ghost var was := m.committed;
    ApplyBytes(was, change);
    ghost var tried;
    status, tried := m.Update(change);
    status, bytes := m.Read(offset, length);
  }

  // ---------------------------------------------------------------- runs

  /** A mirror session goes on after a failed commit, and updates never run out. */
  function Atomic(capacity: nat): Kind {
    Kind(capacity, true, false)
  }

  /** The state of device and mirror agrees with the log. */
  ghost predicate Agrees(m: Mirror, start: Option<seq<u8>>, log: seq<Entry>)
    requires m.Ready()
    reads m, m.raw.data
  {
    && Consistent(m.crc, m.g, m.raw.data[..])
    && Possible(Atomic(m.g.capacity), start, log, Recovered(m.crc, m.g, m.raw.data[..]))
    && (IsMounted(Atomic(m.g.capacity), log) ==>
          m.Mounted() && Durable(start, log) == Some(m.committed) && m.attempts == Pending(log))
  }

  /** Runs one command against the device. */
  method Step(m: Mirror, ghost start: Option<seq<u8>>, ghost log: seq<Entry>, mounted: bool, command: Command)
      returns (nowMounted: bool, ghost entry: Entry)
    requires m.Ready() && Agrees(m, start, log) && mounted == IsMounted(Atomic(m.g.capacity), log)
    requires WholeUnits(m.raw, 0, m.g.size) && WholeUnits(m.raw, m.g.size, m.g.size)
    modifies m, m.raw, m.raw.data
    ensures Legal(Atomic(m.g.capacity), start, log, command, entry) && Agrees(m, start, log + [entry])
    ensures nowMounted == IsMounted(Atomic(m.g.capacity), log + [entry])
  {
    hide Consistent, Recovered, Session, WholeUnits, Durable, Pending, IsMounted, Image;
    nowMounted := mounted;
    m.raw.FailAt(command.fault);
    if command.Restart? {
      var status := m.Init();
      nowMounted := status == Ok;
      entry := if status == Ok then Restarted(m.committed) else RestartFailed;
      if status == Ok {
        SessionIs(m);
      }
    } else if mounted {
      SessionIs(m);
      var status;
      ghost var tried;
      ghost var before := m.committed;
      status, tried := m.Update(command.change);
      entry := if status == Ok then Done(m.committed) else if tried then CutShort(Apply(before, command.change))
               else Refused;
      SessionIs(m);
    } else {
      entry := Skipped;
    }
    AfterEntry(Atomic(m.g.capacity), start, log, entry);
  }

  lemma SessionIs(m: Mirror)
    requires m.Ready() && m.Mounted()
    ensures |m.committed| == m.g.capacity && m.activeBank < 2 && BankOffset(m.g, 1 - m.activeBank) in {0, m.g.size}
    ensures Consistent(m.crc, m.g, m.raw.data[..]) && Recovered(m.crc, m.g, m.raw.data[..]).Some?
    ensures var found := Recovered(m.crc, m.g, m.raw.data[..]).value; found == m.committed || found in m.attempts
  {
    SessionRecovers(m.crc, m.g, m.raw.data[..], m.activeBank, m.generation, m.committed, m.attempts);
  }

  /**
   Any run of updates and restarts, with a failure at any operation of any of them, is a legal run of an atomic
   store; afterwards a restart finds the last durable image or one whose commit was cut short since.
   */
  method Run(dev: Device, crc: Checksum, capacity: nat, script: seq<Command>) returns (ghost log: seq<Entry>)
    requires capacity <= U32_MAX && Layout(HEADER_SIZE, capacity, dev.eraseSize, dev.Unit()).Some?
    requires var g := Layout(HEADER_SIZE, capacity, dev.eraseSize, dev.Unit()).value;
      BankFits(g) && 2 * g.size <= dev.data.Length && Consistent(crc, g, dev.data[..])
    modifies dev, dev.data
    ensures var g := Layout(HEADER_SIZE, capacity, dev.eraseSize, dev.Unit()).value;
      var start := old(Recovered(crc, g, dev.data[..]));
      && LegalRun(Atomic(capacity), start, script, log)
      && Consistent(crc, g, dev.data[..]) && Possible(Atomic(capacity), start, log, Recovered(crc, g, dev.data[..]))
  {
    hide Consistent, Recovered, WholeUnits, Legal, Durable, Pending, BankFits, RoundUp, Session;
    var g := Layout(HEADER_SIZE, capacity, dev.eraseSize, dev.Unit()).value;
    LayoutWhole(dev, HEADER_SIZE, capacity, 0);
    LayoutWhole(dev, HEADER_SIZE, capacity, 1);
    assert g.capacity == capacity;
    ghost var start := Recovered(crc, g, dev.data[..]);
    var m := new Mirror(dev, crc, g);
    var mounted := false;
    log := [];
    StartsPossible(start, crc, g, dev.data[..]);
    var i := 0;
    while i < |script|
      invariant 0 <= i <= |script| == i + (|script| - |log|) && fresh(m) && m.raw == dev && m.crc == crc && m.g == g
      invariant m.Ready()
      invariant mounted == IsMounted(Atomic(capacity), log) && Agrees(m, start, log)
      invariant LegalRun(Atomic(capacity), start, script[..i], log)
    {
      ghost var entry;
      mounted, entry := Step(m, start, log, mounted, script[i]);
      LegalExtends(Atomic(capacity), start, script, log, entry);
      log := log + [entry];
      i := i + 1;
    }
    assert script[..i] == script;
  }

  lemma StartsPossible(start: Option<seq<u8>>, crc: Checksum, g: Geometry, b: seq<u8>)
    requires BankFits(g) && 2 * g.size <= |b| && start == Recovered(crc, g, b)
    ensures Possible(Atomic(g.capacity), start, [], start) && !IsMounted(Atomic(g.capacity), [])
  {
  }

  lemma HeaderWords(header: seq<u8>, s: seq<u8>)
    requires HEADER_SIZE <= |s| && header == s[..HEADER_SIZE]
    ensures ReadU32(header, 8) == ReadU32(s, 8) && ReadU32(header, 16) == ReadU32(s, 16)
  {
    SliceOfSlice(s, 0, HEADER_SIZE, 8, 4);
    SliceOfSlice(s, 0, HEADER_SIZE, 16, 4);
    ReadU32Same(header, 8, s, 8);
    ReadU32Same(header, 16, s, 16);
  }
}
