/**
 The power-fail seal: a 60-byte record written from the non-maskable interrupt of a dying supply into retained
 memory and, where one is installed, a battery-backed window. Power may go between any two byte stores.
 */
module PowerFail {
  import opened Bits
  import opened Words
  import opened Storage
  import opened SlotCommit

  const MAGIC: u32 := 0x46575250
  const BACKUP_MAGIC: u32 := 0x42575250
  const VERSION: u32 := 1
  const SEAL_SIZE: nat := 60
  const MAX_REASON: u32 := 3
  const TIER_RAM: u32 := 0
  const TIER_BACKUP: u32 := 1
  const UNKNOWN_FAULT: u32 := 0

  /** The registers of a retained fault that a seal repeats. */
  datatype Minimal = Minimal(fault: u32, pc: u32, lr: u32, msp: u32, psp: u32, cfsr: u32, hfsr: u32)

  datatype Seal = Seal(reason: u32, vcap: u32, tier: u32, bootId: u32, minimal: Minimal, sequence: u32)

  // ---------------------------------------------------------------- format

  /** Words 1 to 13. */
  function Body(seal: Seal): (s: seq<u8>)
    ensures |s| == 52
  {
    U32Bytes(VERSION) + U32Bytes(seal.reason) + U32Bytes(seal.vcap) + U32Bytes(seal.tier) + U32Bytes(seal.bootId)
    + U32Bytes(seal.minimal.fault) + U32Bytes(seal.minimal.pc) + U32Bytes(seal.minimal.lr) + U32Bytes(seal.minimal.msp)
    + U32Bytes(seal.minimal.psp) + U32Bytes(seal.minimal.cfsr) + U32Bytes(seal.minimal.hfsr) + U32Bytes(seal.sequence)
  }

  /** The record with the given magic; its checksum always covers the committed magic. */
  function Encode(crc: Checksum, magic: u32, seal: Seal): (s: seq<u8>)
    ensures |s| == SEAL_SIZE
  {
    U32Bytes(magic) + Body(seal) + U32Bytes(crc(U32Bytes(MAGIC) + Body(seal)))
  }

  predicate Valid(crc: Checksum, s: seq<u8>)
    requires |s| == SEAL_SIZE
  {
    && ReadU32(s, 0) == MAGIC && ReadU32(s, 4) == VERSION && ReadU32(s, 8) <= MAX_REASON
    && ReadU32(s, 16) <= TIER_BACKUP
    && ReadU32(s, 56) == crc(U32Bytes(MAGIC) + s[4..56])
  }

  function Decode(s: seq<u8>): Seal
    requires |s| == SEAL_SIZE
  {
    Seal(ReadU32(s, 8), ReadU32(s, 12), ReadU32(s, 16), ReadU32(s, 20),
         Minimal(ReadU32(s, 24), ReadU32(s, 28), ReadU32(s, 32), ReadU32(s, 36), ReadU32(s, 40), ReadU32(s, 44),
                 ReadU32(s, 48)),
         ReadU32(s, 52))
  }

  lemma BodyReads(seal: Seal, s: seq<u8>)
    requires |s| == SEAL_SIZE && s[4..56] == Body(seal)
    ensures ReadU32(s, 4) == VERSION && Decode(s) == seal
  {
    hide ReadU32, U32Bytes;
    var b := Body(seal);
    BodyWord(seal, s, 0, VERSION);
    BodyWord(seal, s, 1, seal.reason);
    BodyWord(seal, s, 2, seal.vcap);
    BodyWord(seal, s, 3, seal.tier);
    BodyWord(seal, s, 4, seal.bootId);
    BodyWord(seal, s, 5, seal.minimal.fault);
    BodyWord(seal, s, 6, seal.minimal.pc);
    BodyWord(seal, s, 7, seal.minimal.lr);
    BodyWord(seal, s, 8, seal.minimal.msp);
    BodyWord(seal, s, 9, seal.minimal.psp);
    BodyWord(seal, s, 10, seal.minimal.cfsr);
    BodyWord(seal, s, 11, seal.minimal.hfsr);
    BodyWord(seal, s, 12, seal.sequence);
  }

  function Word(seal: Seal, k: nat): u32
    requires k < 13
  {
    [VERSION, seal.reason, seal.vcap, seal.tier, seal.bootId, seal.minimal.fault, seal.minimal.pc, seal.minimal.lr,
     seal.minimal.msp, seal.minimal.psp, seal.minimal.cfsr, seal.minimal.hfsr, seal.sequence][k]
  }

  lemma BodyWord(seal: Seal, s: seq<u8>, k: nat, w: u32)
    requires k < 13 && |s| == SEAL_SIZE && s[4..56] == Body(seal) && w == Word(seal, k)
    ensures ReadU32(s, 4 + 4 * k) == w
  {
    hide ReadU32, U32Bytes;
    var b := Body(seal);
    assert b[4 * k..4 * k + 4] == U32Bytes(w);
    SliceOfSlice(s, 4, 52, 4 * k, 4);
    ReadU32Same(s, 4 + 4 * k, U32Bytes(w), 0);
  }

  /** A record with the committed magic is read back as the seal it was made from. */
  lemma EncodeReadsBack(crc: Checksum, seal: Seal)
    requires seal.reason <= MAX_REASON && seal.tier <= TIER_BACKUP
    ensures var s := Encode(crc, MAGIC, seal); Valid(crc, s) && Decode(s) == seal
    ensures var s, m := Encode(crc, MAGIC, seal), seal.minimal;
      && ReadU32(s, 0) == MAGIC && ReadU32(s, 4) == 1 && ReadU32(s, 8) == seal.reason && ReadU32(s, 12) == seal.vcap
      && ReadU32(s, 16) == seal.tier && ReadU32(s, 20) == seal.bootId && ReadU32(s, 24) == m.fault
      && ReadU32(s, 28) == m.pc && ReadU32(s, 32) == m.lr && ReadU32(s, 36) == m.msp && ReadU32(s, 40) == m.psp
      && ReadU32(s, 44) == m.cfsr && ReadU32(s, 48) == m.hfsr && ReadU32(s, 52) == seal.sequence
  {
    hide ReadU32, U32Bytes, Body;
    var s := Encode(crc, MAGIC, seal);
    assert s[4..56] == Body(seal) && s[0..4] == U32Bytes(MAGIC)
      && s[56..60] == U32Bytes(crc(U32Bytes(MAGIC) + Body(seal)));
    BodyReads(seal, s);
    ReadU32Same(s, 0, U32Bytes(MAGIC), 0);
    ReadU32Same(s, 56, U32Bytes(crc(U32Bytes(MAGIC) + Body(seal))), 0);
  }

  // ---------------------------------------------------------------- reading

  function ReadRetained(crc: Checksum, s: seq<u8>): Option<Seal>
    requires |s| == SEAL_SIZE
  {
    if Valid(crc, s) then Some(Decode(s)) else None
  }

  /** Nothing but a committed record of a known reason and tier is read as a seal. */
  lemma RetainedIff(crc: Checksum, s: seq<u8>, seal: Seal)
    requires |s| == SEAL_SIZE
    ensures ReadRetained(crc, s) == Some(seal) <==> seal.reason <= 3 && seal.tier <= 1 && s == Encode(crc, MAGIC, seal)
  {
    hide ReadU32, U32Bytes, Body;
    if seal.reason <= 3 && seal.tier <= 1 && s == Encode(crc, MAGIC, seal) {
      EncodeReadsBack(crc, seal);
    }
    if ReadRetained(crc, s) == Some(seal) {
      BytesOfRead(s, 0);
      BytesOfRead(s, 56);
      BodyWritten(s);
      assert s == s[0..4] + s[4..56] + s[56..60];
    }
  }

  lemma BodyWritten(s: seq<u8>)
    requires |s| == SEAL_SIZE && ReadU32(s, 4) == VERSION
    ensures Body(Decode(s)) == s[4..56]
  {
    hide ReadU32, U32Bytes;
    BytesOfRead(s, 4);
    BytesOfRead(s, 8);
    BytesOfRead(s, 12);
    BytesOfRead(s, 16);
    BytesOfRead(s, 20);
    BytesOfRead(s, 24);
    BytesOfRead(s, 28);
    BytesOfRead(s, 32);
    BytesOfRead(s, 36);
    BytesOfRead(s, 40);
    BytesOfRead(s, 44);
    BytesOfRead(s, 48);
    BytesOfRead(s, 52);
    assert s[4..56] == s[4..8] + s[8..12] + s[12..16] + s[16..20] + s[20..24] + s[24..28] + s[28..32] + s[32..36]
                       + s[36..40] + s[40..44] + s[44..48] + s[48..52] + s[52..56];
  }

  /** The window may carry either magic. */
  function ReadBackup(crc: Checksum, w: seq<u8>): Option<Seal>
    requires |w| >= SEAL_SIZE
  {
    var s := w[..SEAL_SIZE];
    if ReadU32(s, 0) == MAGIC || ReadU32(s, 0) == BACKUP_MAGIC then ReadRetained(crc, U32Bytes(MAGIC) + s[4..])
      else None
  }

  lemma BackupIff(crc: Checksum, w: seq<u8>, seal: Seal)
    requires |w| >= SEAL_SIZE
    ensures ReadBackup(crc, w) == Some(seal) <==>
      && seal.reason <= 3 && seal.tier <= 1
      && (w[..SEAL_SIZE] == Encode(crc, MAGIC, seal) || w[..SEAL_SIZE] == Encode(crc, BACKUP_MAGIC, seal))
  {
    hide ReadU32, U32Bytes, Body, ReadRetained;
    var s := w[..SEAL_SIZE];
    RetainedIff(crc, U32Bytes(MAGIC) + s[4..], seal);
    BytesOfRead(s, 0);
    MagicSwapped(crc, s, MAGIC, seal);
    MagicSwapped(crc, s, BACKUP_MAGIC, seal);
  }

  lemma MagicSwapped(crc: Checksum, s: seq<u8>, magic: u32, seal: Seal)
    requires |s| == SEAL_SIZE
    ensures s == Encode(crc, magic, seal) <==>
      ReadU32(s, 0) == magic && U32Bytes(MAGIC) + s[4..] == Encode(crc, MAGIC, seal)
  {
    hide ReadU32, U32Bytes, Body;
    var e, c := Encode(crc, magic, seal), Encode(crc, MAGIC, seal);
    var t := U32Bytes(MAGIC) + s[4..];
    BytesOfRead(s, 0);
    assert s == s[0..4] + s[4..] && e == U32Bytes(magic) + e[4..] && e[4..] == c[4..] && c == U32Bytes(MAGIC) + c[4..];
    assert t[4..] == s[4..];
    assert e[0..4] == U32Bytes(magic);
    ReadU32Same(e, 0, U32Bytes(magic), 0);
  }

  function ReadSeal(crc: Checksum, s: seq<u8>, installed: bool, w: seq<u8>): Option<Seal>
    requires |s| == SEAL_SIZE && (installed ==> |w| >= SEAL_SIZE)
  {
    if ReadRetained(crc, s).Some? then ReadRetained(crc, s) else if installed then ReadBackup(crc, w) else None
  }

  // ---------------------------------------------------------------- tearing

  /** A record whose first byte is not that of the magic is not read. */
  lemma NoMagic(crc: Checksum, s: seq<u8>)
    requires |s| >= SEAL_SIZE && s[0] == 0
    ensures ReadU32(s, 0) != MAGIC && ReadU32(s, 0) != BACKUP_MAGIC && ReadBackup(crc, s) == None
    ensures |s| == SEAL_SIZE ==> ReadRetained(crc, s) == None
  {
    hide Decode;
    assert s[..SEAL_SIZE][0] == 0;
  }

  /** The four bytes of a word read as it, whatever surrounds them. */
  lemma MagicBytes(s: seq<u8>)
    requires |s| >= 4
    ensures ReadU32(s, 0) == MAGIC <==> s[..4] == U32Bytes(MAGIC)
  {
    hide ReadU32, U32Bytes;
    assert s[0..4] == s[..4] && U32Bytes(MAGIC)[0..4] == U32Bytes(MAGIC);
    if s[..4] == U32Bytes(MAGIC) {
      ReadU32Same(s, 0, U32Bytes(MAGIC), 0);
    }
    BytesOfRead(s, 0);
  }

  /** The retained record after d1 stores of the body and d3 of the magic. */
  lemma RetainedTear(crc: Checksum, seal: Seal, was: seq<u8>, d1: nat, d3: nat)
    requires |was| == SEAL_SIZE && ReadU32(was, 0) != MAGIC && seal.reason <= MAX_REASON && seal.tier <= TIER_BACKUP
    requires d1 <= 56 && d3 <= 4 && (d3 > 0 ==> d1 == 56)
    ensures var n := Encode(crc, 0, seal);
      var now := Splice(Splice(was, 4, n[4..][..d1]), 0, U32Bytes(MAGIC)[..d3]);
      && ReadRetained(crc, now) in {None, Some(seal)} && (d3 == 4 ==> ReadRetained(crc, now) == Some(seal))
      && (d3 == 0 ==> ReadRetained(crc, now) == None)
  {
    hide ReadU32, U32Bytes, Body, Decode, Valid;
    var n, full := Encode(crc, 0, seal), Encode(crc, MAGIC, seal);
    var once := Splice(was, 4, n[4..][..d1]);
    var now := Splice(once, 0, U32Bytes(MAGIC)[..d3]);
    EncodeReadsBack(crc, seal);
    if d1 == 56 {
      assert now[4..] == n[4..] == full[4..];
      if now[..4] == U32Bytes(MAGIC) {
        assert now == full;
      }
    } else {
      assert now[..4] == was[..4];
    }
    assert d3 == 0 ==> now[..4] == was[..4];
    MagicBytes(was);
    MagicBytes(now);
    ValidMagic(crc, now);
  }

  lemma ValidMagic(crc: Checksum, s: seq<u8>)
    requires |s| == SEAL_SIZE
    ensures Valid(crc, s) ==> ReadU32(s, 0) == MAGIC
  {
  }

  /** The window after d2 stores of the record without magic and d4 of the magic. */
  lemma BackupTear(crc: Checksum, seal: Seal, was: seq<u8>, d2: nat, d4: nat)
    requires |was| >= SEAL_SIZE && seal.reason <= MAX_REASON && seal.tier <= TIER_BACKUP
    requires d2 <= SEAL_SIZE && d4 <= 4 && (d4 > 0 ==> d2 == SEAL_SIZE)
    ensures var now := Splice(Splice(was, 0, Encode(crc, 0, seal)[..d2]), 0, U32Bytes(MAGIC)[..d4]);
      && ReadBackup(crc, now) in {ReadBackup(crc, was), None, Some(seal)}
      && (d4 == 4 ==> ReadBackup(crc, now) == Some(seal))
      && (0 < d2 && d4 < 4 ==> ReadBackup(crc, now) == None)
      && (d2 == 0 ==> ReadBackup(crc, now) == ReadBackup(crc, was))
  {
    hide ReadU32, U32Bytes, Body, Decode, Valid, ReadRetained;
    var n, full := Encode(crc, 0, seal), Encode(crc, MAGIC, seal);
    var once := Splice(was, 0, n[..d2]);
    var now := Splice(once, 0, U32Bytes(MAGIC)[..d4]);
    EncodeReadsBack(crc, seal);
    ZeroFirst();
    if d2 == 0 {
      assert now == was;
    } else if d4 == 0 {
      assert now[0] == n[0] == 0;
      NoMagic(crc, now);
    } else if d4 == 4 {
      assert now[..SEAL_SIZE] == full;
      assert U32Bytes(MAGIC) + full[4..] == full;
      MagicBytes(full);
      ReadRetainedFull(crc, seal);
    } else {
      assert now[3] == n[3] == 0;
      PartialMagic(crc, now);
    }
  }

  lemma ReadRetainedFull(crc: Checksum, seal: Seal)
    requires seal.reason <= MAX_REASON && seal.tier <= TIER_BACKUP
    ensures ReadRetained(crc, Encode(crc, MAGIC, seal)) == Some(seal)
  {
    hide Valid, Decode, Encode;
    EncodeReadsBack(crc, seal);
  }

  lemma ZeroFirst()
    ensures U32Bytes(0) == [0, 0, 0, 0]
  {
  }

  lemma PartialMagic(crc: Checksum, w: seq<u8>)
    requires |w| >= SEAL_SIZE && w[3] == 0
    ensures ReadBackup(crc, w) == None
  {
    hide Decode, Valid;
    assert w[..SEAL_SIZE][3] == 0;
  }

  // ---------------------------------------------------------------- the sealing interrupt

  function NextSequence(sequence: u32): u32 {
    if sequence == U32_MAX then 1 else sequence + 1
  }

  class SealArea {
    const crc: Checksum
    const retained: array<u8>
    const window: array<u8>
    const installed: bool
    var sequence: u32
    var power: nat   // byte stores left before the supply dies

    predicate Ready() {
      retained.Length == SEAL_SIZE && retained != window && (installed ==> window.Length >= SEAL_SIZE)
    }

    /** What a reader finds. */
    function Held(): Option<Seal>
      requires Ready()
      reads retained, window
    {
      ReadSeal(crc, retained[..], installed, window[..])
    }

    /** Memory as found at reset, with a window installed when it is large enough. */
    constructor (checksum: Checksum, area: array<u8>, backup: array<u8>)
      requires area.Length == SEAL_SIZE && area != backup
      ensures Ready() && crc == checksum && retained == area && window == backup
      ensures installed == (backup.Length >= SEAL_SIZE)
      ensures sequence == 0 && power == 0
    {
      crc, retained, window, installed := checksum, area, backup, backup.Length >= SEAL_SIZE;
      sequence, power := 0, 0;
    }

    /** One byte store, lost when the supply is gone. */
    method Poke(a: array<u8>, at: nat, v: u8)
      requires at < a.Length
      modifies this`power, a
      ensures power == if old(power) == 0 then 0 else old(power) - 1
      ensures a[..] == if old(power) == 0 then old(a[..]) else old(a[..])[at := v]
    {
      if power > 0 {
        power := power - 1;
        a[at] := v;
      }
    }

    /** Copies bytes one by one: as many land as there is power for. */
    method Copy(a: array<u8>, at: nat, src: seq<u8>) returns (ghost done: nat)
      requires at + |src| <= a.Length
      modifies this`power, a
      ensures done == if old(power) < |src| then old(power) else |src|
      ensures power == old(power) - done
      ensures a[..] == Splice(old(a[..]), at, src[..done])
    {
      done := 0;
      var i := 0;
      while i < |src|
        invariant 0 <= i <= |src| && done == (if old(power) < i then old(power) else i) && power == old(power) - done
        invariant a[..] == Splice(old(a[..]), at, src[..done])
      {
        ghost var before := a[..];
        Poke(a, at + i, src[i]);
        if done == i && old(power) > i {
          SpliceGrows(old(a[..]), at, src, i);
          done := i + 1;
        }
        i := i + 1;
      }
    }

    /**
     Seals the brownout: body, backup copy, magic, backup magic. Power may go anywhere; then a reader finds the
     seal that was readable before, none, or the complete new one. While the magic is held, nothing is touched.
     */
    method SealNow(reason: u32, vcap: u16, bootId: u32, minimal: Option<Minimal>) returns (ghost seal: Seal)
      requires Ready() && reason <= MAX_REASON
      modifies this`sequence, this`power, retained, window
      ensures var refuses := reason == 0 || ReadU32(old(retained[..]), 0) == MAGIC;
        && (refuses ==> retained[..] == old(retained[..]) && window[..] == old(window[..]) && sequence == old(sequence))
        && (!refuses ==> sequence == seal.sequence && ReadRetained(crc, old(retained[..])) == None)
        && (!refuses && old(power) >= (if installed then 120 else 60) ==>
              Held() == Some(seal) && ReadRetained(crc, retained[..]) == Some(seal))
        && (!refuses && old(power) <= 56 ==> ReadRetained(crc, retained[..]) == None)
        && (!refuses && installed ==>
              ReadBackup(crc, window[..]) ==
                if old(power) <= 56 then ReadBackup(crc, old(window[..])) else if old(power) < 124 then None
                  else Some(seal))
      ensures seal == NewSeal(installed, reason, vcap, bootId, minimal, old(sequence))
      ensures seal.reason == reason && seal.vcap == vcap && seal.tier == (if installed then 1 else 0)
      ensures seal.bootId == bootId && seal.sequence == (if old(sequence) == U32_MAX then 1 else old(sequence) + 1)
      ensures seal.minimal == if minimal.Some? then minimal.value else Minimal(0, 0, 0, 0, 0, 0, 0)
      ensures Held() in {old(Held()), None, Some(seal)}
      ensures ReadRetained(crc, retained[..]) in {ReadRetained(crc, old(retained[..])), None, Some(seal)}
      ensures installed ==> ReadBackup(crc, window[..]) in {ReadBackup(crc, old(window[..])), None, Some(seal)}
    {
      hide ReadBackup, ReadRetained, Encode, ReadU32, Splice, U32Bytes;
      seal := NewSeal(installed, reason, vcap, bootId, minimal, sequence);
      if reason == 0 {
        return;
      }
      var magic := ReadU32(retained[..], 0);
      if magic == MAGIC {
        return;
      }
      ghost var r0, w0 := retained[..], window[..];
      var image := Encode(crc, 0, NewSeal(installed, reason, vcap, bootId, minimal, sequence));
      sequence := NextSequence(sequence);
      ghost var d1 := Copy(retained, 4, image[4..]);
      ghost var r1 := retained[..];
      ghost var d2, d4 := 0, 0;
      if installed {
        d2 := Copy(window, 0, image);
      }
      ghost var w1 := window[..];
      ghost var d3 := Copy(retained, 0, U32Bytes(MAGIC));
      RetainedTear(crc, seal, r0, d1, d3);
      if installed {
        d4 := Copy(window, 0, U32Bytes(MAGIC));
        BackupTear(crc, seal, w0, d2, d4);
      } else {
        NothingSpliced(w0, image, U32Bytes(MAGIC));
      }
      Unheld(crc, r0);
    }

    /** Withdraws the seal: retained magic first, then the first byte of the window. */
    method Clear()
      requires Ready()
      modifies this`power, retained, window
      ensures Held() in {old(Held()), (if installed then old(ReadBackup(crc, window[..])) else None), None}
      ensures old(power) >= 5 ==> Held() == None
    {
      hide ReadBackup, Splice, Valid, Decode, U32Bytes;
      ghost var r0, w0 := retained[..], window[..];
      ghost var done := Copy(retained, 0, U32Bytes(0));
      ZeroFirst();
      if done == 0 {
        assert retained[..] == r0;
      } else {
        assert retained[..][0] == 0;
        NoMagic(crc, retained[..]);
      }
      if installed {
        Poke(window, 0, 0);
        if window[..] != w0 || window[0] == 0 {
          assert window[..][0] == 0;
          NoMagic(crc, window[..]);
        }
      }
    }
  }

  lemma SpliceGrows(s: seq<u8>, at: nat, t: seq<u8>, i: nat)
    requires at + |t| <= |s| && i < |t|
    ensures Splice(s, at, t[..i])[at + i := t[i]] == Splice(s, at, t[..i + 1])
  {
    assert t[..i + 1] == t[..i] + [t[i]];
  }

  lemma NothingSpliced(w: seq<u8>, a: seq<u8>, b: seq<u8>)
    ensures Splice(Splice(w, 0, a[..0]), 0, b[..0]) == w
  {
  }

  lemma Unheld(crc: Checksum, s: seq<u8>)
    requires |s| == SEAL_SIZE && ReadU32(s, 0) != MAGIC
    ensures ReadRetained(crc, s) == None
  {
  }

  /** The seal written for these arguments. */
  function NewSeal(installed: bool, reason: u32, vcap: u16, bootId: u32, minimal: Option<Minimal>, sequence: u32)
      : (seal: Seal)
    ensures seal.reason == reason && seal.vcap == vcap && seal.bootId == bootId && seal.sequence != 0
    ensures minimal.Some? ==> seal.minimal == minimal.value
  {
    Seal(reason, vcap, if installed then TIER_BACKUP else TIER_RAM, bootId,
         if minimal.Some? then minimal.value else Minimal(UNKNOWN_FAULT, 0, 0, 0, 0, 0, 0), NextSequence(sequence))
  }
}
