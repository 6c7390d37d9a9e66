/**
 Poly1305 in five 26-bit limbs, against section 2.5 of RFC 8439.

 The machine-level functions below work on bounded words: a carry typed `u32`, or a column sum
 typed `u64`, obliges the proof that nothing was lost to a 32- or 64-bit wrap-around.
 */
module Poly1305 {
  import opened Bits
  import opened Words

  const LIMB: int := 0x400_0000
  const P: nat := 0x3_ffff_ffff_ffff_ffff_ffff_ffff_ffff_fffb

  datatype Limbs = Limbs(l0: u32, l1: u32, l2: u32, l3: u32, l4: u32)
  datatype Columns = Columns(d0: u64, d1: u64, d2: u64, d3: u64, d4: u64)

  // ---------------------------------------------------------------- reference definition

  /** Little-endian value of a byte string. */
  function Le(s: seq<u8>): nat {
    if s == [] then 0 else s[0] + 0x100 * Le(s[1..])
  }

  /** The little-endian string of n bytes holding v modulo 256^n. */
  function LeBytes(v: nat, n: nat): (s: seq<u8>)
    ensures |s| == n
  {
    if n == 0 then [] else [v % 0x100] + LeBytes(v / 0x100, n - 1)
  }

  /** Byte i of the multiplier after clamping. */
  function ClampByte(b: u8, i: nat): u8 {
    if i % 4 == 3 then b % 16 else if i == 4 || i == 8 || i == 12 then b - b % 4 else b
  }

  function ClampedKey(key: seq<u8>): (r: seq<u8>)
    requires |key| == 32
    ensures |r| == 16
  {
    seq(16, i requires 0 <= i < 16 => ClampByte(key[i], i))
  }

  function Multiplier(key: seq<u8>): nat
    requires |key| == 32
  {
    Le(ClampedKey(key))
  }

  /** One accumulator update: add the block, multiply, reduce. */
  function Absorb(r: nat, acc: nat, block: nat): nat {
    (acc + block) * r % P
  }

  /** The accumulator after the message, one block of at most 16 bytes (with its high bit) at a time. */
  function Horner(r: nat, acc: nat, message: seq<u8>): nat
    decreases |message|
  {
    if message == [] then acc else
    var n := if |message| < 16 then |message| else 16;
    Horner(r, Absorb(r, acc, Le(message[..n]) + Pow2(8 * n)), message[n..])
  }

  /** The tag section 2.5 of RFC 8439 defines. */
  function Tag(key: seq<u8>, message: seq<u8>): (tag: seq<u8>)
    requires |key| == 32
    ensures |tag| == 16
  {
    LeBytes(Horner(Multiplier(key), 0, message) + Le(key[16..]), 16)
  }

  // ---------------------------------------------------------------- limb representation

  function Value(h: Limbs): nat {
    h.l0 + h.l1 * 0x400_0000 + h.l2 * 0x10_0000_0000_0000 + h.l3 * 0x4000_0000_0000_0000_0000
    + h.l4 * 0x100_0000_0000_0000_0000_0000_0000
  }

  function ColumnsValue(d: Columns): nat {
    d.d0 + d.d1 * 0x400_0000 + d.d2 * 0x10_0000_0000_0000 + d.d3 * 0x4000_0000_0000_0000_0000
    + d.d4 * 0x100_0000_0000_0000_0000_0000_0000
  }

  /** Bounds kept from block to block: only limb 1 may exceed 26 bits, and by at most 63. */
  predicate Reduced(h: Limbs) {
    h.l0 < LIMB && h.l1 < LIMB + 64 && h.l2 < LIMB && h.l3 < LIMB && h.l4 < LIMB
  }

  /** Bounds after a message block has been added. */
  predicate Loaded(h: Limbs) {
    h.l0 < 2 * LIMB && h.l1 < 2 * LIMB + 64 && h.l2 < 2 * LIMB && h.l3 < 2 * LIMB
    && h.l4 < LIMB + 0x200_0000
  }

  /** Bounds of a clamped multiplier. */
  predicate Clamped(r: Limbs) {
    r.l0 < LIMB && r.l1 < LIMB && r.l2 < LIMB && r.l3 < LIMB && r.l4 < 0x10_0000
  }

  // ---------------------------------------------------------------- machine-level steps

  function BlockLimbs(m: seq<u8>, hibit: u32): Limbs
    requires |m| == 16 && (hibit == 0 || hibit == 0x100_0000)
  {
    Limbs(And(ReadU32(m, 0), 0x3ff_ffff), And(ReadU32(m, 3) / 4, 0x3ff_ffff), And(ReadU32(m, 6) / 16, 0x3ff_ffff),
          And(ReadU32(m, 9) / 64, 0x3ff_ffff), ReadU32(m, 12) / 256 + hibit)
  }

  function KeyLimbs(key: seq<u8>): Limbs
    requires |key| == 32
  {
    Limbs(And(ReadU32(key, 0), 0x3ff_ffff), And(ReadU32(key, 3) / 4, 0x3ff_ff03), And(ReadU32(key, 6) / 16, 0x3ff_c0ff),
          And(ReadU32(key, 9) / 64, 0x3f0_3fff), And(ReadU32(key, 12) / 256, 0x00f_ffff))
  }

  function AddLimbs(h: Limbs, m: Limbs): (s: Limbs)
    requires Reduced(h) && m.l0 < LIMB && m.l1 < LIMB && m.l2 < LIMB && m.l3 < LIMB && m.l4 < 0x200_0000
    ensures Loaded(s) && Value(s) == Value(h) + Value(m)
  {
    Limbs(h.l0 + m.l0, h.l1 + m.l1, h.l2 + m.l2, h.l3 + m.l3, h.l4 + m.l4)
  }

  // ---------------------------------------------------------------- loading words

  lemma Le4(s: seq<u8>)
    requires |s| >= 4
    ensures Le(s) == ReadU32(s, 0) + 0x1_0000_0000 * Le(s[4..])
  {
    assert s[1..][1..] == s[2..] && s[2..][1..] == s[3..] && s[3..][1..] == s[4..];
    assert Le(s[1..]) == s[1] + 0x100 * Le(s[2..]);
    assert Le(s[2..]) == s[2] + 0x100 * Le(s[3..]);
    assert Le(s[3..]) == s[3] + 0x100 * Le(s[4..]);
  }

  lemma Le16(s: seq<u8>)
    requires |s| == 16
    ensures Le(s) == ReadU32(s, 0) + 0x1_0000_0000 * ReadU32(s, 4) + 0x1_0000_0000_0000_0000 * ReadU32(s, 8)
                     + 0x1_0000_0000_0000_0000_0000_0000 * ReadU32(s, 12)
  {
    Le4(s);
    Le4(s[4..]);
    Le4(s[8..]);
    Le4(s[12..]);
    assert s[4..][4..] == s[8..] && s[8..][4..] == s[12..] && s[12..][4..] == [];
    assert ReadU32(s[4..], 0) == ReadU32(s, 4) && ReadU32(s[8..], 0) == ReadU32(s, 8)
      && ReadU32(s[12..], 0) == ReadU32(s, 12);
  }

  /** Masking with 26 ones. */
  lemma AndLimb(x: nat)
    ensures And(x, 0x3ff_ffff) == x % 0x400_0000
  {
    PowerTable();
    AndLow(x, 26);
    LowHighIs(x, 26, 0x400_0000);
  }

  /** A mask with a gap: b1 ones, then zeros up to bit k, then b2 ones. */
  lemma AndGap(x: nat, mask: nat, b1: nat, k: nat, b2: nat)
    requires Low(mask, k) == Pow2(b1) - 1 && High(mask, k) == Pow2(b2) - 1
    ensures And(x, mask) == Low(Low(x, k), b1) + Pow2(k) * Low(High(x, k), b2)
  {
    AndSplit(x, mask, k);
    AndLow(Low(x, k), b1);
    AndLow(High(x, k), b2);
  }

  lemma AndGapIs(x: nat, mask: nat, b1: nat, k: nat, b2: nat, m1: nat, mk: nat, m2: nat)
    requires Pow2(b1) == m1 && Pow2(k) == mk && Pow2(b2) == m2
    requires mask % mk == m1 - 1 && mask / mk == m2 - 1
    ensures And(x, mask) == x % mk % m1 + mk * (x / mk % m2)
  {
    LowHighIs(mask, k, mk);
    AndGap(x, mask, b1, k, b2);
    LowHighIs(x, k, mk);
    LowHighIs(Low(x, k), b1, m1);
    LowHighIs(High(x, k), b2, m2);
  }

  lemma MaskR1(x: nat)
    ensures And(x, 0x3ff_ff03) == x % 0x100 % 4 + 0x100 * (x / 0x100 % 0x4_0000)
  {
    PowerTable();
    AndGapIs(x, 0x3ff_ff03, 2, 8, 18, 4, 0x100, 0x4_0000);
  }

  lemma MaskR2(x: nat)
    ensures And(x, 0x3ff_c0ff) == x % 0x4000 % 0x100 + 0x4000 * (x / 0x4000 % 0x1000)
  {
    PowerTable();
    AndGapIs(x, 0x3ff_c0ff, 8, 14, 12, 0x100, 0x4000, 0x1000);
  }

  lemma MaskR3(x: nat)
    ensures And(x, 0x3f0_3fff) == x % 0x10_0000 % 0x4000 + 0x10_0000 * (x / 0x10_0000 % 0x40)
  {
    PowerTable();
    AndGapIs(x, 0x3f0_3fff, 14, 20, 6, 0x4000, 0x10_0000, 0x40);
  }

  lemma MaskR4(x: nat)
    ensures And(x, 0xf_ffff) == x % 0x10_0000
  {
    PowerTable();
    AndLow(x, 20);
    LowHighIs(x, 20, 0x10_0000);
  }

  /** Limbs as functions of the four bytes they straddle. */
  function Limb0(a: int, b: int, c: int, d: int): int { a + 0x100 * b + 0x1_0000 * c + 0x100_0000 * (d % 4) }
  function Limb1(a: int, b: int, c: int, d: int): int { a / 4 + 0x40 * b + 0x4000 * c + 0x40_0000 * (d % 16) }
  function Limb2(a: int, b: int, c: int, d: int): int { a / 16 + 0x10 * b + 0x1000 * c + 0x10_0000 * (d % 64) }
  function Limb3(a: int, b: int, c: int, d: int): int { a / 64 + 0x4 * b + 0x400 * c + 0x4_0000 * d }
  function Limb4(b: int, c: int, d: int): int { b + 0x100 * c + 0x1_0000 * d }

  predicate Bytes4(a: int, b: int, c: int, d: int) {
    0 <= a < 0x100 && 0 <= b < 0x100 && 0 <= c < 0x100 && 0 <= d < 0x100
  }

  lemma ShiftLimb0(a: int, b: int, c: int, d: int)
    requires Bytes4(a, b, c, d)
    ensures (a + 0x100 * b + 0x1_0000 * c + 0x100_0000 * d) % 0x400_0000 == Limb0(a, b, c, d)
  {
    DivModUnique(a + 0x100 * b + 0x1_0000 * c + 0x100_0000 * d, 0x400_0000, d / 4, Limb0(a, b, c, d));
  }

  lemma ShiftWord(a: int, b: int, c: int, d: int)
    requires Bytes4(a, b, c, d)
    ensures var w := a + 0x100 * b + 0x1_0000 * c + 0x100_0000 * d;
      && w / 4 == a / 4 + 0x40 * b + 0x4000 * c + 0x40_0000 * d
      && w / 16 == a / 16 + 0x10 * b + 0x1000 * c + 0x10_0000 * d
      && w / 64 == a / 64 + 0x4 * b + 0x400 * c + 0x4_0000 * d
      && w / 256 == b + 0x100 * c + 0x1_0000 * d
  {
  }

  lemma ShiftLimb1(a: int, b: int, c: int, d: int)
    requires Bytes4(a, b, c, d)
    ensures (a / 4 + 0x40 * b + 0x4000 * c + 0x40_0000 * d) % 0x400_0000 == Limb1(a, b, c, d)
  {
    DivModUnique(a / 4 + 0x40 * b + 0x4000 * c + 0x40_0000 * d, 0x400_0000, d / 16, Limb1(a, b, c, d));
  }

  lemma ShiftLimb2(a: int, b: int, c: int, d: int)
    requires Bytes4(a, b, c, d)
    ensures (a / 16 + 0x10 * b + 0x1000 * c + 0x10_0000 * d) % 0x400_0000 == Limb2(a, b, c, d)
  {
    DivModUnique(a / 16 + 0x10 * b + 0x1000 * c + 0x10_0000 * d, 0x400_0000, d / 64, Limb2(a, b, c, d));
  }

  lemma ShiftLimb3(a: int, b: int, c: int, d: int)
    requires Bytes4(a, b, c, d)
    ensures (a / 64 + 0x4 * b + 0x400 * c + 0x4_0000 * d) % 0x400_0000 == Limb3(a, b, c, d)
  {
    DivModUnique(a / 64 + 0x4 * b + 0x400 * c + 0x4_0000 * d, 0x400_0000, 0, Limb3(a, b, c, d));
  }

  lemma BlockLimb0(m: seq<u8>)
    requires |m| >= 4
    ensures And(ReadU32(m, 0), 0x3ff_ffff) == Limb0(m[0], m[1], m[2], m[3])
  {
    hide And;
    AndLimb(ReadU32(m, 0));
    ShiftLimb0(m[0], m[1], m[2], m[3]);
  }

  lemma BlockLimb1(m: seq<u8>)
    requires |m| >= 7
    ensures And(ReadU32(m, 3) / 4, 0x3ff_ffff) == Limb1(m[3], m[4], m[5], m[6])
  {
    hide And;
    AndLimb(ReadU32(m, 3) / 4);
    ShiftWord(m[3], m[4], m[5], m[6]);
    ShiftLimb1(m[3], m[4], m[5], m[6]);
  }

  lemma BlockLimb2(m: seq<u8>)
    requires |m| >= 10
    ensures And(ReadU32(m, 6) / 16, 0x3ff_ffff) == Limb2(m[6], m[7], m[8], m[9])
  {
    hide And;
    AndLimb(ReadU32(m, 6) / 16);
    ShiftWord(m[6], m[7], m[8], m[9]);
    ShiftLimb2(m[6], m[7], m[8], m[9]);
  }

  lemma BlockLimb3(m: seq<u8>)
    requires |m| >= 13
    ensures And(ReadU32(m, 9) / 64, 0x3ff_ffff) == Limb3(m[9], m[10], m[11], m[12])
  {
    hide And;
    AndLimb(ReadU32(m, 9) / 64);
    ShiftWord(m[9], m[10], m[11], m[12]);
    ShiftLimb3(m[9], m[10], m[11], m[12]);
  }

  /** The limbs of a block, in terms of its bytes. */
  lemma BlockLimbsAre(m: seq<u8>, hibit: u32)
    requires |m| == 16 && (hibit == 0 || hibit == 0x100_0000)
    ensures var l := BlockLimbs(m, hibit);
      && l.l0 == Limb0(m[0], m[1], m[2], m[3]) && l.l1 == Limb1(m[3], m[4], m[5], m[6])
      && l.l2 == Limb2(m[6], m[7], m[8], m[9]) && l.l3 == Limb3(m[9], m[10], m[11], m[12])
      && l.l4 == Limb4(m[13], m[14], m[15]) + hibit
  {
    hide And;
    BlockLimb0(m);
    BlockLimb1(m);
    BlockLimb2(m);
    BlockLimb3(m);
    ShiftWord(m[12], m[13], m[14], m[15]);
  }

  /** Loading a block and appending its high bit loses nothing. */
  lemma BlockValue(m: seq<u8>, hibit: u32)
    requires |m| == 16 && (hibit == 0 || hibit == 0x100_0000)
    ensures var l := BlockLimbs(m, hibit);
      l.l0 < LIMB && l.l1 < LIMB && l.l2 < LIMB && l.l3 < LIMB && l.l4 < 0x200_0000
    ensures Value(BlockLimbs(m, hibit)) == Le(m) + hibit * 0x100_0000_0000_0000_0000_0000_0000
  {
    hide And;
    BlockLimbsAre(m, hibit);
    Le16(m);
  }

  lemma ClampSum1(x: nat, a: u8, b: u8, c: u8, d: u8)
    requires x == (a as int) / 4 + 0x40 * (b as int) + 0x4000 * (c as int) + 0x40_0000 * (d as int)
    ensures And(x, 0x3ff_ff03) == Limb1(ClampByte(a, 3), ClampByte(b, 4), c, d)
  {
    hide And;
    var a: int, b: int, c: int, d: int := a, b, c, d;
    MaskR1(x);
    DivModUnique(x, 0x100, b / 4 + 0x40 * c + 0x4000 * d, a / 4 + 0x40 * (b % 4));
    DivModUnique(b / 4 + 0x40 * c + 0x4000 * d, 0x4_0000, d / 16, b / 4 + 0x40 * c + 0x4000 * (d % 16));
    var u := a / 4;
    DivModUnique(u + 0x40 * (b % 4), 4, u / 4 + 0x10 * (b % 4), u % 4);
    DivModUnique(a, 16, u / 4, 4 * (u % 4) + a % 4);
  }

  lemma ClampSum2(x: nat, a: u8, b: u8, c: u8, d: u8)
    requires x == (a as int) / 16 + 0x10 * (b as int) + 0x1000 * (c as int) + 0x10_0000 * (d as int)
    ensures And(x, 0x3ff_c0ff) == Limb2(a, ClampByte(b, 7), ClampByte(c, 8), d)
  {
    hide And;
    var a: int, b: int, c: int, d: int := a, b, c, d;
    MaskR2(x);
    DivModUnique(x, 0x4000, c / 4 + 0x40 * d, a / 16 + 0x10 * b + 0x1000 * (c % 4));
    DivModUnique(a / 16 + 0x10 * b + 0x1000 * (c % 4), 0x100, b / 16 + 0x10 * (c % 4), a / 16 + 0x10 * (b % 16));
    DivModUnique(c / 4 + 0x40 * d, 0x1000, d / 64, c / 4 + 0x40 * (d % 64));
  }

  lemma ClampSum3(x: nat, a: u8, b: u8, c: u8, d: u8)
    requires x == (a as int) / 64 + 0x4 * (b as int) + 0x400 * (c as int) + 0x4_0000 * (d as int)
    ensures And(x, 0x3f0_3fff) == Limb3(a, b, ClampByte(c, 11), ClampByte(d, 12))
  {
    hide And;
    var a: int, b: int, c: int, d: int := a, b, c, d;
    MaskR3(x);
    DivModUnique(x, 0x10_0000, d / 4, a / 64 + 0x4 * b + 0x400 * c + 0x4_0000 * (d % 4));
    DivModUnique(a / 64 + 0x4 * b + 0x400 * c + 0x4_0000 * (d % 4), 0x4000, c / 16 + 0x10 * (d % 4),
                 a / 64 + 0x4 * b + 0x400 * (c % 16));
  }

  lemma ClampLimb1(key: seq<u8>)
    requires |key| >= 7
    ensures And(ReadU32(key, 3) / 4, 0x3ff_ff03) == Limb1(ClampByte(key[3], 3), ClampByte(key[4], 4), key[5], key[6])
  {
    hide And;
    ShiftWord(key[3], key[4], key[5], key[6]);
    ClampSum1(ReadU32(key, 3) / 4, key[3], key[4], key[5], key[6]);
  }

  lemma ClampLimb2(key: seq<u8>)
    requires |key| >= 10
    ensures And(ReadU32(key, 6) / 16, 0x3ff_c0ff) == Limb2(key[6], ClampByte(key[7], 7), ClampByte(key[8], 8), key[9])
  {
    hide And;
    ShiftWord(key[6], key[7], key[8], key[9]);
    ClampSum2(ReadU32(key, 6) / 16, key[6], key[7], key[8], key[9]);
  }

  lemma ClampLimb3(key: seq<u8>)
    requires |key| >= 13
    ensures And(ReadU32(key, 9) / 64, 0x3f0_3fff) ==
      Limb3(key[9], key[10], ClampByte(key[11], 11), ClampByte(key[12], 12))
  {
    hide And;
    ShiftWord(key[9], key[10], key[11], key[12]);
    ClampSum3(ReadU32(key, 9) / 64, key[9], key[10], key[11], key[12]);
  }

  lemma ClampLimb4(key: seq<u8>)
    requires |key| >= 16
    ensures And(ReadU32(key, 12) / 256, 0xf_ffff) == Limb4(key[13], key[14], ClampByte(key[15], 15))
  {
    hide And;
    ShiftWord(key[12], key[13], key[14], key[15]);
    MaskR4(ReadU32(key, 12) / 256);
    DivModUnique(ReadU32(key, 12) / 256, 0x10_0000, key[15] / 16, Limb4(key[13], key[14], key[15] % 16));
  }

  lemma ClampLimb0(key: seq<u8>)
    requires |key| >= 4
    ensures And(ReadU32(key, 0), 0x3ff_ffff) == Limb0(key[0], key[1], key[2], ClampByte(key[3], 3))
  {
    hide And;
    BlockLimb0(key);
  }

  /** Clamping changes seven bytes. */
  lemma ClampedBytes(key: seq<u8>)
    requires |key| == 32
    ensures var c := ClampedKey(key);
      && c[0] == key[0] && c[1] == key[1] && c[2] == key[2] && c[5] == key[5] && c[6] == key[6] && c[9] == key[9]
      && c[10] == key[10] && c[13] == key[13] && c[14] == key[14]
      && c[3] == ClampByte(key[3], 3) && c[4] == ClampByte(key[4], 4) && c[7] == ClampByte(key[7], 7)
      && c[8] == ClampByte(key[8], 8) && c[11] == ClampByte(key[11], 11) && c[12] == ClampByte(key[12], 12)
      && c[15] == ClampByte(key[15], 15)
  {
  }

  /** The masked key words are the limbs of the clamped key. */
  lemma KeyLimbsClamp(key: seq<u8>)
    requires |key| == 32
    ensures KeyLimbs(key) == BlockLimbs(ClampedKey(key), 0)
  {
    hide And, ReadU32, Limb0, Limb1, Limb2, Limb3, Limb4, ClampByte, ClampedKey;
    ClampedBytes(key);
    ClampLimb0(key);
    ClampLimb1(key);
    ClampLimb2(key);
    ClampLimb3(key);
    ClampLimb4(key);
    BlockLimbsAre(ClampedKey(key), 0);
  }

  /** The limb form of the key is the clamped multiplier, within the bounds the block loop needs. */
  lemma KeyValue(key: seq<u8>)
    requires |key| == 32
    ensures Value(KeyLimbs(key)) == Multiplier(key) && Clamped(KeyLimbs(key))
  {
    hide And;
    KeyLimbsClamp(key);
    BlockValue(ClampedKey(key), 0);
    MaskR4(ReadU32(key, 12) / 256);
  }

  // ---------------------------------------------------------------- multiplication and carry

  lemma ProductBound(a: nat, b: nat, x: nat, y: nat)
    requires a <= x && b <= y
    ensures 0 <= a * b <= x * y
  {
    MulMono(a, x, b);
    MulMono(b, y, x);
  }

  /** Every partial product fits, so no column can wrap around in 64 bits. */
  lemma ColumnBounds(h: Limbs, r: Limbs)
    requires Loaded(h) && Clamped(r)
    ensures 0 <= h.l0 * r.l0 + h.l1 * (5 * r.l4) + h.l2 * (5 * r.l3) + h.l3 * (5 * r.l2) + h.l4 * (5 * r.l1)
              < 0x200_0000_0000_0000
    ensures 0 <= h.l0 * r.l1 + h.l1 * r.l0 + h.l2 * (5 * r.l4) + h.l3 * (5 * r.l3) + h.l4 * (5 * r.l2)
              < 0x200_0000_0000_0000
    ensures 0 <= h.l0 * r.l2 + h.l1 * r.l1 + h.l2 * r.l0 + h.l3 * (5 * r.l4) + h.l4 * (5 * r.l3) < 0x200_0000_0000_0000
    ensures 0 <= h.l0 * r.l3 + h.l1 * r.l2 + h.l2 * r.l1 + h.l3 * r.l0 + h.l4 * (5 * r.l4) < 0x200_0000_0000_0000
    ensures 0 <= h.l0 * r.l4 + h.l1 * r.l3 + h.l2 * r.l2 + h.l3 * r.l1 + h.l4 * r.l0 < 0x80_0000_0000_0000
  {
    ColumnBoundRow(h.l0, 0x800_0000, r);
    ColumnBoundRow(h.l1, 0x800_0040, r);
    ColumnBoundRow(h.l2, 0x800_0000, r);
    ColumnBoundRow(h.l3, 0x800_0000, r);
    ColumnBoundRow(h.l4, 0x600_0000, r);
  }

  lemma ColumnBoundRow(x: nat, bound: nat, r: Limbs)
    requires x <= bound && Clamped(r)
    ensures 0 <= x * r.l0 <= bound * 0x400_0000 && 0 <= x * r.l1 <= bound * 0x400_0000
    ensures 0 <= x * r.l2 <= bound * 0x400_0000 && 0 <= x * r.l3 <= bound * 0x400_0000
    ensures 0 <= x * r.l4 <= bound * 0x10_0000
    ensures x * (5 * r.l1) == 5 * (x * r.l1) && x * (5 * r.l2) == 5 * (x * r.l2)
    ensures x * (5 * r.l3) == 5 * (x * r.l3) && x * (5 * r.l4) == 5 * (x * r.l4)
  {
    ProductBound(x, r.l0, bound, 0x400_0000);
    ProductBound(x, r.l1, bound, 0x400_0000);
    ProductBound(x, r.l2, bound, 0x400_0000);
    ProductBound(x, r.l3, bound, 0x400_0000);
    ProductBound(x, r.l4, bound, 0x10_0000);
  }

  /** The five column sums of h * r, with everything above 2^130 folded back times 5. */
  function MulColumns(h: Limbs, r: Limbs): (d: Columns)
    requires Loaded(h) && Clamped(r)
    ensures d.d0 < 0x200_0000_0000_0000 && d.d1 < 0x200_0000_0000_0000 && d.d2 < 0x200_0000_0000_0000
    ensures d.d3 < 0x200_0000_0000_0000 && d.d4 < 0x80_0000_0000_0000
  {
    ColumnBounds(h, r);
    var s1: u32, s2: u32, s3: u32, s4: u32 := 5 * r.l1, 5 * r.l2, 5 * r.l3, 5 * r.l4;
    Columns(h.l0 * r.l0 + h.l1 * s4 + h.l2 * s3 + h.l3 * s2 + h.l4 * s1,
            h.l0 * r.l1 + h.l1 * r.l0 + h.l2 * s4 + h.l3 * s3 + h.l4 * s2,
            h.l0 * r.l2 + h.l1 * r.l1 + h.l2 * r.l0 + h.l3 * s4 + h.l4 * s3,
            h.l0 * r.l3 + h.l1 * r.l2 + h.l2 * r.l1 + h.l3 * r.l0 + h.l4 * s4,
            h.l0 * r.l4 + h.l1 * r.l3 + h.l2 * r.l2 + h.l3 * r.l1 + h.l4 * r.l0)
  }

  /** Four carried limbs and what is carried out of the last of them. */
  datatype Carried = Carried(l1: u32, l2: u32, l3: u32, l4: u32, top: u32)

  /** Carries through positions 1 to 4; every carry is 32 bits wide and loses nothing. */
  function CarryUp(d1: u64, d2: u64, d3: u64, d4: u64): (c: Carried)
    requires d1 < 0x400_0000_0000_0000 && d2 < 0x200_0000_0000_0000 && d3 < 0x200_0000_0000_0000
    requires d4 < 0x80_0000_0000_0000
    ensures c.l1 < LIMB && c.l2 < LIMB && c.l3 < LIMB && c.l4 < LIMB
    ensures c.l1 == d1 % LIMB
    ensures d1 + d2 * 0x400_0000 + d3 * 0x10_0000_0000_0000 + d4 * 0x4000_0000_0000_0000_0000
         == c.l1 + c.l2 * 0x400_0000 + c.l3 * 0x10_0000_0000_0000 + c.l4 * 0x4000_0000_0000_0000_0000
            + c.top * 0x100_0000_0000_0000_0000_0000_0000
    ensures c.top < 0x3000_0000
  {
    var c1: u32 := d1 / LIMB;
    var e2: u64 := d2 + c1;
    var c2: u32 := e2 / LIMB;
    var e3: u64 := d3 + c2;
    var c3: u32 := e3 / LIMB;
    var e4: u64 := d4 + c3;
    Carried(d1 % LIMB, e2 % LIMB, e3 % LIMB, e4 % LIMB, e4 / LIMB)
  }

  /** Carries from column to column and once around the top. */
  function CarryColumns(d: Columns): (h: Limbs)
    requires d.d0 < 0x200_0000_0000_0000 && d.d1 < 0x200_0000_0000_0000 && d.d2 < 0x200_0000_0000_0000
    requires d.d3 < 0x200_0000_0000_0000 && d.d4 < 0x80_0000_0000_0000
    ensures Reduced(h)
  {
    var c0: u32 := d.d0 / LIMB;
    var c := CarryUp(d.d1 + c0, d.d2, d.d3, d.d4);
    var h0: u32 := d.d0 % LIMB + 5 * c.top;
    Limbs(h0 % LIMB, c.l1 + h0 / LIMB, c.l2, c.l3, c.l4)
  }

  /** The carry pass subtracts a multiple of the prime. */
  lemma CarryValue(d: Columns) returns (k: nat)
    requires d.d0 < 0x200_0000_0000_0000 && d.d1 < 0x200_0000_0000_0000 && d.d2 < 0x200_0000_0000_0000
    requires d.d3 < 0x200_0000_0000_0000 && d.d4 < 0x80_0000_0000_0000
    ensures Value(CarryColumns(d)) + P * k == ColumnsValue(d)
  {
    hide CarryUp;
    var c0 := d.d0 / LIMB;
    var c := CarryUp(d.d1 + c0, d.d2, d.d3, d.d4);
    k := c.top;
    CarrySum(d, c, c0, d.d0 % LIMB);
  }

  lemma CarrySum(d: Columns, c: Carried, c0: int, r0: int)
    requires d.d0 == LIMB * c0 + r0
    requires d.d1 + c0 + d.d2 * 0x400_0000 + d.d3 * 0x10_0000_0000_0000 + d.d4 * 0x4000_0000_0000_0000_0000
          == c.l1 + c.l2 * 0x400_0000 + c.l3 * 0x10_0000_0000_0000 + c.l4 * 0x4000_0000_0000_0000_0000
             + c.top * 0x100_0000_0000_0000_0000_0000_0000
    ensures var h0 := r0 + 5 * c.top;
      h0 % LIMB + (c.l1 + h0 / LIMB) * 0x400_0000 + c.l2 * 0x10_0000_0000_0000 + c.l3 * 0x4000_0000_0000_0000_0000
      + c.l4 * 0x100_0000_0000_0000_0000_0000_0000 + P * c.top == ColumnsValue(d)
  {
  }

  /** A limb times a limb vector. */
  lemma Distribute(x: int, r: Limbs)
    ensures x * Value(r) == x * r.l0 + 0x400_0000 * (x * r.l1) + 0x10_0000_0000_0000 * (x * r.l2)
                            + 0x4000_0000_0000_0000_0000 * (x * r.l3) + 0x100_0000_0000_0000_0000_0000_0000 * (x * r.l4)
  {
  }

  lemma Rows(h: Limbs, y: int)
    ensures Value(h) * y == h.l0 * y + 0x400_0000 * (h.l1 * y) + 0x10_0000_0000_0000 * (h.l2 * y)
                            + 0x4000_0000_0000_0000_0000 * (h.l3 * y) + 0x100_0000_0000_0000_0000_0000_0000 * (h.l4 * y)
  {
  }

  /** What the fold at 2^130 takes out of the product, in multiples of the prime. */
  function Folded(h: Limbs, r: Limbs): int {
    h.l1 * r.l4 + h.l2 * r.l3 + h.l3 * r.l2 + h.l4 * r.l1
    + 0x400_0000 * (h.l2 * r.l4 + h.l3 * r.l3 + h.l4 * r.l2)
    + 0x10_0000_0000_0000 * (h.l3 * r.l4 + h.l4 * r.l3) + 0x4000_0000_0000_0000_0000 * (h.l4 * r.l4)
  }

  /** The column sums are the product, less a multiple of the prime. */
  lemma MulValue(h: Limbs, r: Limbs)
    requires Loaded(h) && Clamped(r)
    ensures ColumnsValue(MulColumns(h, r)) + P * Folded(h, r) == Value(h) * Value(r)
    ensures Folded(h, r) >= 0
  {
    Rows(h, Value(r));
    Distribute(h.l0, r);
    Distribute(h.l1, r);
    Distribute(h.l2, r);
    Distribute(h.l3, r);
    Distribute(h.l4, r);
    ColumnBoundRow(h.l1, 0x1_0000_0000, r);
    ColumnBoundRow(h.l2, 0x1_0000_0000, r);
    ColumnBoundRow(h.l3, 0x1_0000_0000, r);
    ColumnBoundRow(h.l4, 0x1_0000_0000, r);
  }

  // ---------------------------------------------------------------- one block

  lemma ModMultiple(x: int, m: int, k: int)
    requires m > 0
    ensures (x + m * k) % m == x % m
  {
    DivModUnique(x + m * k, m, x / m + k, x % m);
  }

  /** Absorbs one 16-byte block: add, multiply, carry. */
  function BlockStep(h: Limbs, r: Limbs, m: seq<u8>, hibit: u32): (next: Limbs)
    requires Reduced(h) && Clamped(r) && |m| == 16 && (hibit == 0 || hibit == 0x100_0000)
    ensures Reduced(next)
  {
    BlockValue(m, hibit);
    CarryColumns(MulColumns(AddLimbs(h, BlockLimbs(m, hibit)), r))
  }

  lemma TwoMultiples(v: int, k: int, f: int, x: int)
    requires v + P * k + P * f == x
    ensures v % P == x % P
  {
    ModMultiple(v, P, k + f);
  }

  /** Multiplying and carrying is multiplication modulo the prime. */
  lemma MulStep(s: Limbs, r: Limbs)
    requires Loaded(s) && Clamped(r)
    ensures Value(CarryColumns(MulColumns(s, r))) % P == Value(s) * Value(r) % P
  {
    var k := CarryValue(MulColumns(s, r));
    MulValue(s, r);
    TwoMultiples(Value(CarryColumns(MulColumns(s, r))), k, Folded(s, r), Value(s) * Value(r));
  }

  lemma StepFrom(s: Limbs, r: Limbs, x: nat, n: nat, acc: nat, rv: nat)
    requires Loaded(s) && Clamped(r) && Value(s) == x + n && x % P == acc && rv == Value(r)
    ensures Value(CarryColumns(MulColumns(s, r))) % P == Absorb(rv, acc, n)
  {
    MulStep(s, r);
    StepCongruence(x, acc, n, rv);
  }

  /** A block step is the accumulator update of the reference definition, modulo the prime. */
  lemma BlockStepValue(h: Limbs, r: Limbs, m: seq<u8>, hibit: u32, acc: nat, n: nat, rv: nat)
    requires Reduced(h) && Clamped(r) && |m| == 16 && (hibit == 0 || hibit == 0x100_0000)
    requires Value(h) % P == acc && rv == Value(r)
    requires n == Le(m) + hibit * 0x100_0000_0000_0000_0000_0000_0000
    ensures Value(BlockStep(h, r, m, hibit)) % P == Absorb(rv, acc, n)
  {
    hide Value, Absorb, Le, MulColumns, CarryColumns, BlockLimbs;
    BlockValue(m, hibit);
    StepFrom(AddLimbs(h, BlockLimbs(m, hibit)), r, Value(h), n, acc, rv);
  }

  lemma StepCongruence(x: nat, acc: nat, n: nat, r: nat)
    requires x % P == acc
    ensures (x + n) * r % P == (acc + n) * r % P
  {
    var q := x / P;
    assert x == P * q + acc;
    assert (x + n) * r == (acc + n) * r + P * q * r;
    MulAssoc(P, q, r);
    ModMultiple((acc + n) * r, P, q * r);
  }

  // ---------------------------------------------------------------- final reduction

  /** Limbs that all fit their 26 bits. */
  predicate Canonical(h: Limbs) {
    h.l0 < LIMB && h.l1 < LIMB && h.l2 < LIMB && h.l3 < LIMB && h.l4 < LIMB
  }

  /** The carry pass that opens the finish step. */
  function CarryFull(h: Limbs): (f: Limbs)
    requires Reduced(h)
  {
    var c := CarryUp(h.l1, h.l2, h.l3, h.l4);
    var h0: u32 := h.l0 + 5 * c.top;
    Limbs(h0 % LIMB, c.l1 + h0 / LIMB, c.l2, c.l3, c.l4)
  }

  /**
   A carry into limb 0 can only come from limb 1 having just overflowed, which leaves limb 1 small: so the
   last carry of the pass cannot push it past 26 bits again.
   */
  lemma CarryFullCanonical(h: Limbs)
    requires Reduced(h)
    ensures Canonical(CarryFull(h))
  {
    var c := CarryUp(h.l1, h.l2, h.l3, h.l4);
    assert c.top <= 1;
    assert c.top == 1 ==> c.l1 < 64;
  }

  lemma CarryFullSum(h: Limbs) returns (k: nat)
    requires Reduced(h)
    ensures Value(h) == Value(CarryFull(h)) + P * k
  {
    k := CarryUp(h.l1, h.l2, h.l3, h.l4).top;
  }

  lemma CarryFullValue(h: Limbs)
    requires Reduced(h)
    ensures Value(CarryFull(h)) % P == Value(h) % P
  {
    hide Value, CarryFull;
    var k := CarryFullSum(h);
    ModMultiple(Value(CarryFull(h)), P, k);
  }

  /** The top limb of h + 5 - 2^130, before it wraps around in 32 bits. */
  function PlusFiveTop(h: Limbs): int {
    h.l4 + (h.l3 + (h.l2 + (h.l1 + (h.l0 + 5) / LIMB) / LIMB) / LIMB) / LIMB - LIMB
  }

  /** h + 5 - 2^130 in limbs. */
  function PlusFive(h: Limbs): Limbs
    requires Canonical(h)
  {
    var g0: u32 := h.l0 + 5;
    var g1: u32 := h.l1 + g0 / LIMB;
    var g2: u32 := h.l2 + g1 / LIMB;
    var g3: u32 := h.l3 + g2 / LIMB;
    Limbs(g0 % LIMB, g1 % LIMB, g2 % LIMB, g3 % LIMB, (h.l4 + g3 / LIMB - LIMB) % 0x1_0000_0000)
  }

  function SelectLimb(h: u32, g: u32, mask: u32): (x: u32)
    requires mask == 0 || mask == U32_MAX
    ensures x == if mask == 0 then h else g
  {
    MaskSelect(h, g, mask);
    Or(And(h, U32_MAX - mask), And(g, mask))
  }

  /** All ones exactly when the top bit of x is clear. */
  function SignMask(x: u32): (mask: u32)
    ensures mask == if x < 0x8000_0000 then U32_MAX else 0
  {
    (x / 0x8000_0000 - 1) % 0x1_0000_0000
  }

  /** Subtracts the prime once if that does not go below zero, without branching. */
  function SubtractPrime(h: Limbs): Limbs
    requires Canonical(h)
  {
    var g := PlusFive(h);
    var mask := SignMask(g.l4);
    Limbs(SelectLimb(h.l0, g.l0, mask), SelectLimb(h.l1, g.l1, mask), SelectLimb(h.l2, g.l2, mask),
          SelectLimb(h.l3, g.l3, mask), SelectLimb(h.l4, g.l4, mask))
  }

  /** With the unwrapped top limb the difference is exact. */
  lemma PlusFiveSum(h: Limbs)
    requires Canonical(h)
    ensures var g := PlusFive(h);
      Value(h) - P == g.l0 + g.l1 * 0x400_0000 + g.l2 * 0x10_0000_0000_0000 + g.l3 * 0x4000_0000_0000_0000_0000
                      + PlusFiveTop(h) * 0x100_0000_0000_0000_0000_0000_0000
  {
  }

  lemma PlusFiveWrap(h: Limbs)
    requires Canonical(h)
    ensures -LIMB <= PlusFiveTop(h) <= 0
    ensures PlusFive(h).l4 == if PlusFiveTop(h) == 0 then 0 else PlusFiveTop(h) + 0x1_0000_0000
  {
  }

  lemma PlusFiveValue(h: Limbs)
    requires Canonical(h)
    ensures PlusFive(h).l4 < 0x8000_0000 <==> Value(h) >= P
    ensures Value(h) >= P ==> Value(PlusFive(h)) == Value(h) - P && PlusFive(h).l4 < LIMB
  {
    PlusFiveSum(h);
    PlusFiveWrap(h);
  }

  /** The two passes of the finish step leave the residue modulo the prime, in 26-bit limbs. */
  lemma FreezeValue(h: Limbs)
    requires Reduced(h)
    ensures Canonical(CarryFull(h))
    ensures var f := SubtractPrime(CarryFull(h));
      Value(f) == Value(h) % P && Canonical(f)
  {
    hide CarryFull, PlusFive;
    var c := CarryFull(h);
    CarryFullCanonical(h);
    CarryFullValue(h);
    PlusFiveValue(c);
    ResidueBelowTwice(Value(c));
  }

  lemma ResidueBelowTwice(v: nat)
    requires v < 2 * P
    ensures v % P == if v >= P then v - P else v
  {
    DivModUnique(v, P, if v >= P then 1 else 0, if v >= P then v - P else v);
  }

  // ---------------------------------------------------------------- packing the tag

  /** The four 32-bit words the tag is built from: (low limb >> a) | (high limb << b), truncated to 32 bits. */
  function PackWord(low: u32, drop: nat, high: u32, keep: nat): nat
    requires keep <= 32
  {
    Or(High(low, drop), high * Pow2(keep) % 0x1_0000_0000)
  }

  /** Shifting left by multiplying with km, truncated to 32 bits. */
  lemma ShiftTruncated(x: nat, km: nat, rest: nat)
    requires km * rest == 0x1_0000_0000 && rest > 0 && km > 0
    ensures x * km % 0x1_0000_0000 == x % rest * km
  {
    var q, r := x / rest, x % rest;
    assert x == rest * q + r;
    assert x * km == (rest * q) * km + r * km;
    assert (rest * q) * km == q * (km * rest) by { MulAssoc(q, km, rest); MulAssoc(km, rest, q); }
    assert 0 <= r * km <= (rest - 1) * km by { MulMono(r, rest - 1, km); }
    DivModUnique(x * km, 0x1_0000_0000, q, r * km);
  }

  lemma PackWordIs(low: u32, drop: nat, high: u32, keep: nat, dm: nat, km: nat, rest: nat)
    requires Pow2(drop) == dm && Pow2(keep) == km && keep <= 32 && km * rest == 0x1_0000_0000 && rest > 0
    requires low / dm < km
    ensures PackWord(low, drop, high, keep) == low / dm + high % rest * km
  {
    hide Or, Low, High;
    LowHighIs(low, drop, dm);
    ShiftTruncated(high, km, rest);
    OrDisjoint(low / dm, high % rest, keep);
  }

  /** Adds the pad word by word, carrying in 64 bits, and stores the low 32 bits of each sum. */
  function AddPad(w0: u32, w1: u32, w2: u32, w3: u32, p0: u32, p1: u32, p2: u32, p3: u32): (tag: seq<u8>)
    ensures |tag| == 16
  {
    var f0: u64 := w0 + p0;
    var f1: u64 := w1 + p1 + f0 / 0x1_0000_0000;
    var f2: u64 := w2 + p2 + f1 / 0x1_0000_0000;
    var f3: u64 := w3 + p3 + f2 / 0x1_0000_0000;
    LeBytes(f0, 4) + LeBytes(f1, 4) + LeBytes(f2, 4) + LeBytes(f3, 4)
  }

  function TagWords(h: Limbs, p0: u32, p1: u32, p2: u32, p3: u32): (tag: seq<u8>)
    requires Canonical(h)
    ensures |tag| == 16
  {
    PackBounds(h);
    AddPad(PackWord(h.l0, 0, h.l1, 26), PackWord(h.l1, 6, h.l2, 20), PackWord(h.l2, 12, h.l3, 14),
           PackWord(h.l3, 18, h.l4, 8), p0, p1, p2, p3)
  }

  lemma PackBounds(h: Limbs)
    requires Canonical(h)
    ensures PackWord(h.l0, 0, h.l1, 26) == h.l0 + h.l1 % 0x40 * 0x400_0000 < 0x1_0000_0000
    ensures PackWord(h.l1, 6, h.l2, 20) == h.l1 / 0x40 + h.l2 % 0x1000 * 0x10_0000 < 0x1_0000_0000
    ensures PackWord(h.l2, 12, h.l3, 14) == h.l2 / 0x1000 + h.l3 % 0x4_0000 * 0x4000 < 0x1_0000_0000
    ensures PackWord(h.l3, 18, h.l4, 8) == h.l3 / 0x4_0000 + h.l4 % 0x100_0000 * 0x100 < 0x1_0000_0000
  {
    PowerTable();
    PackWordIs(h.l0, 0, h.l1, 26, 1, 0x400_0000, 0x40);
    PackWordIs(h.l1, 6, h.l2, 20, 0x40, 0x10_0000, 0x1000);
    PackWordIs(h.l2, 12, h.l3, 14, 0x1000, 0x4000, 0x4_0000);
    PackWordIs(h.l3, 18, h.l4, 8, 0x4_0000, 0x100, 0x100_0000);
  }

  /** v without its low n bytes. */
  function DropBytes(v: nat, n: nat): nat {
    if n == 0 then v else DropBytes(v / 0x100, n - 1)
  }

  /** v moved up by n bytes. */
  function RaiseBytes(v: nat, n: nat): nat {
    if n == 0 then v else 0x100 * RaiseBytes(v, n - 1)
  }

  lemma {:induction false} LeBytesSplit(v: nat, a: nat, n: nat)
    ensures LeBytes(v, a + n) == LeBytes(v, a) + LeBytes(DropBytes(v, a), n)
    decreases a
  {
    if a > 0 {
      LeBytesSplit(v / 0x100, a - 1, n);
      assert LeBytes(v, a + n) == [v % 0x100] + LeBytes(v / 0x100, a - 1 + n);
    }
  }

  lemma {:induction false} LeBytesLow(v: nat, t: nat, n: nat)
    ensures LeBytes(v + RaiseBytes(t, n), n) == LeBytes(v, n)
    decreases n
  {
    if n > 0 {
      var u := RaiseBytes(t, n - 1);
      assert (v + 0x100 * u) % 0x100 == v % 0x100 && (v + 0x100 * u) / 0x100 == v / 0x100 + u;
      LeBytesLow(v / 0x100, t, n - 1);
    }
  }

  lemma RaiseWord(t: nat)
    ensures RaiseBytes(t, 4) == 0x1_0000_0000 * t
  {
    assert RaiseBytes(t, 1) == 0x100 * t;
    assert RaiseBytes(t, 2) == 0x1_0000 * t;
    assert RaiseBytes(t, 3) == 0x100_0000 * t;
  }

  lemma DropWord(v: nat)
    ensures DropBytes(v, 4) == v / 0x1_0000_0000
  {
    assert DropBytes(v / 0x100_0000, 1) == v / 0x1_0000_0000;
    assert DropBytes(v / 0x1_0000, 2) == v / 0x1_0000_0000;
    assert DropBytes(v / 0x100, 3) == v / 0x1_0000_0000;
  }

  /** The lowest word of a number, and the rest with what that word carries. */
  lemma LeBytesWord(v: nat, f: nat, rest: nat, next: nat, n: nat)
    requires v == f + 0x1_0000_0000 * rest && next == f / 0x1_0000_0000 + rest
    ensures LeBytes(v, 4 + n) == LeBytes(f, 4) + LeBytes(next, n)
  {
    RaiseWord(rest);
    DropWord(v);
    LeBytesJoin(v, f, rest, 4, n);
  }

  lemma LeBytesJoin(v: nat, f: nat, rest: nat, k: nat, n: nat)
    requires v == f + RaiseBytes(rest, k)
    ensures LeBytes(v, k + n) == LeBytes(f, k) + LeBytes(DropBytes(v, k), n)
  {
    LeBytesSplit(v, k, n);
    LeBytesLow(f, rest, k);
  }

  /** Four words, the carry between them, and whatever lies above 2^128. */
  lemma LeBytesFour(v: nat, x0: nat, x1: nat, x2: nat, x3: nat, above: nat, f1: nat, f2: nat, f3: nat)
    requires v == x0 + 0x1_0000_0000 * x1 + 0x1_0000_0000_0000_0000 * x2
                  + 0x1_0000_0000_0000_0000_0000_0000 * x3 + 0x1_0000_0000_0000_0000_0000_0000_0000_0000 * above
    requires f1 == x1 + x0 / 0x1_0000_0000 && f2 == x2 + f1 / 0x1_0000_0000 && f3 == x3 + f2 / 0x1_0000_0000
    ensures LeBytes(v, 16) == LeBytes(x0, 4) + LeBytes(f1, 4) + LeBytes(f2, 4) + LeBytes(f3, 4)
  {
    hide LeBytes;
    var y3 := x3 + 0x1_0000_0000 * above;
    var y2 := x2 + 0x1_0000_0000 * y3;
    var y1 := x1 + 0x1_0000_0000 * y2;
    var z1, z2, z3 := f1 + 0x1_0000_0000 * y2, f2 + 0x1_0000_0000 * y3, f3 + 0x1_0000_0000 * above;
    LeBytesWord(v, x0, y1, z1, 12);
    LeBytesWord(z1, f1, y2, z2, 8);
    LeBytesWord(z2, f2, y3, z3, 4);
    LeBytesWord(z3, f3, above, f3 / 0x1_0000_0000 + above, 0);
    var a, b, c, d := LeBytes(x0, 4), LeBytes(f1, 4), LeBytes(f2, 4), LeBytes(f3, 4);
    assert a + (b + (c + (d + []))) == a + b + c + d;
  }

  lemma AddPadIs(w0: u32, w1: u32, w2: u32, w3: u32, p0: u32, p1: u32, p2: u32, p3: u32, above: nat, v: nat)
    requires v == w0 + 0x1_0000_0000 * w1 + 0x1_0000_0000_0000_0000 * w2 + 0x1_0000_0000_0000_0000_0000_0000 * w3
                  + 0x1_0000_0000_0000_0000_0000_0000_0000_0000 * above
    ensures AddPad(w0, w1, w2, w3, p0, p1, p2, p3)
         == LeBytes(v + (p0 + p1 * 0x1_0000_0000 + p2 * 0x1_0000_0000_0000_0000
                         + p3 * 0x1_0000_0000_0000_0000_0000_0000), 16)
  {
    hide LeBytes;
    var f0 := w0 + p0;
    var f1 := w1 + p1 + f0 / 0x1_0000_0000;
    var f2 := w2 + p2 + f1 / 0x1_0000_0000;
    LeBytesFour(v + (p0 + p1 * 0x1_0000_0000 + p2 * 0x1_0000_0000_0000_0000 + p3 * 0x1_0000_0000_0000_0000_0000_0000),
                f0, w1 + p1, w2 + p2, w3 + p3, above, f1, f2, w3 + p3 + f2 / 0x1_0000_0000);
  }

  /** The packed words are the value of the limbs plus the pad, modulo 2^128. */
  lemma TagWordsAre(h: Limbs, p0: u32, p1: u32, p2: u32, p3: u32)
    requires Canonical(h)
    ensures TagWords(h, p0, p1, p2, p3)
         == LeBytes(Value(h) + (p0 + p1 * 0x1_0000_0000 + p2 * 0x1_0000_0000_0000_0000
                                + p3 * 0x1_0000_0000_0000_0000_0000_0000), 16)
  {
    hide Value, AddPad, PackWord, LeBytes;
    PackBounds(h);
    PackedSum(h);
    AddPadIs(PackWord(h.l0, 0, h.l1, 26), PackWord(h.l1, 6, h.l2, 20), PackWord(h.l2, 12, h.l3, 14),
             PackWord(h.l3, 18, h.l4, 8), p0, p1, p2, p3, h.l4 / 0x100_0000, Value(h));
  }

  lemma PackedSum(h: Limbs)
    requires Canonical(h)
    ensures Value(h) == h.l0 + h.l1 % 0x40 * 0x400_0000
      + 0x1_0000_0000 * (h.l1 / 0x40 + h.l2 % 0x1000 * 0x10_0000)
      + 0x1_0000_0000_0000_0000 * (h.l2 / 0x1000 + h.l3 % 0x4_0000 * 0x4000)
      + 0x1_0000_0000_0000_0000_0000_0000 * (h.l3 / 0x4_0000 + h.l4 % 0x100_0000 * 0x100)
      + 0x1_0000_0000_0000_0000_0000_0000_0000_0000 * (h.l4 / 0x100_0000)
  {
  }
}
