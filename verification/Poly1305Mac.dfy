/** The incremental Poly1305 context: init, update in arbitrary chunks, finish. */
module Poly1305Mac {
  import opened Bits
  import opened Words
  import opened Poly1305

  // ---------------------------------------------------------------- the reference, block by block

  lemma Power128()
    ensures Pow2(128) == 0x1_0000_0000_0000_0000_0000_0000_0000_0000
  {
    PowerTable();
    PowAdd(32, 32);
    PowAdd(64, 64);
  }

  /** A last block, whole or short. */
  lemma HornerLast(r: nat, acc: nat, m: seq<u8>)
    requires 0 < |m| <= 16
    ensures Horner(r, acc, m) == Absorb(r, acc, Le(m) + Pow2(8 * |m|))
  {
    hide Absorb;
    assert m[..|m|] == m && m[|m|..] == [];
  }

  /** Whole blocks can be absorbed first. */
  lemma {:induction false} HornerSplit(r: nat, acc: nat, a: seq<u8>, b: seq<u8>)
    requires |a| % 16 == 0
    ensures Horner(r, acc, a + b) == Horner(r, Horner(r, acc, a), b)
    decreases |a|
  {
    hide Absorb, Le, Pow2;
    if a == [] {
      assert a + b == b;
    } else {
      assert (a + b)[..16] == a[..16] && (a + b)[16..] == a[16..] + b;
      HornerSplit(r, Absorb(r, acc, Le(a[..16]) + Pow2(8 * 16)), a[16..], b);
    }
  }

  lemma {:induction false} LeZeros(s: seq<u8>)
    requires forall i :: 0 <= i < |s| ==> s[i] == 0
    ensures Le(s) == 0
  {
    if s != [] {
      LeZeros(s[1..]);
    }
  }

  /** The padded last block: the message, a one byte, zeros. */
  lemma {:induction false} LePadded(s: seq<u8>, n: nat)
    requires n < |s| && s[n] == 1 && forall i :: n < i < |s| ==> s[i] == 0
    ensures Le(s) == Le(s[..n]) + Pow2(8 * n)
    decreases n
  {
    if n == 0 {
      LeZeros(s[1..]);
    } else {
      LePadded(s[1..], n - 1);
      assert s[1..][..n - 1] == s[..n][1..];
      PowAdd(8, 8 * (n - 1));
      PowerTable();
    }
  }

  lemma PadWords(key: seq<u8>)
    requires |key| == 32
    ensures Le(key[16..]) == ReadU32(key, 16) + ReadU32(key, 20) * 0x1_0000_0000
                             + ReadU32(key, 24) * 0x1_0000_0000_0000_0000
                             + ReadU32(key, 28) * 0x1_0000_0000_0000_0000_0000_0000
  {
    Le16(key[16..]);
  }

  lemma ResidueSmall(v: nat)
    requires v < P
    ensures v % P == v
  {
    DivModUnique(v, P, 0, v);
  }

  lemma ZeroValue(h: Limbs)
    requires h.l0 == 0 && h.l1 == 0 && h.l2 == 0 && h.l3 == 0 && h.l4 == 0
    ensures Value(h) == 0
  {
  }

  class Context {
    var r: Limbs
    var h: Limbs
    var pad0: u32
    var pad1: u32
    var pad2: u32
    var pad3: u32
    const buffer: array<u8>
    var leftover: nat
    var final: bool
    ghost var key: seq<u8>
    ghost var blocks: seq<u8>

    /** What every block keeps: limb bounds, and the accumulator of all whole blocks absorbed so far. */
    ghost predicate Core()
      reads this`r, this`h, this`pad0, this`pad1, this`pad2, this`pad3, this`final, this`key, this`blocks
    {
      && |key| == 32 && !final
      && Clamped(r) && Value(r) == Multiplier(key) && Reduced(h)
      && pad0 == ReadU32(key, 16) && pad1 == ReadU32(key, 20) && pad2 == ReadU32(key, 24) && pad3 == ReadU32(key, 28)
      && |blocks| % 16 == 0
      && Value(h) % P == Horner(Multiplier(key), 0, blocks)
    }

    ghost predicate Valid()
      reads this
    {
      Core() && buffer.Length == 16 && leftover < 16
    }

    /** Every message byte given so far: whole blocks, then the bytes still waiting. */
    ghost function Absorbed(): seq<u8>
      reads this, buffer
      requires leftover <= buffer.Length
    {
      blocks + buffer[..leftover]
    }

    constructor (k: seq<u8>)
      requires |k| == 32
      ensures Valid() && fresh(buffer) && key == k && Absorbed() == []
    {
      hide Multiplier, KeyLimbs, ReadU32, Clamped, Value;
      r := KeyLimbs(k);
      h := Limbs(0, 0, 0, 0, 0);
      pad0, pad1, pad2, pad3 := ReadU32(k, 16), ReadU32(k, 20), ReadU32(k, 24), ReadU32(k, 28);
      buffer := new u8[16];
      leftover := 0;
      final := false;
      key := k;
      blocks := [];
      new;
      KeyValue(k);
      ZeroValue(h);
      ResidueSmall(Value(h));
    }

    /** Absorbs the whole 16-byte blocks of `message`; a remainder shorter than a block is not read. */
    method Blocks(message: seq<u8>)
      requires Reduced(h) && Clamped(r)
      modifies this`h
      ensures Reduced(h)
      ensures !final ==> Value(h) % P == Horner(Value(r), old(Value(h) % P), message[..|message| - |message| % 16])
      ensures final && |message| == 16 ==> Value(h) % P == Absorb(Value(r), old(Value(h) % P), Le(message))
    {
      hide Value, Reduced, Clamped, BlockStep, Le, Pow2, Absorb;
      var hibit: u32 := if final then 0 else 0x100_0000;
      var at := 0;
      ghost var start := Value(h) % P;
      ghost var rv := Value(r);
      Power128();
      while |message| - at >= 16
        invariant 0 <= at <= |message| && at % 16 == 0
        invariant Reduced(h)
        invariant !final ==> Value(h) % P == Horner(rv, start, message[..at])
        invariant final && at == 0 ==> Value(h) % P == start
        invariant final && at == 16 ==> Value(h) % P == Absorb(rv, start, Le(message[..16]))
      {
        var m := message[at..at + 16];
        ghost var acc := Value(h) % P;
        ghost var n := Le(m) + hibit * 0x100_0000_0000_0000_0000_0000_0000;
        BlockStepValue(h, r, m, hibit, acc, n, rv);
        h := BlockStep(h, r, m, hibit);
        if !final {
          HornerLast(rv, acc, m);
          HornerSplit(rv, start, message[..at], m);
          assert message[..at] + m == message[..at + 16];
        }
        at := at + 16;
      }
      assert at == |message| - |message| % 16;
      assert |message| == 16 ==> message[..16] == message;
    }

    /** Absorbs one more chunk of the message, of any length. */
    method Update(message: seq<u8>)
      requires Valid()
      modifies this`h, this`leftover, this`blocks, buffer
      ensures Valid() && key == old(key) && Absorbed() == old(Absorbed()) + message
    {
      hide Core;
      var at := 0;
      if leftover > 0 {
        at := TopUp(message);
      }
      assert message == message[..at] + message[at..];
      if leftover == 0 {
        TakeRest(message[at..]);
      }
    }

    /** Absorbs the whole blocks of `rest` and keeps its tail waiting. */
    method TakeRest(rest: seq<u8>)
      requires Valid() && leftover == 0
      modifies this`h, this`leftover, this`blocks, buffer
      ensures Valid() && Absorbed() == old(Absorbed()) + rest
    {
      hide Core;
      var want := |rest| - |rest| % 16;
      AbsorbBlocks(rest[..want]);
      var tail := rest[want..];
      Copy(0, tail);
      leftover := |tail|;
      assert buffer[..leftover] == tail;
      assert rest == rest[..want] + tail;
    }

    /** Fills the waiting block from the front of `message`, and absorbs it once it is whole. */
    method TopUp(message: seq<u8>) returns (want: nat)
      requires Valid() && leftover > 0
      modifies this`h, this`leftover, this`blocks, buffer
      ensures Valid() && want <= |message| && Absorbed() == old(Absorbed()) + message[..want]
      ensures leftover > 0 ==> want == |message|
    {
      hide Core;
      want := 16 - leftover;
      if want > |message| {
        want := |message|;
      }
      Copy(leftover, message[..want]);
      assert buffer[..leftover + want] == old(buffer[..leftover]) + message[..want];
      leftover := leftover + want;
      if leftover == 16 {
        AbsorbBlocks(buffer[..]);
        leftover := 0;
      }
    }

    /** Runs the block function on whole blocks and records them as absorbed. */
    method AbsorbBlocks(message: seq<u8>)
      requires Core() && |message| % 16 == 0
      modifies this`h, this`blocks
      ensures Core() && blocks == old(blocks) + message
    {
      hide Value, Reduced, Clamped, Multiplier, Horner, ReadU32;
      Blocks(message);
      assert message[..|message| - |message| % 16] == message;
      HornerSplit(Multiplier(key), 0, blocks, message);
      blocks := blocks + message;
    }

    /** Writes `bytes` into the buffer at `position`. */
    method Copy(position: nat, bytes: seq<u8>)
      requires buffer.Length == 16 && position + |bytes| <= 16
      modifies buffer
      ensures buffer[..position] == old(buffer[..position])
      ensures buffer[position..position + |bytes|] == bytes
    {
      var i := 0;
      while i < |bytes|
        invariant 0 <= i <= |bytes|
        invariant buffer[..position] == old(buffer[..position])
        invariant buffer[position..position + i] == bytes[..i]
      {
        buffer[position + i] := bytes[i];
        i := i + 1;
      }
    }

    /** Pads and absorbs what is left, reduces fully, and adds the second half of the key. */
    method Finish() returns (tag: seq<u8>)
      requires Valid()
      modifies this`h, this`leftover, this`final, buffer
      ensures tag == Tag(old(key), old(Absorbed()))
    {
      hide Value, Reduced, Clamped, Multiplier, Horner, Absorb, Le, Pow2, ReadU32, LeBytes, Canonical, TagWords,
           SubtractPrime, CarryFull;
      ghost var message := Absorbed();
      FinishBlocks();
      FreezeValue(h);
      var f := SubtractPrime(CarryFull(h));
      TagWordsAre(f, pad0, pad1, pad2, pad3);
      PadWords(key);
      tag := TagWords(f, pad0, pad1, pad2, pad3);
    }

    /** Absorbs the short last block, if there is one. */
    method FinishBlocks()
      requires Valid()
      modifies this`h, this`leftover, this`final, buffer
      ensures Reduced(h) && Value(h) % P == Horner(Multiplier(key), 0, old(Absorbed()))
    {
      hide Value, Reduced, Clamped, Multiplier, Horner, Absorb, Le, Pow2, ReadU32;
      ghost var tail := buffer[..leftover];
      HornerSplit(Multiplier(key), 0, blocks, tail);
      if leftover > 0 {
        PadBuffer();
        final := true;
        Blocks(buffer[..]);
        LePadded(buffer[..], |tail|);
        assert buffer[..][..|tail|] == tail;
        HornerLast(Multiplier(key), Horner(Multiplier(key), 0, blocks), tail);
      } else {
        assert blocks + tail == blocks;
      }
    }

    /** Appends the one byte and zeros up to the block size. */
    method PadBuffer()
      requires buffer.Length == 16 && 0 < leftover < 16
      modifies this`leftover, buffer
      ensures leftover == 16
      ensures buffer[..old(leftover)] == old(buffer[..leftover]) && buffer[old(leftover)] == 1
      ensures forall i :: old(leftover) < i < 16 ==> buffer[i] == 0
    {
      buffer[leftover] := 1;
      leftover := leftover + 1;
      while leftover < 16
        invariant old(leftover) < leftover <= 16
        invariant buffer[..old(leftover)] == old(buffer[..leftover]) && buffer[old(leftover)] == 1
        invariant forall i :: old(leftover) < i < leftover ==> buffer[i] == 0
      {
        buffer[leftover] := 0;
        leftover := leftover + 1;
      }
    }
  }

  /** All the chunks, one after the other. */
  function Concat(chunks: seq<seq<u8>>): seq<u8> {
    if chunks == [] then [] else Concat(chunks[..|chunks| - 1]) + chunks[|chunks| - 1]
  }

  /** Any way of cutting the message into updates gives the tag of the whole message. */
  method Authenticate(key: seq<u8>, chunks: seq<seq<u8>>) returns (tag: seq<u8>)
    requires |key| == 32
    ensures tag == Tag(key, Concat(chunks))
  {
    var context := new Context(key);
    var i := 0;
    while i < |chunks|
      invariant 0 <= i <= |chunks| && fresh(context) && fresh(context.buffer)
      invariant context.Valid() && context.key == key && context.Absorbed() == Concat(chunks[..i])
    {
      assert chunks[..i + 1][..i] == chunks[..i];
      context.Update(chunks[i]);
      i := i + 1;
    }
    assert chunks[..i] == chunks;
    tag := context.Finish();
  }
}
