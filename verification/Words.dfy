/** Little-endian words in byte strings. */
module Words {
  import opened Bits

  function ReadU16(s: seq<u8>, i: nat): u16
    requires i + 2 <= |s|
  {
    var b0: int, b1: int := s[i], s[i + 1];
    b0 + 0x100 * b1
  }

  function ReadU32(s: seq<u8>, i: nat): u32
    requires i + 4 <= |s|
  {
    var b0: int, b1: int, b2: int, b3: int := s[i], s[i + 1], s[i + 2], s[i + 3];
    b0 + 0x100 * b1 + 0x1_0000 * b2 + 0x100_0000 * b3
  }

  function U16Bytes(x: u16): (s: seq<u8>)
    ensures |s| == 2 && ReadU16(s, 0) == x
  {
    [x % 0x100, x / 0x100]
  }

  function U32Bytes(x: u32): (s: seq<u8>)
    ensures |s| == 4 && ReadU32(s, 0) == x
  {
    var a := x / 0x100;
    var b := a / 0x100;
    [x % 0x100, a % 0x100, b % 0x100, b / 0x100]
  }

  /** A word depends only on its own bytes. */
  lemma ReadU32Same(s: seq<u8>, i: nat, t: seq<u8>, j: nat)
    requires i + 4 <= |s| && j + 4 <= |t| && s[i..i + 4] == t[j..j + 4]
    ensures ReadU32(s, i) == ReadU32(t, j)
  {
    assert s[i] == s[i..i + 4][0] && s[i + 1] == s[i..i + 4][1] && s[i + 2] == s[i..i + 4][2]
      && s[i + 3] == s[i..i + 4][3];
    assert t[j] == t[j..j + 4][0] && t[j + 1] == t[j..j + 4][1] && t[j + 2] == t[j..j + 4][2]
      && t[j + 3] == t[j..j + 4][3];
  }

  lemma BytesOfRead16(s: seq<u8>, i: nat)
    requires i + 2 <= |s|
    ensures U16Bytes(ReadU16(s, i)) == s[i..i + 2]
  {
    var a: int, b: int := s[i], s[i + 1];
    DivModUnique(a + 0x100 * b, 0x100, b, a);
  }

  /** Splitting a word into bytes undoes reading it. */
  lemma BytesOfRead(s: seq<u8>, i: nat)
    requires i + 4 <= |s|
    ensures U32Bytes(ReadU32(s, i)) == s[i..i + 4]
  {
    var a: int, b: int, c: int, d: int := s[i], s[i + 1], s[i + 2], s[i + 3];
    var x: int := ReadU32(s, i);
    assert x == a + 0x100 * (b + 0x100 * (c + 0x100 * d));
    DivModUnique(x, 0x100, b + 0x100 * (c + 0x100 * d), a);
    DivModUnique(b + 0x100 * (c + 0x100 * d), 0x100, c + 0x100 * d, b);
    DivModUnique(c + 0x100 * d, 0x100, d, c);
  }
}
