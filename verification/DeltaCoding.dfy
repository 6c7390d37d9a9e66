/** Variable-length integers, and the zigzag-delta coding of 32-bit sequences built on them. */
module DeltaCoding {
  import opened Bits
  import opened Storage

  // ---------------------------------------------------------------- variable-length integers

  /** Seven bits a byte, lowest first; the high bit says that more follow. */
  function Varint(v: nat): (s: seq<u8>)
    ensures s != []
  {
    if v < 0x80 then [v] else [0x80 + v % 0x80] + Varint(v / 0x80)
  }

  /** The number the low seven bits of some bytes stand for. */
  function Number(s: seq<u8>): nat {
    if s == [] then 0 else
    var low: int := s[0] % 0x80;
    low + 0x80 * Number(s[1..])
  }

  /** A code: every byte but the last says that more follow. */
  predicate Code(s: seq<u8>) {
    s != [] && s[|s| - 1] < 0x80 && forall i :: 0 <= i < |s| - 1 ==> s[i] >= 0x80
  }

  lemma {:induction false} VarintIs(v: nat)
    ensures Code(Varint(v)) && Number(Varint(v)) == v
  {
    if v >= 0x80 {
      var s := Varint(v);
      var rest := Varint(v / 0x80);
      VarintIs(v / 0x80);
      assert s[1..] == rest && s[|s| - 1] == rest[|rest| - 1];
      assert s[0] % 0x80 == v % 0x80;
      forall i | 0 <= i < |s| - 1 ensures s[i] >= 0x80 {
        assert i > 0 ==> s[i] == rest[i - 1];
      }
    }
  }

  /** A 32-bit number takes at most five bytes, and the fifth at most its low four bits. */
  lemma VarintFits(v: u32)
    ensures |Varint(v)| <= 5 && (|Varint(v)| == 5 ==> Varint(v)[4] < 0x10)
  {
    var a := v / 0x80;
    var b := a / 0x80;
    var c := b / 0x80;
    var d := c / 0x80;
    assert d < 0x10;
    assert c >= 0x80 ==> Varint(c) == [0x80 + c % 0x80, d];
    assert |Varint(c)| <= 2 && |Varint(b)| <= 3 && |Varint(a)| <= 4;
  }

  /** Writes a number, seven bits at a time. */
  method EncodeVarint(value: u32, capacity: nat) returns (status: Status, output: seq<u8>)
    ensures status == Ok <==> |Varint(value)| <= capacity
    ensures status == Ok ==> output == Varint(value)
    ensures status == Ok || status == Enospace
  {
    var rest: nat := value;
    output := [];
    var more := true;
    while more
      invariant |output| <= capacity && (more ==> output + Varint(rest) == Varint(value))
      invariant (!more ==> output == Varint(value))
      decreases more, rest
    {
      if |output| >= capacity {
        return Enospace, output;
      }
      var low := rest % 0x80;
      ghost var was, before := rest, output;
      rest := rest / 0x80;
      more := rest != 0;
      output := output + [if more then 0x80 + low else low];
      assert more ==> before + Varint(was) == output + Varint(rest);
    }
    status := Ok;
  }

  /** How many of the first n bytes in a row say that more follow. */
  function Leading(s: seq<u8>, n: nat): (k: nat)
    ensures k <= n && k <= |s| && (forall i :: 0 <= i < k ==> s[i] >= 0x80) && (k < n && k < |s| ==> s[k] < 0x80)
  {
    if n == 0 || s == [] || s[0] < 0x80 then 0 else
    var k := Leading(s[1..], n - 1);
    assert forall i :: 1 <= i < 1 + k ==> s[i] == s[1..][i - 1];
    1 + k
  }

  /** What reading a number from the front of some bytes gives: status, number, bytes consumed. */
  function ReadVarint(s: seq<u8>): (r: (Status, nat, nat))
    ensures r.0 == Ok ==> 0 < r.2 <= |s|
  {
    var k := Leading(s, 4);
    if k == |s| then (Eagain, 0, 0)
    else if k == 4 && s[4] >= 0x10 then (Eoverflow, 0, 0)
    else (Ok, Number(s[..k + 1]), k + 1)
  }

  /**
   What can be read, exactly: a byte below 0x80 within the first five ends a number, which must fit 32 bits; fewer than
   five bytes without one are incomplete.
   */
  lemma ReadCases(s: seq<u8>)
    ensures ReadVarint(s).0 in {Ok, Eagain, Eoverflow}
    ensures ReadVarint(s).0 == Eagain <==> |s| < 5 && forall i :: 0 <= i < |s| ==> s[i] >= 0x80
    ensures ReadVarint(s).0 == Eoverflow <==> |s| >= 5 && s[4] >= 0x10 && forall i :: 0 <= i < 4 ==> s[i] >= 0x80
    ensures ReadVarint(s).0 == Ok ==>
      var n := ReadVarint(s).2;
      Code(s[..n]) && n <= 5 && ReadVarint(s).1 == Number(s[..n]) <= U32_MAX
  {
    hide Number;
    var k := Leading(s, 4);
    if ReadVarint(s).0 == Ok {
      ReadBelow(s);
    }
  }

  /** A code in front of anything is read as exactly that code. */
  lemma LeadingOfCode(c: seq<u8>, rest: seq<u8>, n: nat)
    requires Code(c) && |c| <= n + 1
    ensures Leading(c + rest, n) == |c| - 1
  {
    LeadingIs(c + rest, n, |c| - 1);
  }

  lemma ReadsBack(v: u32, rest: seq<u8>)
    ensures ReadVarint(Varint(v) + rest) == (Ok, v, |Varint(v)|)
  {
    hide Varint, Number;
    var c := Varint(v);
    VarintIs(v);
    VarintFits(v);
    LeadingOfCode(c, rest, 4);
    assert (c + rest)[..|c|] == c;
    if |c| == 5 {
      assert (c + rest)[4] == c[4];
    }
  }

  lemma {:induction false} NumberLast(s: seq<u8>, b: u8)
    ensures Number(s + [b]) == Number(s) + (b % 0x80) * Pow2(7 * |s|)
    decreases |s|
  {
    if s == [] {
      assert (s + [b])[1..] == [];
      assert Number([b]) == b % 0x80;
    } else {
      NumberLast(s[1..], b);
      assert (s + [b])[1..] == s[1..] + [b];
      PowAdd(7, 7 * |s[1..]|);
      SevenBits();
      var m: int, x: int := Pow2(7 * |s[1..]|), b % 0x80;
      MulSwap(x, m);
    }
  }

  lemma SevenBits()
    ensures Pow2(7) == 0x80
  {
    assert Pow2(3) == 8 && Pow2(5) == 32;
  }

  lemma MulSwap(x: int, m: int)
    ensures 0x80 * (x * m) == x * (0x80 * m)
  {
  }

  lemma {:induction false} NumberBelow(s: seq<u8>)
    ensures Number(s) < Pow2(7 * |s|)
    decreases |s|
  {
    if s != [] {
      NumberBelow(s[1..]);
      PowAdd(7, 7 * |s[1..]|);
      SevenBits();
    }
  }

  /** Reads a number byte by byte. */
  method DecodeVarint(input: seq<u8>) returns (status: Status, value: nat, consumed: nat)
    ensures (status, value, consumed) == ReadVarint(input)
    ensures status == Ok ==> value <= U32_MAX
  {
    hide Number, Leading, Pow2, Or;
    var result := 0;
    var i := 0;
    NumberNone();
    while i < |input| && i < 5
      invariant 0 <= i <= |input| && i <= 5 && result == Number(input[..i])
      invariant forall j :: 0 <= j < i ==> input[j] >= 0x80
      invariant i == 5 ==> input[4] < 0x10
    {
      var byte := input[i];
      if i == 4 && byte >= 0x10 {
        LeadingIs(input, 4, 4);
        return Eoverflow, 0, 0;
      }
      NumberLast(input[..i], byte);
      NumberBelow(input[..i]);
      OrDisjoint(result, byte % 0x80, 7 * i);
      assert input[..i + 1] == input[..i] + [byte];
      result := Or(result, (byte % 0x80) * Pow2(7 * i));
      if byte < 0x80 {
        LeadingIs(input, 4, i);
        FiveBytes(input[..i + 1]);
        return Ok, result, i + 1;
      }
      i := i + 1;
    }
    LeadingIs(input, 4, i);
    return Eagain, 0, 0;
  }

  lemma NumberNone()
    ensures Number([]) == 0
  {
  }

  lemma {:induction false} LeadingIs(s: seq<u8>, n: nat, k: nat)
    requires k <= n && k <= |s| && (forall i :: 0 <= i < k ==> s[i] >= 0x80) && (k < n && k < |s| ==> s[k] < 0x80)
    ensures Leading(s, n) == k
    decreases n
  {
    if k > 0 {
      LeadingIs(s[1..], n - 1, k - 1);
    }
  }

  lemma FiveBytes(s: seq<u8>)
    requires 0 < |s| <= 5 && (|s| == 5 ==> s[4] < 0x10)
    ensures Number(s) <= U32_MAX
  {
    hide Number, Pow2;
    var n := |s| - 1;
    assert s == s[..n] + [s[n]];
    NumberLast(s[..n], s[n]);
    NumberBelow(s[..n]);
    SevenPowers();
  }

  lemma ReadBelow(s: seq<u8>)
    ensures ReadVarint(s).0 == Ok ==> ReadVarint(s).1 <= U32_MAX
  {
    hide Number, Leading;
    if ReadVarint(s).0 == Ok {
      FiveBytes(s[..Leading(s, 4) + 1]);
    }
  }

  lemma SevenPowers()
    ensures Pow2(0) == 1 && Pow2(7) == 0x80 && Pow2(14) == 0x4000 && Pow2(21) == 0x20_0000 && Pow2(28) == 0x1000_0000
  {
    PowerTable();
    SevenBits();
    PowAdd(14, 7);
    PowAdd(14, 14);
  }

  // ---------------------------------------------------------------- zigzag

  type i32 = x: int | -0x8000_0000 <= x < 0x8000_0000

  /** The 32-bit pattern of a signed number. */
  function Pattern(x: i32): u32 {
    x % 0x1_0000_0000
  }

  function Signed(x: u32): i32 {
    if x < 0x8000_0000 then x else x - 0x1_0000_0000
  }

  /** Shifted left by one and, for a negative number, complemented. */
  function ZigzagEncode(x: i32): u32 {
    var shifted := 2 * Pattern(x) % 0x1_0000_0000;
    if x < 0 then U32_MAX - shifted else shifted
  }

  /** Shifted right by one and, for an odd number, complemented. */
  function ZigzagDecode(v: u32): i32 {
    Signed(if v % 2 == 1 then U32_MAX - v / 2 else v / 2)
  }

  lemma ZigzagBack(x: i32)
    ensures ZigzagDecode(ZigzagEncode(x)) == x
    ensures ZigzagEncode(x) == if x >= 0 then 2 * x else -2 * x - 1
  {
    if x < 0 {
      assert Pattern(x) == x + 0x1_0000_0000;
      assert 2 * Pattern(x) == 2 * x + 0x1_0000_0000 + 0x1_0000_0000;
      DivModUnique(2 * Pattern(x), 0x1_0000_0000, 1, 2 * x + 0x1_0000_0000);
    }
  }

  // ---------------------------------------------------------------- deltas

  function Delta(value: u32, previous: u32): i32 {
    Signed((value - previous) % 0x1_0000_0000)
  }

  /** Adding the difference back, modulo 2^32. */
  function Added(previous: u32, delta: i32): u32 {
    (previous + Pattern(delta)) % 0x1_0000_0000
  }

  lemma DeltaBack(value: u32, previous: u32)
    ensures Added(previous, Delta(value, previous)) == value
    ensures (value - previous - Delta(value, previous)) % 0x1_0000_0000 == 0
  {
    var w := (value - previous) % 0x1_0000_0000;
    assert Pattern(Signed(w)) == w;
    var q := (value - previous) / 0x1_0000_0000;
    assert previous + w == value - q * 0x1_0000_0000;
    DivModUnique(previous + w, 0x1_0000_0000, -q, value);
  }

  /** The coded form: each value by its zigzag difference to the one before. */
  function Coded(values: seq<u32>, previous: u32): seq<u8> {
    if values == [] then [] else Varint(ZigzagEncode(Delta(values[0], previous))) + Coded(values[1..], values[0])
  }

  /** The values of a coded string, up to the first error. */
  function Decoded(s: seq<u8>, previous: u32): (Status, seq<u32>) {
    if s == [] then (Ok, [])
    else
      var (status, v, n) := ReadVarint(s);
      if status != Ok then (status, [])
      else
        ReadBelow(s);
        var value := Added(previous, ZigzagDecode(v));
        var rest := Decoded(s[n..], value);
        (rest.0, [value] + rest.1)
  }

  /** Decoding the coded form gives the values back, whatever they are. */
  lemma {:induction false} DeltaRoundTrip(values: seq<u32>, previous: u32)
    ensures Decoded(Coded(values, previous), previous) == (Ok, values)
    decreases |values|
  {
    hide Varint, ReadVarint, ZigzagEncode, ZigzagDecode, Delta, Added;
    if values != [] {
      var d := Delta(values[0], previous);
      var code, rest := Varint(ZigzagEncode(d)), Coded(values[1..], values[0]);
      ReadsBack(ZigzagEncode(d), rest);
      ZigzagBack(d);
      DeltaBack(values[0], previous);
      assert (code + rest)[|code|..] == rest;
      DeltaRoundTrip(values[1..], values[0]);
      assert [values[0]] + values[1..] == values;
    }
  }

  lemma {:induction false} CodedLength(values: seq<u32>, previous: u32)
    ensures |Coded(values, previous)| <= 5 * |values|
    decreases |values|
  {
    if values != [] {
      VarintFits(ZigzagEncode(Delta(values[0], previous)));
      CodedLength(values[1..], values[0]);
    }
  }

  lemma {:induction false} CodedNext(values: seq<u32>, previous: u32, v: u32)
    ensures Coded(values + [v], previous) ==
      Coded(values, previous) + Varint(ZigzagEncode(Delta(v, if values == [] then previous else values[|values| - 1])))
    decreases |values|
  {
    hide Varint, ZigzagEncode, Delta;
    if values == [] {
      assert (values + [v])[1..] == [];
      var last := Varint(ZigzagEncode(Delta(v, previous)));
      assert last + [] == last && [] + last == last;
    } else {
      assert (values + [v])[1..] == values[1..] + [v];
      CodedNext(values[1..], values[0], v);
    }
  }

  /** Codes values into a buffer; five bytes a value always suffice. */
  method EncodeDeltas(values: seq<u32>, capacity: nat) returns (status: Status, output: seq<u8>)
    ensures status == Ok <==> |Coded(values, 0)| <= capacity
    ensures status == Ok ==> output == Coded(values, 0)
    ensures capacity >= 5 * |values| ==> status == Ok
  {
    hide Varint, ZigzagEncode, Delta;
    output := [];
    var previous: u32 := 0;
    var i := 0;
    CodedLength(values, 0);
    while i < |values|
      invariant 0 <= i <= |values| && output == Coded(values[..i], 0) && |output| <= capacity
      invariant previous == if i == 0 then 0 else values[i - 1]
    {
      var zigzag := ZigzagEncode(Delta(values[i], previous));
      VarintFits(zigzag);
      var encoded;
      status, encoded := EncodeVarint(zigzag, 5);
      CodedNext(values[..i], 0, values[i]);
      assert values[..i] + [values[i]] == values[..i + 1];
      CodedGrows(values, i + 1, 0);
      if |encoded| > capacity - |output| {
        return Enospace, output;
      }
      output := output + encoded;
      previous := values[i];
      i := i + 1;
    }
    assert values[..i] == values;
    status := Ok;
  }

  lemma {:induction false} CodedGrows(values: seq<u32>, i: nat, previous: u32)
    requires i <= |values|
    ensures |Coded(values[..i], previous)| <= |Coded(values, previous)|
    decreases |values| - i
  {
    hide Varint;
    if i < |values| {
      CodedGrows(values, i + 1, previous);
      CodedNext(values[..i], previous, values[i]);
      assert values[..i] + [values[i]] == values[..i + 1];
    } else {
      assert values[..i] == values;
    }
  }

  /** Decodes a buffer of deltas; errors end it, and so does a full result buffer. */
  method DecodeDeltas(input: seq<u8>, capacity: nat) returns (status: Status, values: seq<u32>)
    ensures status == Ok <==> Decoded(input, 0).0 == Ok && |Decoded(input, 0).1| <= capacity
    ensures status == Ok ==> values == Decoded(input, 0).1
    ensures status != Ok ==> status == Enospace || status == Decoded(input, 0).0
  {
    hide ReadVarint, ZigzagDecode, Added;
    values := [];
    var previous: u32 := 0;
    var at := 0;
    assert input[0..] == input;
    while at < |input|
      invariant 0 <= at <= |input| && |values| <= capacity
      invariant Decoded(input, 0).0 == Decoded(input[at..], previous).0
      invariant Decoded(input, 0).1 == values + Decoded(input[at..], previous).1
    {
      ghost var rest := input[at..];
      if |values| >= capacity {
        DecodedSome(rest, previous);
        return Enospace, values;
      }
      var v, consumed;
      status, v, consumed := DecodeVarint(input[at..]);
      if status != Ok {
        return;
      }
      previous := Added(previous, ZigzagDecode(v));
      values := values + [previous];
      assert rest[consumed..] == input[at + consumed..];
      at := at + consumed;
    }
    assert input[at..] == [];
    status := Ok;
  }

  lemma DecodedSome(s: seq<u8>, previous: u32)
    requires s != []
    ensures Decoded(s, previous).0 == Ok ==> Decoded(s, previous).1 != []
  {
  }

  /** Whatever was coded comes back, wrap-around differences included. */
  method RoundTrip(values: seq<u32>, capacity: nat, room: nat) returns (status: Status, back: seq<u32>)
    requires capacity >= 5 * |values| && room >= |values|
    ensures status == Ok && back == values
  {
    var coded;
    status, coded := EncodeDeltas(values, capacity);
    DeltaRoundTrip(values, 0);
    status, back := DecodeDeltas(coded, room);
  }
}
