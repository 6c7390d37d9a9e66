/**
 The retained fault record: forty words written by the fault handler, three checksums and the magic last. The
 processor may reset between any two word stores.
 */
module FaultRecord {
  import opened Bits
  import opened SlotCommit

  const MAGIC: u32 := 0x4d534c53
  const VERSION: u32 := 3
  const WORDS: nat := 40
  const SUM: nat := 9
  const EXTENSION_SUM: nat := 17
  const CONTEXT_SUM: nat := 39

  /** Checksums over words stay abstract too. */
  type WordSum = seq<u32> -> u32

  /** The words of a fault: registers and build, fault details, architecture context. */
  datatype Fault = Fault(head: seq<u32>, details: seq<u32>, context: seq<u32>)

  predicate Shaped(f: Fault) {
    |f.head| == 7 && |f.details| == 7 && |f.context| == 21
  }

  function Zeros(n: nat): (s: seq<u32>)
    ensures |s| == n
  {
    seq(n, _ => 0)
  }

  /** Words 1 to 39 with the given checksums. */
  function Image(f: Fault, a: u32, b: u32, c: u32): (s: seq<u32>)
    requires Shaped(f)
    ensures |s| == WORDS - 1
  {
    [VERSION] + f.head + [a] + f.details + [b] + f.context + [c]
  }

  /** The committed record. */
  function Committed(sum: WordSum, f: Fault): (s: seq<u32>)
    requires Shaped(f)
    ensures |s| == WORDS
  {
    var a := sum([MAGIC, VERSION] + f.head);
    var b := sum([MAGIC, VERSION] + f.head + [a] + f.details);
    var c := sum([MAGIC, VERSION] + f.head + [a] + f.details + [b] + f.context);
    [MAGIC] + Image(f, a, b, c)
  }

  /** Reads a record of any of the three versions; older ones lack the later fields. */
  function ReadFault(sum: WordSum, w: seq<u32>): (r: Option<Fault>)
    requires |w| == WORDS
    ensures r.Some? ==> Shaped(r.value)
  {
    var first := w[SUM] == sum(w[..SUM]);
    var second := w[EXTENSION_SUM] == sum(w[..EXTENSION_SUM]);
    var third := w[CONTEXT_SUM] == sum(w[..CONTEXT_SUM]);
    if w[0] != MAGIC then None
    else if w[1] == 1 then
      if first then Some(Fault(w[2..9], Zeros(7), Zeros(21))) else None
    else if w[1] == 2 then
      if first && second then Some(Fault(w[2..9], w[10..17], Zeros(21))) else None
    else if w[1] == VERSION then
      if first && second && third then Some(Fault(w[2..9], w[10..17], w[18..39])) else None
    else None
  }

  /** The committed record is read back as the fault it was made from. */
  lemma CommittedReadsBack(sum: WordSum, f: Fault)
    requires Shaped(f)
    ensures ReadFault(sum, Committed(sum, f)) == Some(f)
  {
    var w := Committed(sum, f);
    var a := sum([MAGIC, VERSION] + f.head);
    var b := sum([MAGIC, VERSION] + f.head + [a] + f.details);
    assert w[..SUM] == [MAGIC, VERSION] + f.head;
    assert w[..EXTENSION_SUM] == [MAGIC, VERSION] + f.head + [a] + f.details;
    assert w[..CONTEXT_SUM] == [MAGIC, VERSION] + f.head + [a] + f.details + [b] + f.context;
    assert w[2..9] == f.head && w[10..17] == f.details && w[18..39] == f.context;
  }

  /** What the first words of a record of some version are, up to and including its first, second or third checksum. */
  function Sealed(sum: WordSum, version: u32, f: Fault, parts: nat): seq<u32> {
    if parts == 0 then [MAGIC, version]
    else
      var front := Sealed(sum, version, f, parts - 1) + (if parts == 1 then f.head else if parts == 2 then f.details
                                                         else f.context);
      front + [sum(front)]
  }

  /** Nothing but such words is read as a fault: one part in version 1, two in version 2 and three in version 3. */
  lemma ReadIff(sum: WordSum, w: seq<u32>, f: Fault)
    requires |w| == WORDS && Shaped(f)
    ensures ReadFault(sum, w) == Some(f) <==>
      || w == Sealed(sum, 3, f, 3)
      || (w[..18] == Sealed(sum, 2, f, 2) && f.context == Zeros(21))
      || (w[..10] == Sealed(sum, 1, f, 1) && f.details == Zeros(7) && f.context == Zeros(21))
  {
    hide Zeros;
    SealedParts(sum, 1, w, f);
    SealedParts(sum, 2, w, f);
    SealedParts(sum, 3, w, f);
  }

  lemma SealedParts(sum: WordSum, version: u32, w: seq<u32>, f: Fault)
    requires |w| == WORDS && Shaped(f)
    ensures w[..10] == Sealed(sum, version, f, 1) <==>
      w[0] == MAGIC && w[1] == version && w[2..9] == f.head && w[9] == sum(w[..9])
    ensures w[..18] == Sealed(sum, version, f, 2) <==>
      w[..10] == Sealed(sum, version, f, 1) && w[10..17] == f.details && w[17] == sum(w[..17])
    ensures w == Sealed(sum, version, f, 3) <==>
      w[..18] == Sealed(sum, version, f, 2) && w[18..39] == f.context && w[39] == sum(w[..39])
  {
    assert Sealed(sum, version, f, 0) == [MAGIC, version];
    OnePart(sum, [MAGIC, version], f.head, w);
    OnePart(sum, Sealed(sum, version, f, 1), f.details, w);
    OnePart(sum, Sealed(sum, version, f, 2), f.context, w);
    assert w[..2] == [w[0], w[1]] && w[..40] == w;
  }

  lemma OnePart(sum: WordSum, front: seq<u32>, part: seq<u32>, w: seq<u32>)
    requires |front| + |part| < |w|
    ensures var n, m := |front|, |front| + |part|;
      w[..m + 1] == front + part + [sum(front + part)] <==> w[..n] == front && w[n..m] == part && w[m] == sum(w[..m])
  {
    var n, m := |front|, |front| + |part|;
    assert w[..m + 1] == w[..n] + w[n..m] + [w[m]] && w[..m] == w[..n] + w[n..m];
    var all := front + part + [sum(front + part)];
    assert all[..n] == front && all[n..m] == part && all[m] == sum(front + part);
  }

  class Record {
    const sum: WordSum
    const words: array<u32>
    var power: nat   // word stores left before the reset

    predicate Ready() {
      words.Length == WORDS
    }

    function Held(): Option<Fault>
      requires Ready()
      reads words
    {
      ReadFault(sum, words[..])
    }

    /** Retained memory as found at reset. */
    constructor (checksum: WordSum, area: array<u32>)
      requires area.Length == WORDS
      ensures Ready() && sum == checksum && words == area && power == 0
    {
      sum, words, power := checksum, area, 0;
    }

    /** One word store, lost after the reset. */
    method Poke(at: nat, v: u32)
      requires at < words.Length
      modifies this`power, words
      ensures power == if old(power) == 0 then 0 else old(power) - 1
      ensures words[..] == if old(power) == 0 then old(words[..]) else old(words[..])[at := v]
    {
      if power > 0 {
        power := power - 1;
        words[at] := v;
      }
    }

    /** Stores consecutive words from position 1. */
    method Fill(src: seq<u32>)
      requires 1 + |src| <= words.Length
      modifies this`power, words
      ensures words[0] == old(words[0])
      ensures power == if old(power) < |src| then 0 else old(power) - |src|
      ensures old(power) >= |src| ==> words[..] == old(words[..1]) + src + old(words[1 + |src|..])
      ensures old(power) == 0 ==> words[..] == old(words[..])
    {
      var i := 0;
      while i < |src|
        invariant 0 <= i <= |src| && words[0] == old(words[0])
        invariant power == if old(power) < i then 0 else old(power) - i
        invariant old(power) >= i ==> words[..] == old(words[..1]) + src[..i] + old(words[1 + i..])
        invariant old(power) == 0 ==> words[..] == old(words[..])
      {
        ghost var before := words[..];
        Poke(1 + i, src[i]);
        if old(power) > i {
          assert src[..i + 1] == src[..i] + [src[i]];
          assert before[1 + i := src[i]] == old(words[..1]) + src[..i + 1] + old(words[1 + i + 1..]);
        }
        i := i + 1;
      }
      assert src[..i] == src;
    }

    /** Stores a fault: a reset at any point leaves the record as it was, unreadable, or complete. */
    method Store(f: Fault)
      requires Ready() && Shaped(f)
      modifies this`power, words
      ensures Held() == if old(power) == 0 then old(Held()) else if old(power) < 44 then None else Some(f)
    {
      hide ReadFault, Committed;
      CommittedReadsBack(sum, f);
      CommittedMagic(sum, f);
      Poke(0, 0);
      NoMagic(sum, words[..]);
      StoreBody(f);
      NoMagic(sum, words[..]);
      Poke(0, MAGIC);
    }

    /** Everything but the magic: the fields with empty checksums, and then the three checksums. */
    method StoreBody(f: Fault)
      requires Ready() && Shaped(f)
      modifies this`power, words
      ensures words[0] == old(words[0]) && power == if old(power) < 42 then 0 else old(power) - 42
      ensures old(power) == 0 ==> words[..] == old(words[..])
      ensures old(power) >= 42 ==> words[..] == old(words[..1]) + Committed(sum, f)[1..]
    {
      hide Image;
      Fill(Image(f, 0, 0, 0));
      ghost var filled := words[..];
      var first := sum([MAGIC, VERSION] + f.head);
      Poke(SUM, first);
      var second := sum([MAGIC, VERSION] + f.head + [first] + f.details);
      Poke(EXTENSION_SUM, second);
      var third := sum([MAGIC, VERSION] + f.head + [first] + f.details + [second] + f.context);
      Poke(CONTEXT_SUM, third);
      if old(power) >= 42 {
        assert old(words[..1]) + Image(f, 0, 0, 0) + old(words[1 + |Image(f, 0, 0, 0)|..]) ==
          old(words[..1]) + Image(f, 0, 0, 0);
        SumsFilled(f, old(words[..1]), first, second, third);
        assert ([MAGIC] + Image(f, first, second, third))[1..] == Image(f, first, second, third);
      }
    }

    /** Withdraws the fault by clearing its magic. */
    method Clear()
      requires Ready()
      modifies this`power, words
      ensures Held() in {old(Held()), None}
      ensures old(power) >= 1 ==> Held() == None
    {
      hide ReadFault;
      Poke(0, 0);
      NoMagic(sum, words[..]);
    }
  }

  lemma NoMagic(sum: WordSum, w: seq<u32>)
    requires |w| == WORDS
    ensures w[0] == 0 ==> ReadFault(sum, w) == None
  {
  }

  lemma CommittedMagic(sum: WordSum, f: Fault)
    requires Shaped(f)
    ensures forall w: seq<u32> :: |w| == WORDS && w[1..] == Committed(sum, f)[1..] ==>
      w[0 := MAGIC] == Committed(sum, f)
  {
    hide Image;
    var full := Committed(sum, f);
    forall w: seq<u32> | |w| == WORDS && w[1..] == full[1..] ensures w[0 := MAGIC] == full {
      assert w[0 := MAGIC] == [MAGIC] + w[1..] && full == [MAGIC] + full[1..];
    }
  }

  /** Storing the checksums into their words. */
  lemma SumsFilled(f: Fault, head: seq<u32>, a: u32, b: u32, c: u32)
    requires Shaped(f) && |head| == 1
    ensures (head + Image(f, 0, 0, 0))[SUM := a][EXTENSION_SUM := b][CONTEXT_SUM := c] == head + Image(f, a, b, c)
  {
  }
}
