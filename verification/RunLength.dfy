/** Run-length coding of byte strings: runs of three to 128 equal bytes, and literals of up to 128 bytes. */
module RunLength {
  import opened Bits
  import opened Storage
  import opened SlotCommit

  function Repeat(v: u8, n: nat): (s: seq<u8>)
    ensures |s| == n && forall i :: 0 <= i < n ==> s[i] == v
  {
    seq(n, _ => v)
  }

  // ---------------------------------------------------------------- the coded form

  /** A packet: how many coded bytes it takes and what it stands for. */
  datatype Packet = Packet(size: nat, bytes: seq<u8>)

  function First(s: seq<u8>): (r: Option<Packet>)
    requires s != []
    ensures r.Some? ==> 2 <= r.value.size <= |s|
  {
    var count: int := s[0] % 0x80 + 1;
    if s[0] >= 0x80 then
      if |s| < 2 then None else Some(Packet(2, Repeat(s[1], count)))
    else if |s| - 1 < count then None
    else Some(Packet(1 + count, s[1..1 + count]))
  }

  /** The bytes a coded string stands for, if it is well formed. */
  function Expand(s: seq<u8>): Option<seq<u8>> {
    if s == [] then Some([])
    else if First(s).None? then None
    else
      var p := First(s).value;
      var rest := Expand(s[p.size..]);
      if rest.None? then None else Some(p.bytes + rest.value)
  }

  lemma FirstStable(a: seq<u8>, b: seq<u8>)
    requires a != [] && First(a).Some?
    ensures First(a + b) == First(a)
  {
    var count: int := a[0] % 0x80 + 1;
    if a[0] < 0x80 {
      assert (a + b)[1..1 + count] == a[1..1 + count];
    }
  }

  /** Well-formed coded strings may be joined. */
  lemma {:induction false} ExpandJoin(a: seq<u8>, b: seq<u8>)
    requires Expand(a).Some?
    ensures Expand(a + b) == if Expand(b).None? then None else Some(Expand(a).value + Expand(b).value)
    decreases |a|
  {
    hide First;
    if a == [] {
      assert a + b == b;
      assert Expand(b).Some? ==> [] + Expand(b).value == Expand(b).value;
    } else {
      var p := First(a).value;
      FirstStable(a, b);
      assert (a + b)[p.size..] == a[p.size..] + b;
      ExpandJoin(a[p.size..], b);
      if Expand(b).Some? {
        var x, y := Expand(a[p.size..]).value, Expand(b).value;
        assert p.bytes + (x + y) == (p.bytes + x) + y;
      }
    }
  }

  /** A single packet stands for its bytes. */
  lemma OnePacket(s: seq<u8>, bytes: seq<u8>)
    requires s != [] && First(s) == Some(Packet(|s|, bytes))
    ensures Expand(s) == Some(bytes)
  {
    hide First;
    assert s[|s|..] == [];
    assert bytes + [] == bytes;
  }

  lemma RunPacket(v: u8, run: nat)
    requires 1 <= run <= 0x80
    ensures Expand([0x80 + (run - 1), v]) == Some(Repeat(v, run))
  {
    hide Expand;
    var s: seq<u8> := [0x80 + (run - 1), v];
    assert s[0] % 0x80 == run - 1;
    OnePacket(s, Repeat(v, run));
  }

  lemma LiteralFirst(n: u8, t: seq<u8>)
    requires n < 0x80 && |t| == n + 1
    ensures First([n] + t) == Some(Packet(|[n] + t|, t))
  {
    var s := [n] + t;
    assert s[0] == n && s[1..1 + |t|] == t;
  }

  lemma LiteralPacket(t: seq<u8>)
    requires 1 <= |t| <= 0x80
    ensures Expand([(|t| - 1) as u8] + t) == Some(t)
  {
    hide Expand, First;
    var n: u8 := |t| - 1;
    LiteralFirst(n, t);
    OnePacket([n] + t, t);
  }

  // ---------------------------------------------------------------- compressing

  /** The run at a position: as many equal bytes as there are, up to 128. */
  predicate IsRun(input: seq<u8>, at: nat, run: nat) {
    && 1 <= run <= 0x80 && at + run <= |input| && (forall i :: at <= i < at + run ==> input[i] == input[at])
    && (run == 0x80 || at + run == |input| || input[at + run] != input[at])
  }

  method CountRun(input: seq<u8>, at: nat) returns (run: nat)
    requires at < |input|
    ensures IsRun(input, at, run)
  {
    run := 1;
    while at + run < |input| && input[at + run] == input[at] && run < 0x80
      invariant 1 <= run <= 0x80 && at + run <= |input| && forall i :: at <= i < at + run ==> input[i] == input[at]
    {
      run := run + 1;
    }
  }

  predicate TripleAt(input: seq<u8>, at: nat) {
    at + 3 <= |input| && input[at] == input[at + 1] == input[at + 2]
  }

  predicate NoTriple(s: seq<u8>) {
    forall k :: 0 <= k < |s| ==> !TripleAt(s, k)
  }

  /** No run goes on beyond this position. */
  predicate RunEnds(input: seq<u8>, at: nat) {
    at >= |input| || (at > 0 && input[at - 1] != input[at])
  }

  /** Extends a literal that starts at `start` and already reaches `from`, up to the next run or 128 bytes. */
  method LiteralEnd(input: seq<u8>, start: nat, from: nat) returns (end: nat)
    requires start < from <= |input| && from - start <= 2 && RunEnds(input, from)
    ensures from <= end <= |input| && end - start <= 0x80
    ensures end == |input| || TripleAt(input, end) || end - start >= 127
    ensures NoTriple(input[start..end]) && RunEnds(input, end)
  {
    end := from;
    while end < |input|
      invariant from <= end <= |input| && end - start <= 0x80
      invariant NoTriple(input[start..end]) && RunEnds(input, end)
    {
      var run := CountRun(input, end);
      if run >= 3 || end - start + run > 0x80 {
        return;
      }
      TripleFree(input, start, end, run);
      end := end + run;
    }
  }

  lemma TripleFree(input: seq<u8>, start: nat, end: nat, run: nat)
    requires start < end <= |input| && NoTriple(input[start..end]) && RunEnds(input, end)
    requires end < |input| && run < 3 && IsRun(input, end, run)
    ensures NoTriple(input[start..end + run]) && RunEnds(input, end + run)
  {
    var s, t := input[start..end], input[start..end + run];
    forall k | 0 <= k < |t| ensures !TripleAt(t, k) {
      if k + 3 <= |s| {
        assert !TripleAt(s, k);
      }
    }
  }

  // ---------------------------------------------------------------- how runs are coded

  /** A packet as it should be: a whole run of three bytes or more, or a literal without such a run, ending with one. */
  predicate Thrifty(input: seq<u8>, from: nat, run: bool, bytes: seq<u8>) {
    && bytes != [] && from + |bytes| <= |input| && bytes == input[from..from + |bytes|]
    && if run then |bytes| >= 3 && IsRun(input, from, |bytes|) else NoTriple(bytes) && RunEnds(input, from + |bytes|)
  }

  /** The coded string stands for part of the input, every run of three bytes or more in a packet of two bytes. */
  predicate Codes(input: seq<u8>, from: nat, to: nat, s: seq<u8>)
    decreases |s|
  {
    if s == [] then from == to
    else
      && First(s).Some?
      && var p := First(s).value;
      && Thrifty(input, from, s[0] >= 0x80, p.bytes) && Codes(input, from + |p.bytes|, to, s[p.size..])
  }

  lemma {:induction false} CodesJoin(input: seq<u8>, from: nat, mid: nat, to: nat, a: seq<u8>, b: seq<u8>)
    requires Codes(input, from, mid, a) && Codes(input, mid, to, b)
    ensures Codes(input, from, to, a + b)
    decreases |a|
  {
    hide First, Thrifty;
    if a == [] {
      assert a + b == b;
    } else {
      var p := First(a).value;
      FirstStable(a, b);
      assert (a + b)[p.size..] == a[p.size..] + b;
      CodesJoin(input, from + |p.bytes|, mid, to, a[p.size..], b);
    }
  }

  lemma OneCode(input: seq<u8>, from: nat, s: seq<u8>, bytes: seq<u8>)
    requires s != [] && First(s) == Some(Packet(|s|, bytes)) && Thrifty(input, from, s[0] >= 0x80, bytes)
    ensures Codes(input, from, from + |bytes|, s)
  {
    hide First, Thrifty;
    assert s[|s|..] == [];
  }

  /** A run of 3 to 128 bytes takes two bytes. */
  lemma RunCoded(v: u8, n: nat, s: seq<u8>)
    requires 3 <= n <= 0x80 && Codes(Repeat(v, n), 0, n, s)
    ensures s == [0x80 + (n - 1), v]
  {
    var input := Repeat(v, n);
    assert s != [];
    var p := First(s).value;
    var m := |p.bytes|;
    if s[0] < 0x80 {
      if m >= 3 {
        assert TripleAt(p.bytes, 0);
      }
      assert false;
    }
    assert m == n && s[p.size..] == [];
    assert p.bytes[0] == v == s[1];
  }

  /** The most a string of n bytes can take. */
  function Bound(n: nat): nat {
    n + (n + 126) / 127
  }

  /**
   Compresses a string. The result expands to the input again and is never longer than the bound, so that an output
   buffer of that size always suffices.
   */
  method Compress(input: seq<u8>, capacity: nat) returns (status: Status, output: seq<u8>)
    ensures status == Ok || status == Enospace
    ensures status == Ok ==> Expand(output) == Some(input) && |output| <= capacity && |output| <= Bound(|input|)
    ensures capacity >= Bound(|input|) ==> status == Ok
    ensures status == Ok ==> Codes(input, 0, |input|, output)
  {
    hide Expand, Codes, First, Thrifty, NoTriple;
    output := [];
    EmptyExpands();
    NothingCoded(input);
    var at := 0;
    ghost var full := 0;      // literals that were ended by their size
    ghost var owes := false;  // the last literal was ended by a run, which is still to be coded
    while at < |input|
      invariant 0 <= at <= |input| && Expand(output) == Some(input[..at]) && |output| <= capacity
      invariant 127 * full <= at && (owes ==> TripleAt(input, at)) && Codes(input, 0, at, output)
      invariant at < |input| ==> |output| <= at + full + if owes then 1 else 0
      invariant at == |input| ==> |output| <= Bound(|input|)
    {
      var run := CountRun(input, at);
      if run >= 3 {
        if capacity - |output| < 2 {
          return Enospace, output;
        }
        AddRun(input, at, run, output);
        output := output + [0x80 + (run - 1), input[at]];
        at := at + run;
        owes := false;
        continue;
      }
      assert !owes;
      var end := LiteralEnd(input, at, at + run);
      var literal := input[at..end];
      if capacity - |output| < |literal| + 1 {
        return Enospace, output;
      }
      AddLiteral(input, at, literal, output);
      output := output + ([(|literal| - 1) as u8] + literal);
      if end < |input| {
        if TripleAt(input, end) {
          owes := true;
        } else {
          full := full + 1;
        }
      }
      at := end;
    }
    assert input[..at] == input;
    status := Ok;
  }

  lemma AddRun(input: seq<u8>, at: nat, run: nat, output: seq<u8>)
    requires 3 <= run && IsRun(input, at, run) && Expand(output) == Some(input[..at]) && Codes(input, 0, at, output)
    ensures var longer := output + [0x80 + (run - 1), input[at]];
      Expand(longer) == Some(input[..at + run]) && Codes(input, 0, at + run, longer)
  {
    hide Expand, Codes;
    RunPacket(input[at], run);
    ExpandJoin(output, [0x80 + (run - 1), input[at]]);
    assert input[..at] + Repeat(input[at], run) == input[..at + run];
    RunCodes(input, at, run);
    CodesJoin(input, 0, at, at + run, output, [0x80 + (run - 1), input[at]]);
  }

  lemma AddLiteral(input: seq<u8>, at: nat, literal: seq<u8>, output: seq<u8>)
    requires 1 <= |literal| <= 0x80 && at + |literal| <= |input| && literal == input[at..at + |literal|]
    requires NoTriple(literal) && RunEnds(input, at + |literal|)
    requires Expand(output) == Some(input[..at]) && Codes(input, 0, at, output)
    ensures var longer := output + ([(|literal| - 1) as u8] + literal);
      Expand(longer) == Some(input[..at + |literal|]) && Codes(input, 0, at + |literal|, longer)
  {
    hide Expand, Codes, NoTriple;
    LiteralPacket(literal);
    ExpandJoin(output, [(|literal| - 1) as u8] + literal);
    assert input[..at] + literal == input[..at + |literal|];
    LiteralCodes(input, at, literal);
    CodesJoin(input, 0, at, at + |literal|, output, [(|literal| - 1) as u8] + literal);
  }

  lemma NothingCoded(input: seq<u8>)
    ensures Codes(input, 0, 0, [])
  {
  }

  lemma RunCodes(input: seq<u8>, at: nat, run: nat)
    requires 3 <= run <= 0x80 && IsRun(input, at, run)
    ensures Codes(input, at, at + run, [0x80 + (run - 1), input[at]])
  {
    hide Codes;
    var s: seq<u8> := [0x80 + (run - 1), input[at]];
    assert s[0] % 0x80 == run - 1;
    assert Repeat(input[at], run) == input[at..at + run];
    OneCode(input, at, s, Repeat(input[at], run));
  }

  lemma LiteralCodes(input: seq<u8>, at: nat, literal: seq<u8>)
    requires 1 <= |literal| <= 0x80 && at + |literal| <= |input| && literal == input[at..at + |literal|]
    requires NoTriple(literal) && RunEnds(input, at + |literal|)
    ensures Codes(input, at, at + |literal|, [(|literal| - 1) as u8] + literal)
  {
    hide Codes, First;
    var n: u8 := |literal| - 1;
    LiteralFirst(n, literal);
    OneCode(input, at, [n] + literal, literal);
  }

  lemma EmptyExpands()
    ensures Expand([]) == Some([])
  {
  }

  // ---------------------------------------------------------------- decompressing

  /** Decompresses: exactly the well-formed strings that fit are accepted, with the bytes they stand for. */
  method Decompress(input: seq<u8>, capacity: nat) returns (status: Status, output: seq<u8>)
    ensures status == Ok <==> Expand(input).Some? && |Expand(input).value| <= capacity
    ensures status == Ok ==> output == Expand(input).value
    ensures status in {Ok, Ecorrupt, Enospace} && (Expand(input).Some? ==> status != Ecorrupt)
  {
    hide First, Expand;
    output := [];
    var at := 0;
    assert input[0..] == input && forall x: seq<u8> :: [] + x == x;
    while at < |input|
      invariant 0 <= at <= |input| && |output| <= capacity && Continues(input, at, output)
    {
      ghost var rest := input[at..];
      FirstIs(rest);
      NextPacket(input, at, output);
      var control := input[at];
      at := at + 1;
      var count: int := control % 0x80 + 1;
      if control >= 0x80 {
        if at >= |input| {
          return Ecorrupt, output;
        }
        if count > capacity - |output| {
          return Enospace, output;
        }
        assert rest[1] == input[at];
        output := output + Repeat(input[at], count);
        at := at + 1;
      } else {
        if count > |input| - at {
          return Ecorrupt, output;
        }
        if count > capacity - |output| {
          return Enospace, output;
        }
        assert rest[1..1 + count] == input[at..at + count];
        output := output + input[at..at + count];
        at := at + count;
      }
    }
    Finished(input, output);
    status := Ok;
  }

  /** The output so far and what the rest expands to make up the whole. */
  ghost predicate Continues(input: seq<u8>, at: nat, output: seq<u8>)
    requires at <= |input|
  {
    var rest := Expand(input[at..]);
    Expand(input) == if rest.None? then None else Some(output + rest.value)
  }

  lemma Finished(input: seq<u8>, output: seq<u8>)
    requires Continues(input, |input|, output)
    ensures Expand(input) == Some(output)
  {
    assert input[|input|..] == [] && output + [] == output;
  }

  lemma FirstIs(s: seq<u8>)
    requires s != []
    ensures var count: int := s[0] % 0x80 + 1;
      First(s) == if s[0] >= 0x80 then (if |s| < 2 then None else Some(Packet(2, Repeat(s[1], count))))
                  else if |s| - 1 < count then None else Some(Packet(1 + count, s[1..1 + count]))
  {
  }

  lemma NextPacket(input: seq<u8>, at: nat, output: seq<u8>)
    requires at < |input| && Continues(input, at, output)
    ensures First(input[at..]).None? ==> Expand(input).None?
    ensures First(input[at..]).Some? ==> var p := First(input[at..]).value;
      && Continues(input, at + p.size, output + p.bytes)
      && (Expand(input).Some? ==> |Expand(input).value| >= |output| + |p.bytes|)
  {
    hide First;
    var rest := input[at..];
    if First(rest).Some? {
      var p := First(rest).value;
      assert rest[p.size..] == input[at + p.size..];
      var tail := Expand(rest[p.size..]);
      if tail.Some? {
        assert output + (p.bytes + tail.value) == output + p.bytes + tail.value;
      }
    }
  }

  /** Whatever was compressed comes back. */
  method RoundTrip(input: seq<u8>, capacity: nat, room: nat) returns (status: Status, output: seq<u8>)
    requires capacity >= Bound(|input|) && room >= |input|
    ensures status == Ok && output == input
  {
    var packed;
    status, packed := Compress(input, capacity);
    status, output := Decompress(packed, room);
  }
}
