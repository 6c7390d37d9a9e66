/** Typed fields: the bounded writer that envelopes are built with, and the walk that reads the fields back. */
module Tlv {
  import opened Bits
  import opened Words
  import opened Storage
  import opened SlotCommit

  datatype Field = Field(kind: u16, value: seq<u8>)

  predicate Writable(f: Field) {
    f.kind != 0 && |f.value| <= 0xffff
  }

  // ---------------------------------------------------------------- the coded form

  function FieldBytes(f: Field): (s: seq<u8>)
    requires |f.value| <= 0xffff
    ensures |s| == 4 + |f.value|
  {
    U16Bytes(f.kind) + U16Bytes(|f.value|) + f.value
  }

  /** Fields in a row. */
  function Joined(fields: seq<Field>): seq<u8>
    requires forall f :: f in fields ==> Writable(f)
  {
    if fields == [] then [] else assert Writable(fields[0]); FieldBytes(fields[0]) + Joined(fields[1..])
  }

  /** The first field of some bytes, if they start with a whole one. */
  function First(s: seq<u8>): (r: Option<Field>)
    ensures r.Some? ==> Writable(r.value) && 4 + |r.value.value| <= |s|
  {
    if |s| < 4 then None
    else
      var kind, length := ReadU16(s, 0), ReadU16(s, 2);
      if kind == 0 || length > |s| - 4 then None else Some(Field(kind, s[4..4 + length]))
  }

  /** All fields of some bytes, if they are a row of whole ones. */
  function Parsed(s: seq<u8>): (r: Option<seq<Field>>)
    ensures r.Some? ==> forall f :: f in r.value ==> Writable(f)
  {
    if s == [] then Some([])
    else if First(s).None? then None
    else
      var f := First(s).value;
      var rest := Parsed(s[4 + |f.value|..]);
      if rest.None? then None else Some([f] + rest.value)
  }

  /** Kind, length and value, in this order. */
  lemma FieldLayout(f: Field)
    requires Writable(f)
    ensures var s := FieldBytes(f);
      s[..2] == U16Bytes(f.kind) && s[2..4] == U16Bytes(|f.value|) && s[4..] == f.value
  {
  }

  lemma FirstReads(f: Field, rest: seq<u8>)
    requires Writable(f)
    ensures First(FieldBytes(f) + rest) == Some(f)
  {
    hide U16Bytes;
    var s := FieldBytes(f) + rest;
    assert s[0] == U16Bytes(f.kind)[0] && s[1] == U16Bytes(f.kind)[1];
    assert s[2] == U16Bytes(|f.value|)[0] && s[3] == U16Bytes(|f.value|)[1];
    assert s[4..4 + |f.value|] == f.value;
  }

  lemma FirstIs(s: seq<u8>)
    requires First(s).Some?
    ensures FieldBytes(First(s).value) == s[..4 + |First(s).value.value|]
  {
    var f := First(s).value;
    var a: int, b: int, c: int, d: int := s[0], s[1], s[2], s[3];
    DivModUnique(f.kind, 0x100, b, a);
    DivModUnique(|f.value|, 0x100, d, c);
    assert U16Bytes(f.kind) == [s[0], s[1]] && U16Bytes(|f.value|) == [s[2], s[3]];
    assert s[..4 + |f.value|] == [s[0], s[1]] + [s[2], s[3]] + s[4..4 + |f.value|];
  }

  /** Reading fields undoes writing them. */
  lemma {:induction false} ParsedJoined(fields: seq<Field>)
    requires forall f :: f in fields ==> Writable(f)
    ensures Parsed(Joined(fields)) == Some(fields)
    decreases |fields|
  {
    hide FieldBytes, First;
    if fields != [] {
      var f, rest := fields[0], Joined(fields[1..]);
      FirstReads(f, rest);
      assert (FieldBytes(f) + rest)[4 + |f.value|..] == rest;
      ParsedJoined(fields[1..]);
      assert [f] + fields[1..] == fields;
    }
  }

  /** And writing undoes reading: the coded form is unique. */
  lemma {:induction false} JoinedParsed(s: seq<u8>)
    requires Parsed(s).Some?
    ensures Joined(Parsed(s).value) == s
    decreases |s|
  {
    hide FieldBytes, First;
    if s != [] {
      var f := First(s).value;
      var n := 4 + |f.value|;
      FirstIs(s);
      JoinedParsed(s[n..]);
      assert Parsed(s).value[1..] == Parsed(s[n..]).value;
      assert s == s[..n] + s[n..];
    }
  }

  lemma {:induction false} JoinedNext(fields: seq<Field>, f: Field)
    requires (forall x :: x in fields ==> Writable(x)) && Writable(f)
    ensures forall x :: x in fields + [f] ==> Writable(x)
    ensures Joined(fields + [f]) == Joined(fields) + FieldBytes(f)
    decreases |fields|
  {
    hide FieldBytes;
    if fields == [] {
      assert Joined([f]) == FieldBytes(f) + Joined([]);
      assert fields + [f] == [f] && FieldBytes(f) + [] == FieldBytes(f) && [] + FieldBytes(f) == FieldBytes(f);
    } else {
      JoinedNext(fields[1..], f);
      assert (fields + [f])[1..] == fields[1..] + [f] && (fields + [f])[0] == fields[0];
    }
  }

  // ---------------------------------------------------------------- the writer

  class Writer {
    const capacity: nat
    var bytes: seq<u8>

    ghost predicate Valid()
      reads this
    {
      |bytes| <= capacity
    }

    constructor (size: nat)
      ensures Valid() && bytes == [] && capacity == size
    {
      capacity, bytes := size, [];
    }

    function Remaining(): nat
      reads this
    {
      if |bytes| > capacity then 0 else capacity - |bytes|
    }

    /** Appends bytes, all or none. */
    method Write(data: seq<u8>) returns (status: Status)
      requires Valid()
      modifies this`bytes
      ensures Valid()
      ensures status == if |data| <= old(Remaining()) then Ok else Enospace
      ensures bytes == if status == Ok then old(bytes) + data else old(bytes)
    {
      if |bytes| > capacity || |data| > capacity - |bytes| {
        return Enospace;
      }
      bytes := bytes + data;
      return Ok;
    }

    /** Appends a whole field or nothing. */
    method WriteField(f: Field) returns (status: Status)
      requires Valid() && |f.value| <= 0xffff
      modifies this`bytes
      ensures Valid()
      ensures status == if |FieldBytes(f)| <= old(Remaining()) then Ok else Enospace
      ensures bytes == if status == Ok then old(bytes) + FieldBytes(f) else old(bytes)
    {
      hide U16Bytes;
      if |bytes| > capacity || |f.value| + 4 > capacity - |bytes| {
        return Enospace;
      }
      status := Write(U16Bytes(f.kind));
      if status == Ok {
        status := Write(U16Bytes(|f.value|));
      }
      if status == Ok {
        status := Write(f.value);
      }
    }
  }

  // ---------------------------------------------------------------- reading

  /** The first field at a position, in terms of the words the walk reads there. */
  lemma FirstOf(s: seq<u8>, at: nat)
    requires at < |s|
    ensures |s| - at < 4 ==> First(s[at..]).None?
    ensures |s| - at >= 4 ==> var kind, length := ReadU16(s, at), ReadU16(s, at + 2);
      First(s[at..]) == if kind == 0 || length > |s| - at - 4 then None
        else Some(Field(kind, s[at + 4..at + 4 + length]))
  {
    var rest := s[at..];
    if |rest| >= 4 {
      assert rest[0] == s[at] && rest[1] == s[at + 1] && rest[2] == s[at + 2] && rest[3] == s[at + 3];
      var length := ReadU16(rest, 2);
      if length <= |rest| - 4 {
        assert rest[4..4 + length] == s[at + 4..at + 4 + length];
      }
    }
  }

  /** The fields walked so far and those of the rest make up the whole. */
  ghost predicate Walked(payload: seq<u8>, offset: nat, fields: seq<Field>)
    requires offset <= |payload|
  {
    var rest := Parsed(payload[offset..]);
    Parsed(payload) == if rest.None? then None else Some(fields + rest.value)
  }

  lemma WalkStarts(payload: seq<u8>)
    ensures Walked(payload, 0, [])
  {
    assert payload[0..] == payload;
    assert Parsed(payload).Some? ==> [] + Parsed(payload).value == Parsed(payload).value;
  }

  lemma WalkNext(payload: seq<u8>, offset: nat, fields: seq<Field>)
    requires offset < |payload| && Walked(payload, offset, fields)
    ensures First(payload[offset..]).None? ==> Parsed(payload).None?
    ensures First(payload[offset..]).Some? ==>
      var f := First(payload[offset..]).value;
      && Walked(payload, offset + 4 + |f.value|, fields + [f])
      && (Parsed(payload).Some? ==> fields + [f] <= Parsed(payload).value)
  {
    hide First;
    var rest := payload[offset..];
    if First(rest).Some? {
      var f := First(rest).value;
      var n := 4 + |f.value|;
      assert rest[n..] == payload[offset + n..];
      var tail := Parsed(rest[n..]);
      if tail.Some? {
        assert fields + ([f] + tail.value) == fields + [f] + tail.value;
      }
    }
  }

  lemma WalkEnds(payload: seq<u8>, fields: seq<Field>)
    requires Walked(payload, |payload|, fields)
    ensures Parsed(payload) == Some(fields)
  {
    assert payload[|payload|..] == [] && fields + [] == fields;
  }

  /** Checks that a payload is a row of whole fields. */
  method ValidatePayload(payload: seq<u8>) returns (status: Status)
    ensures status == if Parsed(payload).Some? then Ok else Ecorrupt
  {
    hide First, Parsed, Walked;
    ghost var fields := [];
    var offset := 0;
    WalkStarts(payload);
    while offset < |payload|
      invariant 0 <= offset <= |payload| && Walked(payload, offset, fields)
    {
      FirstOf(payload, offset);
      WalkNext(payload, offset, fields);
      if |payload| - offset < 4 {
        return Ecorrupt;
      }
      var kind, length := ReadU16(payload, offset), ReadU16(payload, offset + 2);
      offset := offset + 4;
      if kind == 0 || length > |payload| - offset {
        return Ecorrupt;
      }
      fields := fields + [Field(kind, payload[offset..offset + length])];
      offset := offset + length;
    }
    WalkEnds(payload, fields);
    return Ok;
  }

  /** Walks a payload, handing each field to a visitor until it objects; `answers` gives its answer to each. */
  method VisitPayload(payload: seq<u8>, answers: nat -> Status) returns (status: Status, visited: seq<Field>)
    ensures Parsed(payload).Some? ==> visited <= Parsed(payload).value
    ensures Parsed(payload).Some? && status == Ok ==> visited == Parsed(payload).value
    ensures status == Ok ==> Parsed(payload).Some?
    ensures forall i :: 0 <= i < |visited| - (if status == Ok then 0 else 1) ==> answers(i) == Ok
    ensures (forall n :: answers(n) == Ok) && Parsed(payload).None? ==> status == Ecorrupt
    ensures Parsed(payload).Some? && status != Ok ==> visited != [] && status == answers(|visited| - 1)
    ensures (forall n :: answers(n) == Ok) && Parsed(payload).Some? ==> status == Ok
  {
    hide First, Parsed, Walked;
    visited := [];
    var offset := 0;
    WalkStarts(payload);
    while offset < |payload|
      invariant 0 <= offset <= |payload| && Walked(payload, offset, visited)
      invariant Parsed(payload).Some? ==> visited <= Parsed(payload).value
      invariant forall i :: 0 <= i < |visited| ==> answers(i) == Ok
    {
      FirstOf(payload, offset);
      WalkNext(payload, offset, visited);
      if |payload| - offset < 4 {
        return Ecorrupt, visited;
      }
      var kind, length := ReadU16(payload, offset), ReadU16(payload, offset + 2);
      offset := offset + 4;
      if kind == 0 || length > |payload| - offset {
        return Ecorrupt, visited;
      }
      status := answers(|visited|);
      visited := visited + [Field(kind, payload[offset..offset + length])];
      if status != Ok {
        return;
      }
      offset := offset + length;
    }
    WalkEnds(payload, visited);
    return Ok, visited;
  }
}
