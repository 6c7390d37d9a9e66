/**
 The envelope: a checksummed header, a payload of typed fields that starts with the device identity, a payload checksum
 and, when a key is configured, an authentication code. Encryption stays outside.
 */
module Envelope {
  import opened Bits
  import opened Words
  import opened Bitmaps
  import opened Storage
  import opened SlotCommit
  import opened Tlv
  import SpoolFormat

  const MAGIC: u32 := 0x5054534c
  const HEADER_SIZE: nat := 24
  const VERSION: u8 := 1
  const MAC_SIZE: nat := 32
  const TAG_SIZE: nat := 16
  const METADATA_SIZE: nat := 28
  const IDENTITY: u16 := 1
  const FIELDS: nat := 15

  /** Bits of the flags byte. */
  const AUTHENTICATED: nat := 0
  const ENCRYPTED: nat := 1
  const AEAD: nat := 2
  const TRUNCATED: nat := 3

  // ---------------------------------------------------------------- identity

  /** A numbered string of the identity. */
  function Entry(index: nat, text: seq<u8>): (s: seq<u8>)
    requires index < FIELDS && |text| <= 0xff
    ensures |s| == 2 + |text|
  {
    [index + 1, |text|] + text
  }

  predicate Short(texts: seq<seq<u8>>) {
    forall i :: 0 <= i < |texts| ==> |texts[i]| <= 0xff
  }

  function Entries(texts: seq<seq<u8>>): seq<u8>
    requires Short(texts) && |texts| <= FIELDS
  {
    if texts == [] then [] else Entries(texts[..|texts| - 1]) + Entry(|texts| - 1, texts[|texts| - 1])
  }

  lemma EntriesNext(texts: seq<seq<u8>>, t: seq<u8>)
    requires Short(texts) && |texts| < FIELDS && |t| <= 0xff
    ensures Short(texts + [t]) && Entries(texts + [t]) == Entries(texts) + Entry(|texts|, t)
  {
    assert (texts + [t])[..|texts|] == texts;
  }

  /** The texts written are the given ones, cut short at worst. */
  predicate Shortened(cut: seq<seq<u8>>, texts: seq<seq<u8>>) {
    |cut| <= |texts| && Short(cut) && forall i :: 0 <= i < |cut| ==> cut[i] <= texts[i]
  }

  /** Writes one string, cut to 255 bytes and to the room left for it. */
  method PutString(w: Writer, index: nat, text: seq<u8>, limit: nat)
      returns (status: Status, cut: seq<u8>, truncated: bool)
    requires w.Valid() && index < FIELDS && 2 + limit <= w.Remaining()
    modifies w`bytes
    ensures w.Valid() && status == Ok && cut <= text && |cut| <= 0xff && |cut| <= limit
    ensures w.bytes == old(w.bytes) + Entry(index, cut)
    ensures truncated <==> cut != text
    ensures truncated ==> |cut| == 0xff || |cut| == limit
  {
    var length := |text|;
    truncated := false;
    if length > 0xff {
      length := 0xff;
      truncated := true;
    }
    if length > limit {
      length := limit;
      truncated := true;
    }
    cut := text[..length];
    ghost var before := w.bytes;
    status := w.Write([index + 1]);
    if status == Ok {
      status := w.Write([length]);
    }
    if status == Ok {
      status := w.Write(cut);
    }
    assert w.bytes == before + Entry(index, cut);
  }

  /** What the identity may take: 512 bytes, or what is left behind the head of its field. */
  function IdentityRoom(left: nat): nat
    requires left >= 34
  {
    if left - 4 > 512 then 512 else left - 4
  }

  /** A string is cut at 255 bytes, or where only the two bytes are left that each later string needs. */
  predicate CutForRoom(cut: seq<seq<u8>>, texts: seq<seq<u8>>, room: nat)
    requires Short(cut) && |cut| <= |texts| == FIELDS
  {
    forall i :: 0 <= i < |cut| && cut[i] != texts[i] ==>
      |cut[i]| == 0xff || |Entries(cut[..i + 1])| + 2 * (FIELDS - 1 - i) == room
  }

  /**
   Writes the identity: all fifteen strings are there as soon as 34 bytes fit, each whole or cut for want of room, and
   none is cut without the truncation being reported.
   */
  method PutIdentity(w: Writer, texts: seq<seq<u8>>) returns (status: Status, cut: seq<seq<u8>>, truncated: bool)
    requires w.Valid() && |texts| == FIELDS
    modifies w`bytes
    ensures w.Valid() && (status == Ok || status == Enospace)
    ensures status == Ok <==> old(w.Remaining()) >= 34
    ensures status != Ok ==> w.bytes == old(w.bytes)
    ensures status == Ok ==> |cut| == FIELDS && Shortened(cut, texts) && Writable(Field(IDENTITY, Entries(cut)))
    ensures status == Ok ==> w.bytes == old(w.bytes) + FieldBytes(Field(IDENTITY, Entries(cut)))
    ensures status == Ok ==> (truncated <==> cut != texts)
    ensures status == Ok ==>
      var left := old(w.Remaining()) - 4;
      var room := if left > 512 then 512 else left;
      && |Entries(cut)| <= room && CutForRoom(cut, texts, room)
      && (truncated <==> !Short(texts) || |Entries(texts)| > room)
  {
    hide FieldBytes, Entries, Shortened, Entry, CutForRoom;
    NoneShortened(texts);
    cut, truncated := [], false;
    var outer := w.Remaining();
    if outer < 34 {
      return Enospace, [], false;
    }
    var room := IdentityRoom(outer);
    var nested := new Writer(room);
    var index := 0;
    while index < FIELDS
      invariant 0 <= index <= FIELDS && |cut| == index && fresh(nested) && nested.Valid() && nested.capacity == room
      invariant Short(cut) && Shortened(cut, texts) && nested.bytes == Entries(cut)
      invariant |nested.bytes| + 2 * (FIELDS - index) <= room && CutForRoom(cut, texts, room)
      invariant truncated <==> cut != texts[..index]
      invariant w.bytes == old(w.bytes)
    {
      var left := FIELDS - 1 - index;
      var limit := nested.Remaining() - 2 - 2 * left;
      var one, short;
      status, one, short := PutString(nested, index, texts[index], limit);
      ShortenedNext(cut, one, texts);
      EntriesNext(cut, one);
      CutNext(cut, one, texts);
      RoomNext(cut, one, texts, room);
      cut := cut + [one];
      truncated := truncated || short;
      index := index + 1;
    }
    assert texts[..index] == texts;
    WholeIff(cut, texts, room);
    status := w.WriteField(Field(IDENTITY, nested.bytes));
  }

  lemma NoneShortened(texts: seq<seq<u8>>)
    requires |texts| == FIELDS
    ensures Shortened([], texts) && Short([]) && Entries([]) == [] && forall room :: CutForRoom([], texts, room)
  {
  }

  lemma RoomNext(cut: seq<seq<u8>>, one: seq<u8>, texts: seq<seq<u8>>, room: nat)
    requires Short(cut) && |cut| < |texts| == FIELDS && |one| <= 0xff && CutForRoom(cut, texts, room)
    requires one != texts[|cut|] ==>
      |one| == 0xff || |Entries(cut)| + 2 + |one| + 2 * (FIELDS - 1 - |cut|) == room
    ensures CutForRoom(cut + [one], texts, room)
  {
    hide Entries;
    EntriesNext(cut, one);
    var longer := cut + [one];
    forall i | 0 <= i < |longer| && longer[i] != texts[i]
      ensures |longer[i]| == 0xff || |Entries(longer[..i + 1])| + 2 * (FIELDS - 1 - i) == room
    {
      assert longer[..i + 1] == if i < |cut| then cut[..i + 1] else longer;
    }
  }

  /** The identity is whole exactly if no string is longer than 255 bytes and all of them fit. */
  lemma WholeIff(cut: seq<seq<u8>>, texts: seq<seq<u8>>, room: nat)
    requires |cut| == |texts| == FIELDS && Shortened(cut, texts) && CutForRoom(cut, texts, room)
    requires |Entries(cut)| <= room
    ensures cut == texts <==> Short(texts) && |Entries(texts)| <= room
  {
    hide Entries;
    if cut != texts && Short(texts) {
      var i :| 0 <= i < FIELDS && cut[i] != texts[i];
      var k := FirstCut(cut, texts, i);
      CutShorter(cut, texts, k);
    }
  }

  /** At the first string that is cut, the whole one takes more. */
  lemma CutShorter(cut: seq<seq<u8>>, texts: seq<seq<u8>>, k: nat)
    requires |cut| == |texts| == FIELDS && Shortened(cut, texts) && Short(texts)
    requires k < FIELDS && cut[k] != texts[k] && cut[..k] == texts[..k]
    ensures |cut[k]| < 0xff && |Entries(texts)| > |Entries(cut[..k + 1])| + 2 * (FIELDS - 1 - k)
  {
    hide Entries;
    var a := texts[..k];
    assert texts[..k + 1] == a + [texts[k]] && cut[..k + 1] == a + [cut[k]];
    assert cut[k] <= texts[k] && |cut[k]| < |texts[k]| <= 0xff;
    EntriesNext(a, texts[k]);
    EntriesNext(a, cut[k]);
    EntriesGrow(texts, k + 1);
  }

  lemma {:induction false} FirstCut(cut: seq<seq<u8>>, texts: seq<seq<u8>>, i: nat) returns (k: nat)
    requires i < |cut| == |texts| && cut[i] != texts[i]
    ensures k <= i && cut[k] != texts[k] && cut[..k] == texts[..k]
  {
    k := 0;
    while cut[k] == texts[k]
      invariant 0 <= k <= i && cut[..k] == texts[..k]
      decreases i - k
    {
      assert cut[..k + 1] == cut[..k] + [cut[k]] && texts[..k + 1] == texts[..k] + [texts[k]];
      k := k + 1;
    }
  }

  /** Every further string takes two bytes at least. */
  lemma {:induction false} EntriesGrow(texts: seq<seq<u8>>, k: nat)
    requires Short(texts) && k <= |texts| <= FIELDS
    ensures |Entries(texts)| >= |Entries(texts[..k])| + 2 * (|texts| - k)
    decreases |texts|
  {
    if k == |texts| {
      assert texts[..k] == texts;
    } else {
      var front := texts[..|texts| - 1];
      EntriesGrow(front, k);
      assert front[..k] == texts[..k];
    }
  }

  lemma ShortenedNext(cut: seq<seq<u8>>, one: seq<u8>, texts: seq<seq<u8>>)
    requires Shortened(cut, texts) && |cut| < |texts| && one <= texts[|cut|] && |one| <= 0xff
    ensures Short(cut) && Shortened(cut + [one], texts)
  {
  }

  lemma CutNext(cut: seq<seq<u8>>, one: seq<u8>, texts: seq<seq<u8>>)
    requires |cut| < |texts|
    ensures cut + [one] == texts[..|cut| + 1] <==> cut == texts[..|cut|] && one == texts[|cut|]
  {
    var n := |cut|;
    assert texts[..n + 1] == texts[..n] + [texts[n]];
    assert cut == (cut + [one])[..n] && texts[..n] == texts[..n + 1][..n] && (cut + [one])[n] == one;
  }

  /** Reads the strings back, as the collector does. */
  function ReadEntries(s: seq<u8>): seq<(u8, seq<u8>)> {
    if |s| < 2 || s[1] > |s| - 2 then [] else
    var n := s[1];
    [(s[0], s[2..2 + n])] + ReadEntries(s[2 + n..])
  }

  /** Fifteen numbered strings. */
  function Numbered(texts: seq<seq<u8>>, from: nat): (r: seq<(u8, seq<u8>)>)
    requires from + |texts| <= FIELDS
    ensures |r| == |texts| && forall i :: 0 <= i < |texts| ==> r[i] == ((from + i + 1) as u8, texts[i])
  {
    seq(|texts|, i requires 0 <= i < |texts| => ((from + i + 1) as u8, texts[i]))
  }

  function EntriesFrom(texts: seq<seq<u8>>, from: nat): seq<u8>
    requires Short(texts) && from + |texts| <= FIELDS
  {
    if texts == [] then [] else Entry(from, texts[0]) + EntriesFrom(texts[1..], from + 1)
  }

  lemma {:induction false} EntriesFromNext(texts: seq<seq<u8>>, from: nat, t: seq<u8>)
    requires Short(texts) && from + |texts| < FIELDS && |t| <= 0xff
    ensures Short(texts + [t]) && EntriesFrom(texts + [t], from) == EntriesFrom(texts, from) + Entry(from + |texts|, t)
    decreases |texts|
  {
    hide Entry;
    if texts == [] {
      assert texts + [t] == [t];
      assert EntriesFrom([t], from) == Entry(from, t) + EntriesFrom([], from + 1);
      assert Entry(from, t) + [] == Entry(from, t) && [] + Entry(from, t) == Entry(from, t);
    } else {
      assert (texts + [t])[1..] == texts[1..] + [t];
      EntriesFromNext(texts[1..], from + 1, t);
    }
  }

  lemma {:induction false} EntriesAre(texts: seq<seq<u8>>)
    requires Short(texts) && |texts| <= FIELDS
    ensures Entries(texts) == EntriesFrom(texts, 0)
    decreases |texts|
  {
    hide Entry;
    if texts != [] {
      var n := |texts| - 1;
      EntriesAre(texts[..n]);
      EntriesFromNext(texts[..n], 0, texts[n]);
      assert texts[..n] + [texts[n]] == texts;
    }
  }

  lemma {:induction false} EntriesFromRead(texts: seq<seq<u8>>, from: nat)
    requires Short(texts) && from + |texts| <= FIELDS
    ensures ReadEntries(EntriesFrom(texts, from)) == Numbered(texts, from)
    decreases |texts|
  {
    hide Entry, ReadEntries, Numbered;
    if texts != [] {
      EntryReads(from, texts[0], EntriesFrom(texts[1..], from + 1));
      EntriesFromRead(texts[1..], from + 1);
    }
    NumberedFirst(texts, from);
  }

  lemma EntryReads(index: nat, text: seq<u8>, rest: seq<u8>)
    requires index < FIELDS && |text| <= 0xff
    ensures ReadEntries(Entry(index, text) + rest) == [((index + 1) as u8, text)] + ReadEntries(rest)
    ensures ReadEntries([]) == []
  {
    var s, n := Entry(index, text) + rest, |text|;
    assert s[0] == index + 1 && s[1] == n && s[2..2 + n] == text && s[2 + n..] == rest;
  }

  lemma NumberedFirst(texts: seq<seq<u8>>, from: nat)
    requires from + |texts| <= FIELDS
    ensures texts == [] ==> Numbered(texts, from) == [] == ReadEntries([])
    ensures texts != [] ==> Numbered(texts, from) == [((from + 1) as u8, texts[0])] + Numbered(texts[1..], from + 1)
  {
  }

  /** A reader of the identity finds all strings that were written, numbered from one. */
  lemma IdentityReads(texts: seq<seq<u8>>)
    requires Short(texts) && |texts| <= FIELDS
    ensures ReadEntries(Entries(texts)) == Numbered(texts, 0)
  {
    EntriesAre(texts);
    EntriesFromRead(texts, 0);
  }

  // ---------------------------------------------------------------- the payload

  /**
   What a writer contributes to the payload after the identity: a field, which is dropped when it is optional and does
   not fit and may already be shortened, or nothing where the writer withheld it.
   */
  datatype Part = Part(field: Field, mandatory: bool, shortened: bool) | Withheld

  predicate AllWritable(parts: seq<Part>) {
    forall i :: 0 <= i < |parts| && parts[i].Part? ==> Writable(parts[i].field)
  }

  /** How many bytes a part takes. */
  function Size(part: Part): nat {
    if part.Part? then 4 + |part.field.value| else 0
  }

  /** How many bytes all parts take. */
  function Room(parts: seq<Part>): nat {
    if parts == [] then 0 else Room(parts[..|parts| - 1]) + Size(parts[|parts| - 1])
  }

  lemma {:induction false} RoomPrefix(parts: seq<Part>, k: nat)
    requires k < |parts|
    ensures Room(parts[..k + 1]) == Room(parts[..k]) + Size(parts[k]) && Room(parts[..k + 1]) <= Room(parts)
    decreases |parts|
  {
    hide Size;
    var front := parts[..|parts| - 1];
    assert parts[..k + 1][..k] == parts[..k];
    if k + 1 == |parts| {
      assert parts[..k + 1] == parts;
    } else {
      RoomPrefix(front, k);
      assert front[..k + 1] == parts[..k + 1] && front[..k] == parts[..k];
    }
  }

  /** Something of the part is missing from the payload. */
  predicate Lacking(part: Part, kept: bool) {
    !kept || part.Withheld? || part.shortened
  }

  /** Something of the event is missing from the payload. */
  predicate Curtailed(cut: seq<seq<u8>>, texts: seq<seq<u8>>, parts: seq<Part>, kept: seq<bool>)
    requires |kept| <= |parts|
  {
    cut != texts || exists i :: 0 <= i < |kept| && Lacking(parts[i], kept[i])
  }

  /** The fields of the parts that were kept. */
  function Chosen(parts: seq<Part>, kept: seq<bool>): (fields: seq<Field>)
    requires |kept| <= |parts| && AllWritable(parts)
    ensures forall f :: f in fields ==> Writable(f)
    decreases |kept|
  {
    if kept == [] then [] else
    var n := |kept| - 1;
    Chosen(parts, kept[..n]) + if kept[n] && parts[n].Part? then [parts[n].field] else []
  }

  lemma ChosenNext(parts: seq<Part>, kept: seq<bool>, keep: bool)
    requires |kept| < |parts| && AllWritable(parts)
    ensures Chosen(parts, kept + [keep]) ==
      Chosen(parts, kept) + if keep && parts[|kept|].Part? then [parts[|kept|].field] else []
  {
    assert (kept + [keep])[..|kept|] == kept;
  }

  /** Nothing was dropped: the fields are those of all parts. */
  lemma {:induction false} ChosenAll(parts: seq<Part>, kept: seq<bool>)
    requires |kept| <= |parts| && AllWritable(parts) && forall i :: 0 <= i < |kept| ==> kept[i] && parts[i].Part?
    ensures |Chosen(parts, kept)| == |kept| && forall i :: 0 <= i < |kept| ==> Chosen(parts, kept)[i] == parts[i].field
    decreases |kept|
  {
    if kept != [] {
      ChosenAll(parts, kept[..|kept| - 1]);
    }
  }

  /** The fields of a payload: identity first, then the parts kept. */
  function Written(cut: seq<seq<u8>>, parts: seq<Part>, kept: seq<bool>): (fields: seq<Field>)
    requires |cut| == FIELDS && Short(cut) && Writable(Field(IDENTITY, Entries(cut))) && |kept| <= |parts|
    requires AllWritable(parts)
    ensures forall f :: f in fields ==> Writable(f)
  {
    [Field(IDENTITY, Entries(cut))] + Chosen(parts, kept)
  }

  /** The part does not fit behind what was written before it. */
  predicate TooBig(cut: seq<seq<u8>>, parts: seq<Part>, kept: seq<bool>, i: nat, capacity: nat)
    requires |cut| == FIELDS && Short(cut) && Writable(Field(IDENTITY, Entries(cut))) && AllWritable(parts)
    requires i <= |kept| && i < |parts| && |kept| <= |parts|
  {
    |Joined(Written(cut, parts, kept[..i]))| + Size(parts[i]) > capacity
  }

  /** A part is dropped only where it does not fit, and where there is one. */
  predicate DroppedForRoom(cut: seq<seq<u8>>, parts: seq<Part>, kept: seq<bool>, capacity: nat)
    requires |cut| == FIELDS && Short(cut) && Writable(Field(IDENTITY, Entries(cut))) && AllWritable(parts)
    requires |kept| <= |parts|
  {
    forall i :: 0 <= i < |kept| ==>
      (kept[i] ==> parts[i].Part?) && (!kept[i] && parts[i].Part? ==> TooBig(cut, parts, kept, i, capacity))
  }

  /**
   Writes the payload. Mandatory parts are never dropped and optional ones only where they do not fit; it fails exactly
   if a mandatory part does not fit, or 34 bytes for the identity. The truncation mark is set exactly if something is
   missing: an identity string is not whole, or a part was dropped, shortened or withheld.
   */
  method PutPayload(w: Writer, texts: seq<seq<u8>>, parts: seq<Part>)
      returns (status: Status, truncated: bool, cut: seq<seq<u8>>, kept: seq<bool>)
    requires w.Valid() && w.bytes == [] && |texts| == FIELDS && AllWritable(parts)
    modifies w`bytes
    ensures w.Valid() && (status == Ok || status == Enospace)
    ensures status == Ok ==>
      |cut| == FIELDS && Shortened(cut, texts) && Writable(Field(IDENTITY, Entries(cut))) && |kept| == |parts|
    ensures status == Ok ==> w.bytes == Joined(Written(cut, parts, kept))
    ensures status == Ok ==> forall i :: 0 <= i < |parts| && parts[i].Part? && parts[i].mandatory ==> kept[i]
    ensures status == Ok ==> (truncated <==> Curtailed(cut, texts, parts, kept))
    ensures status == Ok ==> w.capacity >= 34 && CutForRoom(cut, texts, IdentityRoom(w.capacity))
    ensures status == Ok ==> DroppedForRoom(cut, parts, kept, w.capacity) && |w.bytes| <= 516 + Room(parts)
    ensures status != Ok && w.capacity >= 34 ==>
      && |cut| == FIELDS && Short(cut) && Writable(Field(IDENTITY, Entries(cut))) && |kept| < |parts|
      && parts[|kept|].Part? && parts[|kept|].mandatory && TooBig(cut, parts, kept, |kept|, w.capacity)
    ensures w.capacity >= 516 + Room(parts) ==>
      status == Ok && forall i :: 0 <= i < |kept| ==> kept[i] == parts[i].Part?
  {
    hide FieldBytes, Joined, Entries, Chosen, Writable, Short, CutForRoom, Room, DroppedForRoom, Curtailed, Written;
    kept := [];
    status, cut, truncated := PutIdentity(w, texts);
    if status != Ok {
      return;
    }
    IdentityAlone(cut, parts, w.bytes);
    NothingYet(cut, texts, parts, w.capacity);
    var i := 0;
    while i < |parts|
      invariant 0 <= i <= |parts| && |kept| == i && w.Valid() && w.bytes == Joined(Written(cut, parts, kept))
      invariant forall k :: 0 <= k < i && parts[k].Part? && parts[k].mandatory ==> kept[k]
      invariant truncated <==> Curtailed(cut, texts, parts, kept)
      invariant |w.bytes| <= 516 + Room(parts[..i]) && DroppedForRoom(cut, parts, kept, w.capacity)
      invariant w.capacity >= 516 + Room(parts) ==> forall k :: 0 <= k < i ==> kept[k] == parts[k].Part?
    {
      RoomPrefix(parts, i);
      assert kept[..i] == kept;
      var keep := false;
      match parts[i] {
        case Withheld =>
          truncated := true;
        case Part(field, mandatory, shortened) =>
          WritableIs(field);
          status := w.WriteField(field);
          if status != Ok && mandatory {
            return;
          }
          keep := status == Ok;
          truncated := truncated || shortened || !keep;
      }
      WrittenNext(cut, parts, kept, keep);
      CurtailedNext(cut, texts, parts, kept, keep);
      DroppedNext(cut, parts, kept, keep, w.capacity);
      kept := kept + [keep];
      i := i + 1;
    }
    assert parts[..i] == parts;
    status := Ok;
  }

  lemma NothingYet(cut: seq<seq<u8>>, texts: seq<seq<u8>>, parts: seq<Part>, capacity: nat)
    requires |cut| == FIELDS && Short(cut) && Writable(Field(IDENTITY, Entries(cut))) && AllWritable(parts)
    ensures DroppedForRoom(cut, parts, [], capacity) && Room(parts[..0]) == 0
    ensures Curtailed(cut, texts, parts, []) <==> cut != texts
  {
  }

  lemma DroppedNext(cut: seq<seq<u8>>, parts: seq<Part>, kept: seq<bool>, keep: bool, capacity: nat)
    requires |cut| == FIELDS && Short(cut) && Writable(Field(IDENTITY, Entries(cut))) && AllWritable(parts)
    requires |kept| < |parts| && DroppedForRoom(cut, parts, kept, capacity) && (keep ==> parts[|kept|].Part?)
    requires !keep && parts[|kept|].Part? ==> TooBig(cut, parts, kept, |kept|, capacity)
    ensures DroppedForRoom(cut, parts, kept + [keep], capacity)
  {
    hide Entries, Joined, Written, Writable, Short, Size;
    var longer := kept + [keep];
    forall i | 0 <= i < |longer| && !longer[i] && parts[i].Part? ensures TooBig(cut, parts, longer, i, capacity) {
      assert longer[..i] == kept[..i];
    }
  }

  lemma CurtailedNext(cut: seq<seq<u8>>, texts: seq<seq<u8>>, parts: seq<Part>, kept: seq<bool>, keep: bool)
    requires |kept| < |parts|
    ensures Curtailed(cut, texts, parts, kept + [keep]) <==>
      Curtailed(cut, texts, parts, kept) || Lacking(parts[|kept|], keep)
  {
    hide Lacking;
    var longer := kept + [keep];
    assert longer[|kept|] == keep && forall k :: 0 <= k < |kept| ==> longer[k] == kept[k];
  }

  lemma WritableIs(f: Field)
    requires Writable(f)
    ensures |f.value| <= 0xffff
  {
  }

  lemma IdentityAlone(cut: seq<seq<u8>>, parts: seq<Part>, bytes: seq<u8>)
    requires |cut| == FIELDS && Short(cut) && Writable(Field(IDENTITY, Entries(cut))) && AllWritable(parts)
    requires bytes == [] + FieldBytes(Field(IDENTITY, Entries(cut)))
    ensures bytes == Joined(Written(cut, parts, []))
  {
    hide FieldBytes, Entries;
    var f := Field(IDENTITY, Entries(cut));
    assert Chosen(parts, []) == [] && [f] + [] == [f];
    assert Joined([f]) == FieldBytes(f) + Joined([]);
    assert FieldBytes(f) + [] == FieldBytes(f) && [] + FieldBytes(f) == FieldBytes(f);
  }

  lemma WrittenNext(cut: seq<seq<u8>>, parts: seq<Part>, kept: seq<bool>, keep: bool)
    requires |cut| == FIELDS && Short(cut) && Writable(Field(IDENTITY, Entries(cut))) && |kept| < |parts|
    requires AllWritable(parts)
    ensures Joined(Written(cut, parts, kept + [keep])) ==
      if keep && parts[|kept|].Part? then Joined(Written(cut, parts, kept)) + FieldBytes(parts[|kept|].field)
      else Joined(Written(cut, parts, kept))
  {
    hide FieldBytes, Joined, Entries, Chosen, Short;
    ChosenNext(parts, kept, keep);
    var before := Written(cut, parts, kept);
    if keep && parts[|kept|].Part? {
      var f := parts[|kept|].field;
      JoinedNext(before, f);
      assert Written(cut, parts, kept + [keep]) == before + [f];
    } else {
      assert Written(cut, parts, kept + [keep]) == before;
    }
  }

  // ---------------------------------------------------------------- header and validation

  datatype Header = Header(eventType: u8, architecture: u8, flags: u8, sequence: u32, eventId: u32, payloadLength: u32)

  function HeaderPrefix(h: Header): (s: seq<u8>)
    ensures |s| == 20
  {
    U32Bytes(MAGIC) + [VERSION, h.eventType, h.architecture, h.flags] + U32Bytes(h.sequence) + U32Bytes(h.eventId)
    + U32Bytes(h.payloadLength)
  }

  function HeaderBytes(crc: Checksum, h: Header): (s: seq<u8>)
    ensures |s| == HEADER_SIZE
  {
    HeaderPrefix(h) + U32Bytes(crc(HeaderPrefix(h)))
  }

  function HeaderOf(data: seq<u8>): Header
    requires |data| >= HEADER_SIZE
  {
    Header(data[5], data[6], data[7], ReadU32(data, 8), ReadU32(data, 12), ReadU32(data, 16))
  }

  predicate FlagsValid(flags: u8) {
    && flags < 0x10 && BitAt(flags, ENCRYPTED) == BitAt(flags, AEAD)
    && (BitAt(flags, AEAD) ==> BitAt(flags, AUTHENTICATED))
  }

  function Metadata(flags: u8): nat {
    if BitAt(flags, ENCRYPTED) then METADATA_SIZE else 0
  }

  function Authentication(flags: u8): nat {
    if BitAt(flags, ENCRYPTED) then TAG_SIZE else if BitAt(flags, AUTHENTICATED) then MAC_SIZE else 0
  }

  /** The size, checksum and field checks once magic, version and flags are accepted. */
  predicate BodyValid(crc: Checksum, data: seq<u8>)
    requires |data| >= HEADER_SIZE + 4
  {
    var flags, n := data[7], ReadU32(data, 16);
    var start := HEADER_SIZE + Metadata(flags);
    && |data| == start + n + 4 + Authentication(flags)
    && ReadU32(data, 20) == crc(data[..20]) && ReadU32(data, start + n) == crc(data[HEADER_SIZE..start + n])
    && (!BitAt(flags, ENCRYPTED) ==> Parsed(data[HEADER_SIZE..HEADER_SIZE + n]).Some?)
  }

  /** The header of a valid envelope. */
  function Validated(crc: Checksum, data: seq<u8>): Option<Header> {
    if |data| < HEADER_SIZE + 4 || ReadU32(data, 0) != MAGIC || data[4] != VERSION then None
    else if !FlagsValid(data[7]) || !BodyValid(crc, data) then None
    else Some(HeaderOf(data))
  }

  /** Validates step by step. */
  method Validate(crc: Checksum, data: seq<u8>) returns (status: Status, header: Option<Header>)
    ensures header == Validated(crc, data) && status == if header.Some? then Ok else Ecorrupt
  {
    hide BitAt, Parsed;
    header := None;
    if |data| < HEADER_SIZE + 4 || ReadU32(data, 0) != MAGIC {
      return Ecorrupt, None;
    }
    if data[4] != VERSION {
      return Ecorrupt, None;
    }
    var flags := data[7];
    if !FlagsValid(flags) {
      return Ecorrupt, None;
    }
    var n := ReadU32(data, 16);
    var overhead := HEADER_SIZE + Metadata(flags) + 4 + Authentication(flags);
    if |data| < overhead || n > |data| - overhead || |data| != overhead + n {
      return Ecorrupt, None;
    }
    var end := HEADER_SIZE + Metadata(flags) + n;
    if ReadU32(data, 20) != crc(data[..20]) || ReadU32(data, end) != crc(data[HEADER_SIZE..end]) {
      return Ecorrupt, None;
    }
    if !BitAt(flags, ENCRYPTED) {
      status := ValidatePayload(data[HEADER_SIZE..HEADER_SIZE + n]);
      if status != Ok {
        return;
      }
    }
    return Ok, Some(HeaderOf(data));
  }

  lemma HeaderReads(crc: Checksum, h: Header, data: seq<u8>)
    requires HeaderBytes(crc, h) <= data
    ensures ReadU32(data, 0) == MAGIC && data[4] == VERSION && HeaderOf(data) == h
    ensures ReadU32(data, 20) == crc(data[..20])
  {
    hide ReadU32, U32Bytes;
    var b, p := HeaderBytes(crc, h), HeaderPrefix(h);
    assert data[..HEADER_SIZE] == b;
    assert data[..20] == p && data[20..24] == U32Bytes(crc(p));
    assert data[0..4] == U32Bytes(MAGIC) && data[8..12] == U32Bytes(h.sequence) && data[12..16] == U32Bytes(h.eventId);
    assert data[16..20] == U32Bytes(h.payloadLength);
    ReadU32Same(data, 0, U32Bytes(MAGIC), 0);
    ReadU32Same(data, 8, U32Bytes(h.sequence), 0);
    ReadU32Same(data, 12, U32Bytes(h.eventId), 0);
    ReadU32Same(data, 16, U32Bytes(h.payloadLength), 0);
    ReadU32Same(data, 20, U32Bytes(crc(p)), 0);
    assert p[4..8] == [VERSION, h.eventType, h.architecture, h.flags];
    assert data[4] == p[4..8][0] && data[5] == p[4..8][1] && data[6] == p[4..8][2] && data[7] == p[4..8][3];
  }

  /** Where the fields of the header are. */
  lemma HeaderLayout(crc: Checksum, h: Header)
    ensures var b := HeaderBytes(crc, h);
      && b[..8] == [0x4c, 0x53, 0x54, 0x50, 1, h.eventType, h.architecture, h.flags]
      && b[8..12] == U32Bytes(h.sequence) && b[12..16] == U32Bytes(h.eventId) && b[16..20] == U32Bytes(h.payloadLength)
      && b[20..] == U32Bytes(crc(b[..20]))
  {
    assert U32Bytes(MAGIC) == [0x4c, 0x53, 0x54, 0x50];
    hide U32Bytes;
    assert HeaderBytes(crc, h)[..20] == HeaderPrefix(h);
  }

  /** An envelope put together from its pieces; only an encrypted one has metadata. */
  function Assembled(crc: Checksum, h: Header, metadata: seq<u8>, payload: seq<u8>, mac: seq<u8>): seq<u8> {
    HeaderBytes(crc, h) + metadata + payload + U32Bytes(crc(metadata + payload)) + mac
  }

  /** The pieces go with the header: plain, authenticated or encrypted, each with or without the truncation mark. */
  predicate Pieces(h: Header, metadata: seq<u8>, payload: seq<u8>, mac: seq<u8>) {
    && h.flags in {0, 1, 7, 8, 9, 15} && h.payloadLength == |payload|
    && |metadata| == (if h.flags in {7, 15} then 28 else 0)
    && |mac| == (if h.flags in {7, 15} then 16 else if h.flags in {1, 9} then 32 else 0)
    && (h.flags !in {7, 15} ==> Parsed(payload).Some?)
  }

  /** The flags that are accepted, and what they stand for. */
  lemma FlagsAre(f: u8)
    ensures FlagsValid(f) <==> f in {0, 1, 7, 8, 9, 15}
    ensures FlagsValid(f) ==> (BitAt(f, ENCRYPTED) <==> f in {7, 15}) && (BitAt(f, AUTHENTICATED) <==> f % 2 == 1)
    ensures FlagsValid(f) ==> (BitAt(f, TRUNCATED) <==> f >= 8)
  {
    hide BitAt;
    LowBits(f);
  }

  /** An envelope put together from its pieces is valid and carries the header it was made with. */
  lemma AssembledValidates(crc: Checksum, h: Header, metadata: seq<u8>, payload: seq<u8>, mac: seq<u8>, data: seq<u8>)
    requires Pieces(h, metadata, payload, mac) && data == Assembled(crc, h, metadata, payload, mac)
    ensures Validated(crc, data) == Some(h) && |data| == HEADER_SIZE + |metadata| + |payload| + 4 + |mac|
    ensures data[HEADER_SIZE + |metadata|..HEADER_SIZE + |metadata| + |payload|] == payload
  {
    hide ReadU32, U32Bytes, Parsed, BitAt, HeaderBytes, FlagsValid;
    FlagsAre(h.flags);
    HeaderReads(crc, h, data);
    var body := metadata + payload;
    Placed(HeaderBytes(crc, h), metadata, payload, U32Bytes(crc(body)), mac);
    ReadU32Same(data, HEADER_SIZE + |body|, U32Bytes(crc(body)), 0);
  }

  lemma Placed(header: seq<u8>, metadata: seq<u8>, payload: seq<u8>, sum: seq<u8>, mac: seq<u8>)
    ensures var data := header + metadata + payload + sum + mac;
      var start, end := |header| + |metadata|, |header| + |metadata| + |payload|;
      && data[..|header|] == header && data[|header|..end] == metadata + payload && data[start..end] == payload
      && data[end..end + |sum|] == sum && (metadata == [] ==> metadata + payload == payload)
  {
  }

  /** And a valid envelope is put together from pieces: nothing else is accepted. */
  lemma ValidatedAssembles(crc: Checksum, data: seq<u8>) returns (metadata: seq<u8>, payload: seq<u8>, mac: seq<u8>)
    requires Validated(crc, data).Some?
    ensures var h := Validated(crc, data).value;
      Pieces(h, metadata, payload, mac) && data == Assembled(crc, h, metadata, payload, mac)
  {
    hide ReadU32, U32Bytes, Parsed, BitAt, HeaderBytes, FlagsValid;
    var h := HeaderOf(data);
    FlagsAre(h.flags);
    HeaderWritten(crc, data);
    var start, end := HEADER_SIZE + Metadata(h.flags), HEADER_SIZE + Metadata(h.flags) + h.payloadLength;
    metadata, payload, mac := data[HEADER_SIZE..start], data[start..end], data[end + 4..];
    BytesOfRead(data, end);
    InPieces(data, HEADER_SIZE, start, end);
  }

  lemma InPieces(data: seq<u8>, a: nat, b: nat, c: nat)
    requires a <= b <= c && c + 4 <= |data|
    ensures data[a..b] + data[b..c] == data[a..c]
    ensures data == data[..a] + data[a..b] + data[b..c] + data[c..c + 4] + data[c + 4..]
    ensures a == b ==> data[b..c] == data[a..c]
  {
  }

  lemma HeaderWritten(crc: Checksum, data: seq<u8>)
    requires |data| >= HEADER_SIZE && ReadU32(data, 0) == MAGIC && data[4] == VERSION
    requires ReadU32(data, 20) == crc(data[..20])
    ensures HeaderBytes(crc, HeaderOf(data)) == data[..HEADER_SIZE]
  {
    hide ReadU32, U32Bytes;
    BytesOfRead(data, 0);
    BytesOfRead(data, 8);
    BytesOfRead(data, 12);
    BytesOfRead(data, 16);
    BytesOfRead(data, 20);
    assert data[..20] == data[0..4] + [data[4], data[5], data[6], data[7]] + data[8..12] + data[12..16] + data[16..20];
    assert data[..HEADER_SIZE] == data[..20] + data[20..24];
  }

  /** What is accepted, exactly. */
  lemma ValidatedIff(crc: Checksum, data: seq<u8>, h: Header)
    ensures Validated(crc, data) == Some(h) <==>
      exists metadata, payload, mac ::
        Pieces(h, metadata, payload, mac) && data == Assembled(crc, h, metadata, payload, mac)
  {
    hide Validated, Assembled, Pieces;
    if Validated(crc, data) == Some(h) {
      var metadata, payload, mac := ValidatedAssembles(crc, data);
    }
    forall metadata, payload, mac
      | Pieces(h, metadata, payload, mac) && data == Assembled(crc, h, metadata, payload, mac)
      ensures Validated(crc, data) == Some(h)
    {
      AssembledValidates(crc, h, metadata, payload, mac, data);
    }
  }

  // ---------------------------------------------------------------- encoding and visiting

  function Flags(secured: bool, truncated: bool): (f: u8)
    ensures FlagsValid(f) && BitAt(f, AUTHENTICATED) == secured && BitAt(f, TRUNCATED) == truncated
    ensures !BitAt(f, ENCRYPTED)
  {
    var f := (if secured then 1 else 0) + (if truncated then 8 else 0);
    LowBits(f);
    f
  }

  lemma LowBits(f: nat)
    ensures BitAt(f, 0) == (f % 2 == 1) && BitAt(f, 1) == (f / 2 % 2 == 1) && BitAt(f, 2) == (f / 2 / 2 % 2 == 1)
    ensures BitAt(f, 3) == (f / 2 / 2 / 2 % 2 == 1)
  {
    assert BitAt(f / 2, 1) == BitAt(f / 2 / 2, 0) && BitAt(f / 2, 2) == BitAt(f / 2 / 2, 1) == BitAt(f / 2 / 2 / 2, 0);
  }

  /** The event a runtime encodes, with everything drawn from the runtime made explicit. */
  datatype Source = Source(eventType: u8, architecture: u8, texts: seq<seq<u8>>, parts: seq<Part>)

  /** How many bytes an envelope of the source takes at most. */
  function RoomFor(source: Source, secured: bool): nat {
    HEADER_SIZE + 516 + Room(source.parts) + 4 + if secured then MAC_SIZE else 0
  }

  /** A secured envelope ends in the authentication code of everything before it. */
  predicate Signed(mac: seq<u8> -> seq<u8>, secured: bool, out: seq<u8>) {
    secured ==> |out| >= MAC_SIZE && out[|out| - MAC_SIZE..] == mac(out[..|out| - MAC_SIZE])
  }

  /**
   The envelope made of a source: it validates with the same header fields, its payload is the identity and the parts
   kept, mandatory ones among them, and its truncation flag is set exactly if something of the source is missing.
   */
  ghost predicate Encodes(crc: Checksum, identify: (seq<u8>, u32) -> u32, secured: bool, source: Source, sequence: u32,
                          out: seq<u8>, cut: seq<seq<u8>>, kept: seq<bool>)
  {
    && AllWritable(source.parts) && |cut| == FIELDS && Shortened(cut, source.texts) && |kept| == |source.parts|
    && Writable(Field(IDENTITY, Entries(cut)))
    && (forall i :: 0 <= i < |kept| && source.parts[i].Part? && source.parts[i].mandatory ==> kept[i])
    && var payload := Joined(Written(cut, source.parts, kept));
    && Validated(crc, out).Some? && HEADER_SIZE + |payload| <= |out|
    && out[HEADER_SIZE..HEADER_SIZE + |payload|] == payload
    && var h := Validated(crc, out).value;
    && h.eventType == source.eventType && h.architecture == source.architecture && h.sequence == sequence
    && h.eventId == identify(payload, sequence) && h.payloadLength == |payload|
    && h.flags == Flags(secured, BitAt(h.flags, TRUNCATED))
    && (BitAt(h.flags, TRUNCATED) <==> Curtailed(cut, source.texts, source.parts, kept))
  }

  /**
   Encodes an envelope without encryption. Success means that the output is an envelope of the source; given room for
   the identity and all parts, it succeeds and drops none of them.
   */
  method Encode(crc: Checksum, mac: seq<u8> -> seq<u8>, identify: (seq<u8>, u32) -> u32, secured: bool, source: Source,
                capacity: nat, sequence: u32)
      returns (status: Status, out: seq<u8>, cut: seq<seq<u8>>, kept: seq<bool>)
    requires |source.texts| == FIELDS && AllWritable(source.parts) && forall s :: |mac(s)| == MAC_SIZE
    ensures capacity < HEADER_SIZE + 4 + (if secured then MAC_SIZE else 0) ==> status == Einval
    ensures status == Ok ==> |out| <= capacity && Encodes(crc, identify, secured, source, sequence, out, cut, kept)
    ensures status == Ok ==> Signed(mac, secured, out) && |out| <= RoomFor(source, secured)
    ensures RoomFor(source, secured) <= capacity && RoomFor(source, secured) <= U32_MAX ==>
      status == Ok && forall i :: 0 <= i < |kept| ==> kept[i] == source.parts[i].Part?
  {
    hide FieldBytes, Joined, Entries, Chosen, Writable, Short, Validated, BitAt, HeaderBytes, Parsed, U32Bytes,
         FlagsValid, CutForRoom, DroppedForRoom, Room, TooBig, Curtailed, Written, Encodes, Flags;
    cut, kept, out := [], [], [];
    var trailing := if secured then MAC_SIZE else 0;
    if capacity < HEADER_SIZE + 4 + trailing {
      return Einval, [], [], [];
    }
    var w := new Writer(capacity - HEADER_SIZE - 4 - trailing);
    var truncated;
    status, truncated, cut, kept := PutPayload(w, source.texts, source.parts);
    if status != Ok {
      return;
    }
    var payload := w.bytes;
    if |payload| > U32_MAX {
      return Eoverflow, [], cut, kept;
    }
    var flags := Flags(secured, truncated);
    var h := Header(source.eventType, source.architecture, flags, sequence, identify(payload, sequence), |payload|);
    var plain := HeaderBytes(crc, h) + payload + U32Bytes(crc(payload));
    var code := if secured then mac(plain) else [];
    out := plain + code;
    assert out[..|plain|] == plain && out[|plain|..] == code;
    EncodedIs(crc, identify, secured, source, sequence, payload, code, out, cut, kept, truncated);
  }

  lemma EncodedIs(crc: Checksum, identify: (seq<u8>, u32) -> u32, secured: bool, source: Source, sequence: u32,
                  payload: seq<u8>, code: seq<u8>, out: seq<u8>, cut: seq<seq<u8>>, kept: seq<bool>, truncated: bool)
    requires AllWritable(source.parts) && |cut| == FIELDS && Shortened(cut, source.texts) && |kept| == |source.parts|
    requires Writable(Field(IDENTITY, Entries(cut))) && payload == Joined(Written(cut, source.parts, kept))
    requires forall i :: 0 <= i < |kept| && source.parts[i].Part? && source.parts[i].mandatory ==> kept[i]
    requires truncated <==> Curtailed(cut, source.texts, source.parts, kept)
    requires |payload| <= U32_MAX && |code| == if secured then MAC_SIZE else 0
    requires out == HeaderBytes(crc, Header(source.eventType, source.architecture, Flags(secured, truncated), sequence,
                                            identify(payload, sequence), |payload|))
                    + payload + U32Bytes(crc(payload)) + code
    ensures Encodes(crc, identify, secured, source, sequence, out, cut, kept)
  {
    hide Joined, Entries, Chosen, Writable, Short, Validated, BitAt, HeaderBytes, Parsed, U32Bytes, FlagsValid,
         Curtailed;
    ParsedJoined(Written(cut, source.parts, kept));
    var h := Header(source.eventType, source.architecture, Flags(secured, truncated), sequence,
                    identify(payload, sequence), |payload|);
    assert [] + payload == payload && HeaderBytes(crc, h) + [] == HeaderBytes(crc, h);
    AssembledValidates(crc, h, [], payload, code, out);
  }

  /** Visits the fields of a valid envelope that is not encrypted. */
  method Visit(crc: Checksum, data: seq<u8>, answers: nat -> Status) returns (status: Status, visited: seq<Field>)
    ensures Validated(crc, data).None? ==> status == Ecorrupt && visited == []
    ensures Validated(crc, data).Some? && BitAt(Validated(crc, data).value.flags, ENCRYPTED) ==>
      status == Eauth && visited == []
    ensures Validated(crc, data).Some? && !BitAt(Validated(crc, data).value.flags, ENCRYPTED) ==>
      var payload := data[HEADER_SIZE..HEADER_SIZE + Validated(crc, data).value.payloadLength];
      && Parsed(payload).Some? && visited <= Parsed(payload).value
      && (status == Ok ==> visited == Parsed(payload).value) && ((forall n :: answers(n) == Ok) ==> status == Ok)
  {
    hide BitAt, Parsed;
    visited := [];
    var header;
    status, header := Validate(crc, data);
    if status != Ok {
      return;
    }
    if BitAt(header.value.flags, ENCRYPTED) {
      return Eauth, [];
    }
    status, visited := VisitPayload(data[HEADER_SIZE..HEADER_SIZE + header.value.payloadLength], answers);
  }

  /**
   Encoding an event and visiting the envelope yields exactly the fields written, in order: without the truncation flag
   the whole identity and every part, none of them shortened, and with it less.
   */
  method EncodeThenVisit(crc: Checksum, mac: seq<u8> -> seq<u8>, identify: (seq<u8>, u32) -> u32, secured: bool,
                         source: Source, capacity: nat, sequence: u32)
      returns (status: Status, out: seq<u8>, visited: seq<Field>, cut: seq<seq<u8>>, kept: seq<bool>)
    requires |source.texts| == FIELDS && AllWritable(source.parts) && forall s :: |mac(s)| == MAC_SIZE
    ensures status == Ok ==>
      Encodes(crc, identify, secured, source, sequence, out, cut, kept) && visited == Written(cut, source.parts, kept)
    ensures status == Ok && !BitAt(Validated(crc, out).value.flags, TRUNCATED) ==>
      && cut == source.texts && |visited| == 1 + |source.parts| && visited[0] == Field(IDENTITY, Entries(source.texts))
      && forall i :: 0 <= i < |source.parts| ==>
           source.parts[i].Part? && visited[1 + i] == source.parts[i].field && !source.parts[i].shortened
    ensures status == Ok && BitAt(Validated(crc, out).value.flags, TRUNCATED) ==>
      || cut != source.texts || |visited| < 1 + |source.parts|
      || exists i :: 0 <= i < |source.parts| && source.parts[i].Part? && source.parts[i].shortened
  {
    hide FieldBytes, Joined, Entries, Chosen, Writable, Short, Validated, BitAt, Parsed, FlagsValid;
    visited := [];
    status, out, cut, kept := Encode(crc, mac, identify, secured, source, capacity, sequence);
    if status != Ok {
      return;
    }
    ParsedJoined(Written(cut, source.parts, kept));
    var always: nat -> Status := _ => Ok;
    status, visited := Visit(crc, out, always);
    if BitAt(Validated(crc, out).value.flags, TRUNCATED) {
      ChosenLess(source.parts, kept);
    } else {
      ChosenAll(source.parts, kept);
    }
  }

  /** Something was dropped: there are fewer fields than parts. */
  lemma {:induction false} ChosenLess(parts: seq<Part>, kept: seq<bool>)
    requires |kept| <= |parts| && AllWritable(parts)
    ensures |Chosen(parts, kept)| <= |kept|
    ensures (exists i :: 0 <= i < |kept| && !(kept[i] && parts[i].Part?)) ==> |Chosen(parts, kept)| < |kept|
    decreases |kept|
  {
    if kept != [] {
      ChosenLess(parts, kept[..|kept| - 1]);
    }
  }

  /** What spool and stream use of an envelope. */
  function Summary(crc: Checksum, data: seq<u8>): Option<SpoolFormat.Info> {
    var h := Validated(crc, data);
    if h.None? then None else Some(SpoolFormat.Info(h.value.eventType, h.value.sequence, h.value.eventId))
  }
}
