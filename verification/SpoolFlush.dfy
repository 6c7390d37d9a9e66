/**
 Draining the spool: acknowledging and retrying records, and the flush that sends the most important record
 first.
 */
module SpoolFlush {
  import opened Bits
  import opened Counting
  import opened Words
  import opened Storage
  import opened SlotCommit
  import opened SpoolFormat
  import opened Spool
  import opened SpoolReclaim
  import opened Outbox

  // ---------------------------------------------------------------- retry bits

  /** In every slot, retry bits have only been cleared. */
  ghost predicate RetriesFall(cfg: Config, b: seq<u8>, b': seq<u8>)
    requires SlotOffset(cfg, cfg.slots) <= |b| == |b'|
  {
    forall s: nat :: s < cfg.slots ==> And(Slot(cfg, b, s)[RETRY], Slot(cfg, b', s)[RETRY]) == Slot(cfg, b', s)[RETRY]
  }

  lemma RetriesSame(cfg: Config, b: seq<u8>)
    requires SlotOffset(cfg, cfg.slots) <= |b|
    ensures RetriesFall(cfg, b, b)
  {
    hide And, Slot, SlotOffset;
    forall s: nat | s < cfg.slots
      ensures And(Slot(cfg, b, s)[RETRY], Slot(cfg, b, s)[RETRY]) == Slot(cfg, b, s)[RETRY]
    {
      AndSame(Slot(cfg, b, s)[RETRY]);
    }
  }

  lemma {:induction false} AndWithin(a: nat, b: nat, c: nat)
    requires And(a, b) == b && And(b, c) == c
    ensures And(a, c) == c
    decreases b
  {
    if b > 0 && a > 0 {
      AndParts(a, b);
      AndParts(b, c);
      AndWithin(a / 2, b / 2, c / 2);
      AndCons(a % 2, c % 2, a / 2, c / 2);
      assert a == a % 2 + 2 * (a / 2) && c == c % 2 + 2 * (c / 2);
    }
  }

  lemma AndParts(a: nat, b: nat)
    requires And(a, b) == b
    ensures And(a / 2, b / 2) == b / 2 && b % 2 <= a % 2
  {
    AndCons(a % 2, b % 2, a / 2, b / 2);
    assert a == a % 2 + 2 * (a / 2) && b == b % 2 + 2 * (b / 2);
  }

  lemma RetriesFallTransitive(cfg: Config, a: seq<u8>, b: seq<u8>, c: seq<u8>)
    requires SlotOffset(cfg, cfg.slots) <= |a| == |b| == |c| && RetriesFall(cfg, a, b) && RetriesFall(cfg, b, c)
    ensures RetriesFall(cfg, a, c)
  {
    hide And, Slot, SlotOffset;
    forall s: nat | s < cfg.slots
      ensures And(Slot(cfg, a, s)[RETRY], Slot(cfg, c, s)[RETRY]) == Slot(cfg, c, s)[RETRY]
    {
      AndWithin(Slot(cfg, a, s)[RETRY], Slot(cfg, b, s)[RETRY], Slot(cfg, c, s)[RETRY]);
    }
  }

  /** Changing one slot so that its retry bits fall, if at all. */
  lemma OneSlotFalls(cfg: Config, b: seq<u8>, b': seq<u8>, slot: nat)
    requires slot < cfg.slots && SlotOffset(cfg, cfg.slots) <= |b| == |b'|
    requires SlotOffset(cfg, slot) + SlotSize(cfg) <= |b| && OnlySlot(b, b', SlotOffset(cfg, slot), SlotSize(cfg))
    requires And(Slot(cfg, b, slot)[RETRY], Slot(cfg, b', slot)[RETRY]) == Slot(cfg, b', slot)[RETRY]
    ensures RetriesFall(cfg, b, b')
  {
    hide And, Slot, SlotOffset, OnlySlot;
    forall s: nat | s < cfg.slots
      ensures And(Slot(cfg, b, s)[RETRY], Slot(cfg, b', s)[RETRY]) == Slot(cfg, b', s)[RETRY]
    {
      if s != slot {
        OtherSlotSame(cfg, b, b', slot, s);
        AndSame(Slot(cfg, b, s)[RETRY]);
      }
    }
  }

  // ---------------------------------------------------------------- acknowledging

  /** How many operations an acknowledgement takes: the state byte and the synchronisation. */
  function AckCost(store: Store): nat {
    store.raw.ByteCost() + 1
  }

  /** Marks a committed record as consumed: afterwards it is gone, or everything is as before. */
  method AcknowledgeRecord(store: Store, slot: nat) returns (status: Status, ghost removed: bool)
    requires store.Ready() && slot in View(store.cfg, store.raw.data[..])
    modifies store.raw`operationCount, store.raw.data
    ensures old(store.raw.Quiet()) ==> store.raw.Quiet()
    ensures status == Ok ==> removed
    ensures var v := View(store.cfg, old(store.raw.data[..]));
      View(store.cfg, store.raw.data[..]) == if removed then v - {slot} else v
    ensures KeepsVacant(store.cfg, old(store.raw.data[..]), store.raw.data[..])
    ensures RetriesFall(store.cfg, old(store.raw.data[..]), store.raw.data[..])
    ensures old(store.raw.Quiet()) && store.Whole() ==> status == Ok
    ensures old(store.raw.Off()) ==> !removed
    ensures status == Ok ==> store.raw.operationCount == old(store.raw.operationCount) + AckCost(store)
    ensures old(store.raw.Calm(AckCost(store))) && store.Whole() ==> status == Ok
  {
    hide Slot, OnlySlot, Splice, Programmable, SlotOffset, KeepsVacant, RetriesFall, And;
    var cfg := store.cfg;
    ghost var b := store.raw.data[..];
    SlotWithin(cfg, slot);
    assert CommittedAt(cfg, b, slot);
    AckProgrammable(Slot(cfg, b, slot));
    assert Slot(cfg, b, slot)[STATE] != ACKED;
    ghost var done;
    status, done := store.ProgramRecord(slot, STATE, [ACKED]);
    removed := done == 1;
    AckView(cfg, b, store.raw.data[..], slot, done);
    AndSame(Slot(cfg, b, slot)[RETRY]);
    OneSlotFalls(cfg, b, store.raw.data[..], slot);
    CommittedNotVacant(cfg, b, store.raw.data[..], slot);
    if status == Ok {
      status := store.raw.Sync();
    }
  }

  lemma AckProgrammable(r: seq<u8>)
    requires |r| >= RECORD_SIZE
    ensures Programmable(r, STATE, [ACKED])
  {
    AndZero(0xff - r[STATE]);
    ZeroAnd(0xff - r[STATE]);
  }

  lemma ZeroAnd(x: nat)
    ensures And(0, x) == 0
  {
  }

  // ---------------------------------------------------------------- retries

  /** Clears the lowest set bit, one bit tried after the other. */
  method CountRetry(bits: u8) returns (updated: u8)
    ensures updated == ClearLowest(bits)
    ensures And(bits, updated) == updated && (updated == bits <==> bits == 0)
  {
    hide Pow2, ClearLowest, And, NoneBelow;
    ClearLowestFalls(bits);
    NoneBelowZero(bits);
    var bit, mask := 0, 1;
    while bit < 8
      invariant 0 <= bit <= 8 && mask == Pow2(bit) && mask > 0 && NoneBelow(bits, bit)
    {
      if (bits / mask) % 2 == 1 {
        LowestBit(bits, bit);
        return bits - mask;
      }
      NextBit(bits, bit);
      bit, mask := bit + 1, 2 * mask;
    }
    NoneBelowEight(bits);
    updated := bits;
  }

  /** Every bit below position k is clear. */
  ghost predicate NoneBelow(bits: nat, k: nat) {
    bits % Pow2(k) == 0
  }

  lemma NoneBelowZero(bits: nat)
    ensures NoneBelow(bits, 0) && Pow2(0) == 1
  {
  }

  lemma NoneBelowEight(bits: u8)
    requires NoneBelow(bits, 8)
    ensures bits == 0 == ClearLowest(0)
  {
    PowerTable();
  }

  lemma {:induction false} LowestBit(bits: nat, k: nat)
    requires NoneBelow(bits, k) && (bits / Pow2(k)) % 2 == 1
    ensures 0 < Pow2(k) <= bits && ClearLowest(bits) == bits - Pow2(k)
  {
    if k > 0 {
      Halve(bits, k);
      LowestBit(bits / 2, k - 1);
    }
  }

  lemma Halve(bits: nat, k: nat)
    requires k > 0 && bits % Pow2(k) == 0
    ensures bits % 2 == 0 && (bits / 2) % Pow2(k - 1) == 0 && (bits / 2) / Pow2(k - 1) == bits / Pow2(k)
  {
    var m, q := Pow2(k - 1), bits / Pow2(k);
    assert bits == (2 * m) * q;
    MulAssoc(2, m, q);
    assert bits / 2 == m * q;
    DivModUnique(bits / 2, m, q, 0);
  }

  lemma NextBit(bits: nat, k: nat)
    requires NoneBelow(bits, k) && (bits / Pow2(k)) % 2 == 0
    ensures NoneBelow(bits, k + 1) && Pow2(k + 1) == 2 * Pow2(k)
  {
    var m, q := Pow2(k), bits / Pow2(k);
    assert bits == m * q && q == 2 * (q / 2);
    MulAssoc(m, 2, q / 2);
    DivModUnique(bits, 2 * m, q / 2, 0);
  }

  /** Counts a failed delivery in the retry byte; all records stay as they are, and the count only grows. */
  method IncrementRetries(store: Store, slot: nat, bits: u8) returns (status: Status)
    requires store.Ready() && slot in View(store.cfg, store.raw.data[..])
    requires bits == Slot(store.cfg, store.raw.data[..], slot)[RETRY]
    modifies store.raw`operationCount, store.raw.data
    ensures old(store.raw.Quiet()) ==> store.raw.Quiet()
    ensures View(store.cfg, store.raw.data[..]) == View(store.cfg, old(store.raw.data[..]))
    ensures KeepsVacant(store.cfg, old(store.raw.data[..]), store.raw.data[..])
    ensures RetriesFall(store.cfg, old(store.raw.data[..]), store.raw.data[..])
    ensures Slot(store.cfg, store.raw.data[..], slot)[RETRY] in {bits, ClearLowest(bits) as u8}
    ensures status == Ok ==> Slot(store.cfg, store.raw.data[..], slot)[RETRY] == ClearLowest(bits)
    ensures old(store.raw.Quiet()) && store.Whole() ==> status == Ok
  {
    hide Slot, OnlySlot, Programmable, SlotOffset, KeepsVacant, ClearLowest, RetriesFall, And;
    var cfg := store.cfg;
    ghost var b := store.raw.data[..];
    var updated := CountRetry(bits);
    assert CommittedAt(cfg, b, slot);
    SlotWithin(cfg, slot);
    if updated == bits {
      KeepsVacantSame(cfg, b);
      RetriesSame(cfg, b);
      return Ok;
    }
    RetryProgrammable(Slot(cfg, b, slot), updated);
    ghost var done;
    status, done := store.ProgramRecord(slot, RETRY, [updated]);
    RetryView(cfg, b, store.raw.data[..], slot, [updated][..done]);
    AndSame(bits);
    OneSlotFalls(cfg, b, store.raw.data[..], slot);
    CommittedNotVacant(cfg, b, store.raw.data[..], slot);
    if status == Ok {
      status := store.raw.Sync();
    }
  }

  lemma RetryProgrammable(r: seq<u8>, v: u8)
    requires |r| >= RECORD_SIZE && And(r[RETRY], v) == v
    ensures Programmable(r, RETRY, [v])
  {
    ProgramKeeps(r[RETRY], v);
  }

  // ---------------------------------------------------------------- choosing the next record

  /** The order of delivery: by Before, and by slot where Before does not decide. */
  predicate Precedes(view: map<nat, Rec>, s: nat, t: nat)
    requires s in view && t in view
  {
    Before(view[s], view[t]) || (!Before(view[t], view[s]) && s < t)
  }

  /** The sequence numbers of a priority span less than half the number range. */
  ghost predicate Fits(view: map<nat, Rec>, priority: u8) {
    exists base: u32 :: HalfRange(view, priority, base)
  }

  ghost predicate Comparable(view: map<nat, Rec>) {
    forall priority: u8 :: Fits(view, priority)
  }

  /** On the records present, Before is a strict order. */
  ghost predicate StrictlyOrdered(view: map<nat, Rec>) {
    && (forall s, t :: s in view && t in view ==> !(Before(view[s], view[t]) && Before(view[t], view[s])))
    && (forall s, t, u :: s in view && t in view && u in view ==>
          (Before(view[s], view[t]) && Before(view[t], view[u]) ==> Before(view[s], view[u])))
  }

  /** The order of delivery exists exactly while the sequence numbers of each priority span less than half the range. */
  lemma OrderIffComparable(view: map<nat, Rec>)
    ensures StrictlyOrdered(view) <==> Comparable(view)
  {
    hide Before, Fits;
    if Comparable(view) {
      forall s, t | s in view && t in view ensures !(Before(view[s], view[t]) && Before(view[t], view[s])) {
        OneWay(view, s, t);
      }
      forall s, t, u | s in view && t in view && u in view && Before(view[s], view[t]) && Before(view[t], view[u])
        ensures Before(view[s], view[u])
      {
        Chain(view, s, t, u);
      }
    }
    if StrictlyOrdered(view) {
      forall priority: u8 ensures Fits(view, priority) {
        FitsHalf(view, priority);
      }
    }
  }

  lemma OneWay(view: map<nat, Rec>, s: nat, t: nat)
    requires Comparable(view) && s in view && t in view
    ensures !(Before(view[s], view[t]) && Before(view[t], view[s]))
  {
    hide Distance;
    assert Fits(view, view[s].priority);
    var base: u32 :| HalfRange(view, view[s].priority, base);
    if view[s].priority == view[t].priority {
      BeforeIsOrder(view[s], view[t], base);
      BeforeIsOrder(view[t], view[s], base);
    }
  }

  lemma Chain(view: map<nat, Rec>, s: nat, t: nat, u: nat)
    requires Comparable(view) && s in view && t in view && u in view && Before(view[s], view[t])
    requires Before(view[t], view[u])
    ensures Before(view[s], view[u])
  {
    hide Distance;
    assert Fits(view, view[s].priority);
    var base: u32 :| HalfRange(view, view[s].priority, base);
    if view[s].priority == view[t].priority == view[u].priority {
      BeforeIsOrder(view[s], view[t], base);
      BeforeIsOrder(view[t], view[u], base);
      BeforeIsOrder(view[s], view[u], base);
    }
  }

  /** In a strict order, the least record of a priority is the base of its half range. */
  lemma FitsHalf(view: map<nat, Rec>, priority: u8)
    requires StrictlyOrdered(view)
    ensures Fits(view, priority)
  {
    hide Before, Distance, StrictlyOrdered;
    var equals := set s | s in view && view[s].priority == priority;
    if equals == {} {
      assert forall s :: s in view ==> s !in equals;
      assert HalfRange(view, priority, 0);
    } else {
      var least := Least(view, equals);
      forall s | s in view
        && view[s].priority == priority ensures Distance(view[least].sequence, view[s].sequence) < 0x8000_0000 {
        assert s in equals;
        NotBefore(view[s], view[least]);
      }
      assert HalfRange(view, priority, view[least].sequence);
    }
  }

  lemma NotBefore(a: Rec, b: Rec)
    requires a.priority == b.priority && !Before(a, b)
    ensures Distance(b.sequence, a.sequence) < 0x8000_0000
  {
  }

  /** Finitely many records in a strict order have one that none of the others precedes. */
  lemma {:induction false} Least(view: map<nat, Rec>, slots: set<nat>) returns (least: nat)
    requires StrictlyOrdered(view) && slots != {} && slots <= view.Keys
    ensures least in slots && forall t :: t in slots ==> !Before(view[t], view[least])
    decreases |slots|
  {
    hide Before;
    var x :| x in slots;
    var rest := slots - {x};
    if rest == {} {
      assert slots == {x};
      least := x;
    } else {
      least := Least(view, rest);
      if Before(view[x], view[least]) {
        least := x;
      }
    }
  }

  /** Of the first n slots, this one is to be sent first. */
  ghost predicate FirstOf(view: map<nat, Rec>, slot: nat, n: nat) {
    slot in view && forall t :: t in view && t < n && t != slot ==> Precedes(view, slot, t)
  }

  lemma SelectKeeps(view: map<nat, Rec>, slot: nat, n: nat)
    requires Comparable(view) && slot < n && FirstOf(view, slot, n) && n in view
    ensures FirstOf(view, if Before(view[n], view[slot]) then n else slot, n + 1)
  {
    hide Before;
    forall t | t in view && t < n && Before(view[n], view[slot]) ensures Precedes(view, n, t) {
      SelectBetter(view, slot, n, t);
    }
  }

  lemma SelectBetter(view: map<nat, Rec>, slot: nat, n: nat, t: nat)
    requires Comparable(view) && slot in view && n in view && t in view && (t == slot || Precedes(view, slot, t))
    requires Before(view[n], view[slot])
    ensures Before(view[n], view[t])
  {
    hide Distance;
    assert Fits(view, view[n].priority);
    var base: u32 :| HalfRange(view, view[n].priority, base);
    if view[n].priority == view[slot].priority == view[t].priority {
      BeforeIsOrder(view[n], view[slot], base);
      BeforeIsOrder(view[n], view[t], base);
      BeforeIsOrder(view[slot], view[t], base);
      BeforeIsOrder(view[t], view[slot], base);
    }
  }

  /** The record fields as read from a record header. */
  lemma FieldsAt(cfg: Config, b: seq<u8>, slot: nat, h: seq<u8>)
    requires SlotOffset(cfg, cfg.slots) <= |b| && CommittedAt(cfg, b, slot) && h == Slot(cfg, b, slot)[..RECORD_SIZE]
    ensures slot in View(cfg, b)
    ensures var rec := View(cfg, b)[slot];
      && rec.priority == h[16] && rec.sequence == ReadU32(h, 8) && rec.dataCrc == ReadU32(h, 12)
      && 0 < ReadU16(h, 6) == |rec.data| <= cfg.maxEvent
      && rec.data == Slot(cfg, b, slot)[RECORD_SIZE..RECORD_SIZE + |rec.data|]
      && Slot(cfg, b, slot)[RETRY] == h[RETRY]
  {
    hide SlotOffset, Slot;
    var r := Slot(cfg, b, slot);
    assert forall i :: 0 <= i < RECORD_SIZE ==> h[i] == r[i];
  }

  /** Scans for the committed record to send next. */
  method SelectNext(store: Store) returns (status: Status, found: bool, slot: nat, h: seq<u8>)
    requires store.Ready()
    modifies store.raw`operationCount
    ensures old(store.raw.Quiet()) ==> store.raw.Quiet() && status == Ok
    ensures status == Ok ==> (found <==> View(store.cfg, store.raw.data[..]) != map[])
    ensures status == Ok && found ==>
      && CommittedAt(store.cfg, store.raw.data[..], slot)
      && h == Slot(store.cfg, store.raw.data[..], slot)[..RECORD_SIZE]
      && (Comparable(View(store.cfg, store.raw.data[..])) ==>
            FirstOf(View(store.cfg, store.raw.data[..]), slot, store.cfg.slots))
    ensures status == Ok ==> store.raw.operationCount == old(store.raw.operationCount) + store.cfg.slots
    ensures old(store.raw.Calm(store.cfg.slots)) ==> status == Ok
  {
    hide Slot, SlotOffset, StorageSize, RecOf, RecordValid, Committed, ReadU32, ReadU16, Comparable, FirstOf;
    var cfg := store.cfg;
    ghost var b := store.raw.data[..];
    ghost var view := View(cfg, b);
    status, found, slot, h := Ok, false, 0, [];
    var i := 0;
    while i < cfg.slots
      invariant 0 <= i <= cfg.slots && store.raw.data[..] == b && (old(store.raw.Quiet()) ==> store.raw.Quiet())
      invariant status == Ok
      invariant store.raw.operationCount == old(store.raw.operationCount) + i
      invariant !found ==> forall t :: t in view ==> t >= i
      invariant found ==> slot < i && CommittedAt(cfg, b, slot) && h == Slot(cfg, b, slot)[..RECORD_SIZE]
      invariant found && Comparable(view) ==> FirstOf(view, slot, i)
    {
      var record;
      status, record := store.ReadRecord(i);
      if status != Ok {
        return;
      }
      if Committed(cfg, record) {
        FieldsAt(cfg, b, i, record);
        if found {
          FieldsAt(cfg, b, slot, h);
          if Comparable(view) {
            SelectKeeps(view, slot, i);
          }
        } else {
          FirstAlone(view, i);
        }
        if !found || record[16] < h[16]
           || (record[16] == h[16] && (ReadU32(record, 8) - ReadU32(h, 8)) % 0x1_0000_0000 >= 0x8000_0000) {
          h, slot, found := record, i, true;
        }
      } else {
        assert i !in view;
        if found {
          FirstSkips(view, slot, i);
        }
      }
      i := i + 1;
    }
    if found {
      assert slot in view;
    }
  }

  lemma FirstAlone(view: map<nat, Rec>, n: nat)
    requires n in view && forall t :: t in view ==> t >= n
    ensures FirstOf(view, n, n + 1)
  {
  }

  lemma FirstSkips(view: map<nat, Rec>, slot: nat, n: nat)
    requires n !in view
    ensures FirstOf(view, slot, n) ==> FirstOf(view, slot, n + 1)
  {
  }

  /** Beyond half the range there may be no order at all: three records, each to be sent before the next. */
  lemma BeforeCycles(priority: u8, crc: u32, data: seq<u8>)
    ensures
      var a := Rec(priority, 0, 1, crc, data);
      var b, c := a.(sequence := 0x6000_0000), a.(sequence := 0xc000_0000);
      Before(a, b) && Before(b, c) && Before(c, a)
  {
    DivModUnique(0 - 0x6000_0000, 0x1_0000_0000, -1, 0xa000_0000);
  }

  // ---------------------------------------------------------------- one pass

  /** How the transport answers: none selected, envelope taken, or sending failed. */
  datatype Reply = Unavailable | Taken | Failed(status: Status)

  /** The events of one pass over the selected record. */
  predicate PassEvents(cfg: Config, view: map<nat, Rec>, slot: nat, readable: bool, reply: Reply, removed: bool,
                       events: seq<Event>)
    requires slot in view
  {
    var rec := view[slot];
    if !readable then events == if removed then [Gone(slot, rec, Unreadable)] else []
    else if !Intact(cfg, rec) then events == if removed then [Gone(slot, rec, Corrupt)] else []
    else if reply == Taken then events == if removed then [Sent(slot, rec), Gone(slot, rec, Delivered)]
      else [Sent(slot, rec)]
    else events == [] && !removed
  }

  lemma PassHistory(cfg: Config, view: map<nat, Rec>, slot: nat, readable: bool, reply: Reply, removed: bool,
                    events: seq<Event>)
    requires slot in view && PassEvents(cfg, view, slot, readable, reply, removed, events)
    ensures History(cfg, view, events) && Replay(view, events) == if removed then view - {slot} else view
  {
    hide Intact;
    assert forall k :: 0 <= k < |events| ==> |events[..k]| <= 1;
    if events != [] {
      assert events[..0] == [];
      if |events| == 2 {
        assert events[..1] == [events[0]] && events[..1][..0] == [];
      }
    }
  }

  /** A sound record that the transport has not taken. */
  ghost predicate Refused(cfg: Config, b: seq<u8>, slot: nat, readable: bool, reply: Reply)
    requires SlotOffset(cfg, cfg.slots) <= |b|
  {
    slot in View(cfg, b) && readable && Intact(cfg, View(cfg, b)[slot]) && reply != Taken
  }

  /**
   One pass: reads the selected record, drops it if damaged, otherwise sends it and removes it only once the
   transport has taken it. A status other than Ok ends the flush.
   */
  method FlushPass(store: Store, slot: nat, h: seq<u8>, reply: Reply)
      returns (status: Status, readable: bool, ghost removed: bool, ghost events: seq<Event>)
    requires store.Ready() && CommittedAt(store.cfg, store.raw.data[..], slot)
    requires h == Slot(store.cfg, store.raw.data[..], slot)[..RECORD_SIZE] && (reply.Failed? ==> reply.status != Ok)
    modifies store.raw`operationCount, store.raw.data
    ensures old(store.raw.Quiet()) ==> store.raw.Quiet() && readable
    ensures readable <==> !(store.raw.failOperation == old(store.raw.operationCount) + 1 || old(store.raw.Off()))
    ensures store.raw.cut ==> readable || !removed
    ensures store.Whole() ==>
      (removed && !readable <==> store.raw.Glitches(old(store.raw.operationCount) + 1))
    ensures status == Ok ==> store.raw.operationCount == old(store.raw.operationCount) + 1 + AckCost(store)
    ensures old(store.raw.Calm(1 + AckCost(store))) && store.Whole() && reply == Taken ==> status == Ok
    ensures slot in View(store.cfg, old(store.raw.data[..]))
    ensures PassEvents(store.cfg, View(store.cfg, old(store.raw.data[..])), slot, readable, reply, removed, events)
    ensures var v := View(store.cfg, old(store.raw.data[..]));
      View(store.cfg, store.raw.data[..]) == if removed then v - {slot} else v
    ensures KeepsVacant(store.cfg, old(store.raw.data[..]), store.raw.data[..])
    ensures RetriesFall(store.cfg, old(store.raw.data[..]), store.raw.data[..])
    ensures status == Ok ==> removed
    ensures old(store.raw.Quiet()) && store.Whole() && reply == Taken ==> status == Ok
    ensures Refused(store.cfg, old(store.raw.data[..]), slot, readable, reply) && reply == Unavailable ==>
      status == Eagain && store.raw.data[..] == old(store.raw.data[..])
    ensures (Refused(store.cfg, old(store.raw.data[..]), slot, readable, reply) && reply.Failed?
             && old(store.raw.Quiet()) && store.Whole()) ==>
      status == reply.status && Slot(store.cfg, store.raw.data[..], slot)[RETRY] == ClearLowest(h[RETRY])
  {
    hide Slot, SlotOffset, StorageSize, RecOf, RecordValid, Committed, ReadU32, ReadU16, View, KeepsVacant,
         RetriesFall, ClearLowest;
    var cfg := store.cfg;
    ghost var b := store.raw.data[..];
    FieldsAt(cfg, b, slot, h);
    KeepsVacantSame(cfg, b);
    RetriesSame(cfg, b);
    ghost var rec := View(cfg, b)[slot];
    removed, events := false, [];
    var data, sound;
    readable, data, sound := ReadPayload(store, slot, h);
    if !sound {
      status, removed := AcknowledgeRecord(store, slot);
      events := if !removed then [] else if readable then [Gone(slot, rec, Corrupt)] else [Gone(slot, rec, Unreadable)];
      return;
    }
    match reply
    case Unavailable =>
      status := Eagain;
    case Failed(why) =>
      status := IncrementRetries(store, slot, h[RETRY]);
      if status == Ok {
        status := why;
      }
    case Taken =>
      status, removed := AcknowledgeRecord(store, slot);
      events := if removed then [Sent(slot, rec), Gone(slot, rec, Delivered)] else [Sent(slot, rec)];
  }

  /** Reads the payload of the selected record and checks it: sound means readable and intact. */
  method ReadPayload(store: Store, slot: nat, h: seq<u8>) returns (readable: bool, data: seq<u8>, sound: bool)
    requires store.Ready() && CommittedAt(store.cfg, store.raw.data[..], slot)
    requires h == Slot(store.cfg, store.raw.data[..], slot)[..RECORD_SIZE]
    modifies store.raw`operationCount
    ensures old(store.raw.Quiet()) ==> store.raw.Quiet() && readable
    ensures slot in View(store.cfg, store.raw.data[..])
    ensures readable ==> data == View(store.cfg, store.raw.data[..])[slot].data
    ensures sound <==> readable && Intact(store.cfg, View(store.cfg, store.raw.data[..])[slot])
    ensures store.raw.cut && !readable ==> store.raw.Off()
    ensures store.raw.operationCount == old(store.raw.operationCount) + 1 && (readable <==> !store.raw.Failing())
  {
    hide Slot, SlotOffset, StorageSize, RecOf, RecordValid, Committed, ReadU32, ReadU16, View;
    var cfg := store.cfg;
    FieldsAt(cfg, store.raw.data[..], slot, h);
    SlotWithin(cfg, slot);
    var length := ReadU16(h, 6);
    var status;
    status, data := ReadSlot(store.raw, SlotOffset(cfg, slot), SlotSize(cfg), RECORD_SIZE, length);
    SlotIs(cfg, store.raw.data[..], slot);
    readable := status == Ok;
    sound := readable && ReadU32(h, 12) == cfg.crc(data) && cfg.validate(data).Some?;
  }

  lemma SlotIs(cfg: Config, b: seq<u8>, slot: nat)
    requires slot < cfg.slots && SlotOffset(cfg, cfg.slots) <= |b|
    ensures SlotOffset(cfg, slot) + SlotSize(cfg) <= |b|
    ensures Slot(cfg, b, slot) == Region(b, SlotOffset(cfg, slot), SlotSize(cfg))
  {
    SlotWithin(cfg, slot);
  }

  // ---------------------------------------------------------------- the flush

  /**
   What a flush has sent, against the records it started from: no slot twice, in the order of delivery, and ahead
   of everything that is left.
   */
  ghost predicate InOrder(start: map<nat, Rec>, left: map<nat, Rec>, events: seq<Event>) {
    && (forall i :: 0 <= i < |events| && events[i].Sent? ==>
          events[i].slot in start && start[events[i].slot] == events[i].rec)
    && (forall i, j :: 0 <= i < j < |events| && events[i].Sent? && events[j].Sent? ==>
          events[i].slot != events[j].slot && (Comparable(start) ==> Precedes(start, events[i].slot, events[j].slot)))
    && (forall i, t :: 0 <= i < |events| && events[i].Sent? && t in left && t in start && t != events[i].slot ==>
          Comparable(start) ==> Precedes(start, events[i].slot, t))
  }

  /** None of the slots sent is still to be drained. */
  ghost predicate NoneLeft(left: map<nat, Rec>, events: seq<Event>) {
    forall i :: 0 <= i < |events| && events[i].Sent? ==> events[i].slot !in left
  }

  predicate Within(start: map<nat, Rec>, left: map<nat, Rec>) {
    forall t :: t in left ==> t in start && left[t] == start[t]
  }

  lemma ComparableWithin(start: map<nat, Rec>, left: map<nat, Rec>)
    requires Within(start, left) && Comparable(start)
    ensures Comparable(left)
  {
    forall priority: u8 ensures Fits(left, priority) {
      assert Fits(start, priority);
      var base: u32 :| HalfRange(start, priority, base);
      assert HalfRange(left, priority, base);
    }
  }

  lemma InOrderPass(cfg: Config, start: map<nat, Rec>, left: map<nat, Rec>, events: seq<Event>, slot: nat,
                    readable: bool, reply: Reply, removed: bool, more: seq<Event>)
    requires InOrder(start, left, events) && NoneLeft(left, events) && Within(start, left) && slot in left
    requires Comparable(left) ==> forall t :: t in left && t != slot ==> Precedes(left, slot, t)
    requires PassEvents(cfg, left, slot, readable, reply, removed, more)
    ensures var next := if removed then left - {slot} else left;
      InOrder(start, next, events + more) && Within(start, next) && (removed ==> NoneLeft(next, events + more))
  {
    hide Before, Intact, Comparable;
    if Comparable(start) {
      ComparableWithin(start, left);
    }
    var all := events + more;
    assert forall i :: 0 <= i < |all| && all[i].Sent? ==>
      (i < |events| && all[i] == events[i]) || (i == |events| && all[i] == Sent(slot, left[slot]));
  }

  /** What goes as unreadable was there at the start and is gone for good: neither left nor ever sent. */
  ghost predicate Losses(start: map<nat, Rec>, left: map<nat, Rec>, events: seq<Event>) {
    forall e :: e in events && e.Gone? && e.why == Unreadable ==>
      Has(start, e.slot, e.rec) && e.slot !in left && Sent(e.slot, e.rec) !in events
  }

  lemma LossesPass(cfg: Config, start: map<nat, Rec>, left: map<nat, Rec>, events: seq<Event>, slot: nat,
                   readable: bool, reply: Reply, removed: bool, more: seq<Event>)
    requires Losses(start, left, events) && NoneLeft(left, events) && Within(start, left) && slot in left
    requires PassEvents(cfg, left, slot, readable, reply, removed, more)
    ensures Losses(start, if removed then left - {slot} else left, events + more)
    ensures NoneUnreadable(events + more) <==> NoneUnreadable(events) && (readable || !removed)
  {
    hide Intact;
    var all := events + more;
    forall e | e in all && e.Gone? && e.why == Unreadable
      ensures Has(start, e.slot, e.rec) && (removed || e in events) && Sent(e.slot, e.rec) !in all
    {
      if e in events {
        assert e.slot !in left;
      }
    }
    assert forall e :: e in events || e in more ==> e in all;
    if removed && !readable {
      assert more[0] in all;
    }
  }

  // The operations of a flush: a pass reads every record header, the payload of the record chosen, and acknowledges it.

  function PassCost(store: Store): nat {
    store.cfg.slots + 1 + AckCost(store)
  }

  /** The operation that reads the payload in a pass, the flush starting after the operations given. */
  function PayloadRead(store: Store, from: nat, pass: nat): nat {
    from + pass * PassCost(store) + store.cfg.slots + 1
  }

  lemma NextPass(store: Store, from: nat, pass: nat)
    ensures (pass + 1) * PassCost(store) == pass * PassCost(store) + PassCost(store)
    ensures PayloadRead(store, from, pass) == from + pass * PassCost(store) + store.cfg.slots + 1
    ensures PassCost(store) > store.cfg.slots
  {
    MulSub(pass + 1, pass, PassCost(store));
  }

  /** Of the payload reads a full flush makes, the one that fails, if any, is among those made. */
  ghost predicate Reaches(store: Store, from: nat, fault: nat, made: nat, full: nat) {
    forall p: nat :: fault == PayloadRead(store, from, p) ==> (p < made <==> p < full)
  }

  /** A pass that ends in a failure makes all payload reads up to the failing operation. */
  lemma ReachesFault(store: Store, from: nat, fault: nat, pass: nat, made: nat, full: nat)
    requires made in {pass, pass + 1} && pass < full
    requires fault <= from + pass * PassCost(store) + if made == pass then store.cfg.slots else PassCost(store)
    ensures Reaches(store, from, fault, made, full)
  {
    forall p: nat | p >= made ensures PayloadRead(store, from, p) > fault {
      MulMono(made, p, PassCost(store));
      MulSub(pass + 1, pass, PassCost(store));
    }
  }

  lemma ViewBound(cfg: Config, b: seq<u8>)
    requires SlotOffset(cfg, cfg.slots) <= |b|
    ensures |View(cfg, b)| <= cfg.slots && forall s :: s in View(cfg, b) ==> s < cfg.slots
  {
    hide Slot, SlotOffset, Committed, RecOf;
    Smaller(View(cfg, b).Keys, UpTo(cfg.slots));
  }

  lemma Removing(view: map<nat, Rec>, slot: nat)
    requires slot in view
    ensures |view - {slot}| == |view| - 1
  {
    assert (view - {slot}).Keys == view.Keys - {slot};
    assert |view - {slot}| == |(view - {slot}).Keys| && |view| == |view.Keys|;
  }

  /**
   Flushes the spool: the most important and then oldest record first, as long as the transport takes them, and reclaims
   the flash in the end. `replies` gives the transport's answer in each pass.

   Whatever fails, the records left are those of the history, sent in order and each once. `fetches` gives the
   operations that read a payload: a record is lost as unreadable exactly if one of them fails with power staying on. Ok
   means that nothing committed is left and every slot is free.
   */
  method Flush(store: Store, replies: nat -> Reply)
      returns (status: Status, ghost events: seq<Event>, ghost fetches: seq<nat>)
    requires store.Ready() && forall n :: replies(n).Failed? ==> replies(n).status != Ok
    modifies store.raw`operationCount, store.raw.data
    ensures (old(store.raw.Quiet()) ==> store.raw.Quiet())
    ensures (old(store.raw.Quiet()) || store.raw.cut ==> NoneUnreadable(events))
    ensures store.Whole() ==> (!NoneUnreadable(events) <==> !store.raw.cut && store.raw.failOperation in fetches)
    ensures |fetches| <= |View(store.cfg, old(store.raw.data[..]))|
    ensures forall p :: 0 <= p < |fetches| ==> fetches[p] == PayloadRead(store, old(store.raw.operationCount), p)
    ensures (store.Whole() && !store.raw.cut && forall n :: replies(n) == Taken) ==>
      Reaches(store, old(store.raw.operationCount), store.raw.failOperation, |fetches|,
              |View(store.cfg, old(store.raw.data[..]))|)
    ensures Losses(View(store.cfg, old(store.raw.data[..])), View(store.cfg, store.raw.data[..]), events)
    ensures History(store.cfg, View(store.cfg, old(store.raw.data[..])), events)
    ensures View(store.cfg, store.raw.data[..]) == Replay(View(store.cfg, old(store.raw.data[..])), events)
    ensures InOrder(View(store.cfg, old(store.raw.data[..])), View(store.cfg, store.raw.data[..]), events)
    ensures KeepsVacant(store.cfg, old(store.raw.data[..]), store.raw.data[..])
    ensures View(store.cfg, store.raw.data[..]) != map[] ==>
      RetriesFall(store.cfg, old(store.raw.data[..]), store.raw.data[..])
    ensures forall e :: e in events ==> !e.Commit?
    ensures status == Ok ==> View(store.cfg, store.raw.data[..]) == map[]
    ensures status == Ok ==> forall s :: 0 <= s < store.cfg.slots ==> Vacant(store.cfg, store.raw.data[..], s)
    ensures (old(store.raw.Quiet()) && store.Whole() && Erasable(store) && forall n :: replies(n) == Taken) ==>
      status == Ok
  {
    hide Slot, SlotOffset, StorageSize, View, KeepsVacant, Vacant, RetriesFall, PayloadRead, PassCost, Flushing,
         NoneUnreadable, Losses, InOrder, History, Replay;
    var cfg := store.cfg;
    ghost var b := store.raw.data[..];
    status, events, fetches := FlushPasses(store, replies);
    ghost var b2 := store.raw.data[..];
    FlushGives(cfg, b, b2, events);
    if status != Ok {
      return;
    }
    status := ReclaimIfDrained(store);
    KeepsVacantTransitive(cfg, b, b2, store.raw.data[..]);
  }

  /** The passes of a flush: Ok means that nothing committed is left. */
  method FlushPasses(store: Store, replies: nat -> Reply)
      returns (status: Status, ghost events: seq<Event>, ghost fetches: seq<nat>)
    requires store.Ready() && forall n :: replies(n).Failed? ==> replies(n).status != Ok
    modifies store.raw`operationCount, store.raw.data
    ensures old(store.raw.Quiet()) ==> store.raw.Quiet()
    ensures old(store.raw.Quiet()) || store.raw.cut ==> NoneUnreadable(events)
    ensures store.Whole() ==> (!NoneUnreadable(events) <==> !store.raw.cut && store.raw.failOperation in fetches)
    ensures |fetches| <= |View(store.cfg, old(store.raw.data[..]))|
    ensures forall p :: 0 <= p < |fetches| ==> fetches[p] == PayloadRead(store, old(store.raw.operationCount), p)
    ensures (store.Whole() && !store.raw.cut && forall n :: replies(n) == Taken) ==>
      Reaches(store, old(store.raw.operationCount), store.raw.failOperation, |fetches|,
              |View(store.cfg, old(store.raw.data[..]))|)
    ensures Flushing(store.cfg, old(store.raw.data[..]), store.raw.data[..], events)
    ensures status == Ok ==> View(store.cfg, store.raw.data[..]) == map[]
    ensures old(store.raw.Quiet()) && store.Whole() && (forall n :: replies(n) == Taken) ==> status == Ok
  {
    hide Slot, SlotOffset, StorageSize, View, KeepsVacant, Vacant, RetriesFall, PayloadRead, PassCost, Flushing,
         NoneLeft, NoneUnreadable, Losses, InOrder, History, Replay;
    var cfg := store.cfg;
    ghost var b := store.raw.data[..];
    ghost var start, from := View(cfg, b), store.raw.operationCount;
    events, fetches, status := [], [], Ok;
    FlushStarts(cfg, b);
    var pass := 0;
    while pass < cfg.slots
      invariant 0 <= pass <= cfg.slots && status == Ok && (old(store.raw.Quiet()) ==> store.raw.Quiet())
      invariant |View(cfg, store.raw.data[..])| + pass == |start| <= cfg.slots
      invariant store.raw.operationCount == from + pass * PassCost(store)
      invariant |fetches| == pass && forall p :: 0 <= p < pass ==> fetches[p] == PayloadRead(store, from, p)
      invariant old(store.raw.Quiet()) || store.raw.cut ==> NoneUnreadable(events)
      invariant store.Whole() ==> (!NoneUnreadable(events) <==> !store.raw.cut && store.raw.failOperation in fetches)
      invariant Flushing(cfg, b, store.raw.data[..], events) && NoneLeft(View(cfg, store.raw.data[..]), events)
    {
      NextPass(store, from, pass);
      var found;
      ghost var fetched;
      status, found, fetched, events := FlushTurn(store, replies(pass), b, events);
      if fetched {
        fetches := fetches + [PayloadRead(store, from, pass)];
      }
      if status != Ok {
        if store.Whole() && !store.raw.cut && (forall n :: replies(n) == Taken) && |start| > pass {
          ReachesFault(store, from, store.raw.failOperation, pass, |fetches|, |start|);
        }
        return;
      }
      if !found {
        return;
      }
      pass := pass + 1;
    }
  }

  /** What a flush has established so far, having come from b to now. */
  ghost predicate Flushing(cfg: Config, b: seq<u8>, now: seq<u8>, events: seq<Event>) {
    && SlotOffset(cfg, cfg.slots) <= |b| == |now|
    && var start, left := View(cfg, b), View(cfg, now);
    && History(cfg, start, events) && left == Replay(start, events) && InOrder(start, left, events)
    && Within(start, left)
    && KeepsVacant(cfg, b, now) && RetriesFall(cfg, b, now) && Losses(start, left, events)
    && forall e :: e in events ==> !e.Commit?
  }

  lemma FlushStarts(cfg: Config, b: seq<u8>)
    requires SlotOffset(cfg, cfg.slots) <= |b|
    ensures Flushing(cfg, b, b, []) && NoneLeft(View(cfg, b), []) && NoneUnreadable([]) && |View(cfg, b)| <= cfg.slots
  {
    hide SlotOffset, View, KeepsVacant, RetriesFall, InOrder, Within, History, Replay, Losses;
    KeepsVacantSame(cfg, b);
    RetriesSame(cfg, b);
    ViewBound(cfg, b);
    StartsEmpty(cfg, View(cfg, b));
  }

  lemma FlushGives(cfg: Config, b: seq<u8>, now: seq<u8>, events: seq<Event>)
    requires Flushing(cfg, b, now, events)
    ensures SlotOffset(cfg, cfg.slots) <= |b| == |now|
    ensures var start, left := View(cfg, b), View(cfg, now);
      && History(cfg, start, events) && left == Replay(start, events) && InOrder(start, left, events)
      && KeepsVacant(cfg, b, now) && RetriesFall(cfg, b, now) && Losses(start, left, events)
    ensures forall e :: e in events ==> !e.Commit?
  {
    hide SlotOffset, View, KeepsVacant, RetriesFall, InOrder, Within, History, Replay, Losses;
  }

  /** One turn of the flush: chooses a record and passes over it. */
  method FlushTurn(store: Store, reply: Reply, ghost b: seq<u8>, ghost events: seq<Event>)
      returns (status: Status, found: bool, ghost fetched: bool, ghost all: seq<Event>)
    requires store.Ready() && (reply.Failed? ==> reply.status != Ok)
    requires Flushing(store.cfg, b, store.raw.data[..], events)
    requires NoneLeft(View(store.cfg, store.raw.data[..]), events)
    modifies store.raw`operationCount, store.raw.data
    ensures old(store.raw.Quiet()) ==> store.raw.Quiet()
    ensures Flushing(store.cfg, b, store.raw.data[..], all)
    ensures status == Ok ==> found == fetched && (found <==> View(store.cfg, old(store.raw.data[..])) != map[])
    ensures status == Ok && found ==>
      && NoneLeft(View(store.cfg, store.raw.data[..]), all)
      && |View(store.cfg, store.raw.data[..])| == |View(store.cfg, old(store.raw.data[..]))| - 1
      && store.raw.operationCount == old(store.raw.operationCount) + PassCost(store)
    ensures !fetched ==> all == events && store.raw.data[..] == old(store.raw.data[..])
    ensures fetched ==> View(store.cfg, old(store.raw.data[..])) != map[]
    ensures old(store.raw.Quiet()) || store.raw.cut ==> (NoneUnreadable(all) <==> NoneUnreadable(events))
    ensures store.Whole() ==>
      (NoneUnreadable(all) <==>
         && NoneUnreadable(events)
         && !(fetched && store.raw.Glitches(old(store.raw.operationCount) + store.cfg.slots + 1)))
    ensures old(store.raw.Calm(store.cfg.slots)) && View(store.cfg, old(store.raw.data[..])) != map[] ==> fetched
    ensures old(store.raw.Calm(store.cfg.slots)) && View(store.cfg, old(store.raw.data[..])) == map[] ==> status == Ok
    ensures old(store.raw.Calm(PassCost(store))) && store.Whole() && reply == Taken ==> status == Ok
  {
    hide Slot, SlotOffset, StorageSize, View, KeepsVacant, Vacant, CommittedAt, RetriesFall, Refused, InOrder,
         NoneLeft, Within, History, PassEvents, Replay, FirstOf, Comparable, Precedes, Losses, NoneUnreadable;
    var cfg := store.cfg;
    all, fetched := events, false;
    ghost var b1 := store.raw.data[..];
    ghost var start, left := View(cfg, b), View(cfg, b1);
    ViewBound(cfg, b1);
    var slot, h;
    status, found, slot, h := SelectNext(store);
    if status != Ok || !found {
      return;
    }
    fetched := true;
    var readable;
    ghost var removed, more;
    status, readable, removed, more := FlushPass(store, slot, h, reply);
    PassKeeps(cfg, start, left, events, slot, readable, reply, removed, more);
    LossesPass(cfg, start, left, events, slot, readable, reply, removed, more);
    KeepsVacantTransitive(cfg, b, b1, store.raw.data[..]);
    RetriesFallTransitive(cfg, b, b1, store.raw.data[..]);
    all := events + more;
    Removing(left, slot);
  }

  lemma StartsEmpty(cfg: Config, start: map<nat, Rec>)
    ensures History(cfg, start, []) && Replay(start, []) == start && InOrder(start, start, []) && NoneLeft(start, [])
    ensures Within(start, start) && Losses(start, start, []) && NoneUnreadable([])
  {
  }

  /** One pass keeps what the flush has established so far. */
  lemma PassKeeps(cfg: Config, start: map<nat, Rec>, left: map<nat, Rec>, events: seq<Event>, slot: nat,
                  readable: bool, reply: Reply, removed: bool, more: seq<Event>)
    requires History(cfg, start, events) && left == Replay(start, events)
    requires InOrder(start, left, events) && NoneLeft(left, events) && Within(start, left) && slot in left
    requires forall t :: t in left ==> t < cfg.slots
    requires Comparable(left) ==> FirstOf(left, slot, cfg.slots)
    requires PassEvents(cfg, left, slot, readable, reply, removed, more)
    ensures var next := if removed then left - {slot} else left;
      && History(cfg, start, events + more) && Replay(start, events + more) == next
      && InOrder(start, next, events + more) && Within(start, next) && (removed ==> NoneLeft(next, events + more))
    ensures (forall e :: e in events ==> !e.Commit?) ==> forall e :: e in events + more ==> !e.Commit?
  {
    hide InOrder, NoneLeft, Within, History, Replay, Intact, Precedes, Comparable;
    PassHistory(cfg, left, slot, readable, reply, removed, more);
    HistoryConcat(cfg, start, events, more);
    InOrderPass(cfg, start, left, events, slot, readable, reply, removed, more);
  }
}
