/**
 The black box: a ring of checksummed records in retained memory, numbered from 1 to 2^32 - 1 over and over. The number
 decides the cell, so that the ring keeps the last records of the list of all records except, for a while after the
 numbers wrap, those whose cells are reused early.
 */
module Blackbox {
  import opened Bits
  import opened Bitmaps
  import opened Storage
  import opened SlotCommit

  const FIRST_KIND: u16 := 1
  const WATCHDOG: u16 := 4
  const POWER: u16 := 5
  const LAST_KIND: u16 := 10
  const IMPORTANT: nat := 0   // bits of the flags
  const ERROR: nat := 1

  datatype Profile = Quiet | Normal | Anomaly

  datatype Record = Record(timestamp: u32, kind: u16, source: u16, flags: u16, values: seq<int>)

  /** A retained record with its sequence number, zero when never written, and its checksum. */
  datatype Cell = Cell(sequence: u32, record: Record, crc: u32)

  type CellSum = (u32, Record) -> u32

  predicate CellValid(sum: CellSum, c: Cell) {
    c.sequence != 0 && c.crc == sum(c.sequence, c.record)
  }

  function Sealed(sum: CellSum, sequence: u32, r: Record): Cell {
    Cell(sequence, r, sum(sequence, r))
  }

  /** A cell is valid exactly if it was sealed with a number. */
  lemma ValidIff(sum: CellSum, c: Cell)
    ensures CellValid(sum, c) <==> exists n: u32, r :: n != 0 && c == Sealed(sum, n, r)
  {
    if CellValid(sum, c) {
      assert c == Sealed(sum, c.sequence, c.record);
    }
  }

  // ---------------------------------------------------------------- numbers and cells

  /** The number of a record, by its position in the list of all records. */
  function Number(k: nat): u32 {
    k % U32_MAX + 1
  }

  /** The cell a record goes to. */
  function Place(k: nat, capacity: nat): nat
    requires capacity > 0
  {
    (k % U32_MAX) % capacity
  }

  predicate Roomy(capacity: nat) {
    0 < capacity && 2 * capacity < 0x7fff_ffff
  }

  lemma PlaceIs(round: nat, at: nat, capacity: nat)
    requires capacity > 0 && at < U32_MAX
    ensures Number(round * U32_MAX + at) == at + 1 && Place(round * U32_MAX + at, capacity) == at % capacity < capacity
    ensures at < capacity ==> at % capacity == at
  {
    DivModUnique(round * U32_MAX + at, U32_MAX, round, at);
  }

  lemma Split(k: nat) returns (round: nat, at: nat)
    ensures k == round * U32_MAX + at && at < U32_MAX && at == k % U32_MAX && round == k / U32_MAX
  {
    round, at := k / U32_MAX, k % U32_MAX;
  }

  lemma PlaceBelow(k: nat, capacity: nat)
    requires 0 < capacity
    ensures Place(k, capacity) < capacity && (k < capacity <= U32_MAX ==> Place(k, capacity) == k)
  {
    var m := k % U32_MAX;
    assert Place(k, capacity) == m % capacity < capacity;
    if k < capacity <= U32_MAX {
      DivModUnique(k, U32_MAX, 0, k);
      DivModUnique(k, capacity, 0, k);
    }
  }

  /** The numbers of neighbours. */
  lemma NumberNext(k: nat)
    ensures After(Number(k)) == Number(k + 1) && Previous(Number(k + 1)) == Number(k)
  {
    var round, at := Split(k);
    PlaceIs(round, at, 1);
    if at + 1 < U32_MAX {
      PlaceIs(round, at + 1, 1);
      assert k + 1 == round * U32_MAX + (at + 1);
    } else {
      PlaceIs(round + 1, 0, 1);
      assert k + 1 == (round + 1) * U32_MAX + 0;
    }
  }

  /** Numbers compare like positions as long as these are not half the range apart. */
  lemma NumberNewer(j: nat, k: nat)
    requires j < k + 0x7fff_ffff && k < j + 0x7fff_ffff
    ensures (Newer(Number(j), Number(k)) <==> j > k) && (Number(j) == Number(k) <==> j == k)
  {
    hide Newer;
    var p, a := Split(j);
    var q, b := Split(k);
    PlaceIs(p, a, 1);
    PlaceIs(q, b, 1);
    Rounds(p, q);
    Rounds(q, p);
    var d: int := (j as int) - k;
    NewerIs(a + 1, b + 1, if p == q then d else if p > q then d + 1 else d - 1);
  }

  lemma Rounds(p: nat, q: nat)
    ensures p < q ==> q * U32_MAX >= p * U32_MAX + U32_MAX
    ensures q == p + 1 ==> q * U32_MAX == p * U32_MAX + U32_MAX
    ensures q >= p + 2 ==> q * U32_MAX >= p * U32_MAX + 2 * U32_MAX
  {
    MulSub(q, p, U32_MAX);
    if p < q {
      MulMono(1, q - p, U32_MAX);
    }
    if p + 2 <= q {
      MulMono(2, q - p, U32_MAX);
    }
  }

  lemma NewerIs(x: u32, y: u32, d: int)
    requires d in {x - y, x - y + 0x1_0000_0000, x - y - 0x1_0000_0000} && -0x8000_0000 < d < 0x8000_0000
    ensures Newer(x, y) <==> d > 0
    ensures x == y ==> d == 0
  {
    if d >= 0 {
      DivModUnique(x - y, 0x1_0000_0000, if d == x - y then 0 else if d > x - y then -1 else 1, d);
    } else {
      DivModUnique(x - y, 0x1_0000_0000, if d == x - y then -1 else if d > x - y then -2 else 0, d + 0x1_0000_0000);
    }
  }

  /** Among the last `capacity` of n places there is one for every cell. */
  lemma CellTaken(i: nat, n: nat, capacity: nat) returns (k: nat)
    requires i < capacity <= n
    ensures n - capacity <= k < n && k % capacity == i
  {
    var d := (n - 1 - i) % capacity;
    var q := (n - 1 - i) / capacity;
    assert n - 1 - i == q * capacity + d;
    k := n - 1 - d;
    DivModUnique(k, capacity, q, i);
  }

  /** Every cell the list has reached was written within the last two rounds of the ring. */
  lemma Visited(i: nat, n: nat, capacity: nat) returns (k: nat)
    requires Roomy(capacity) && i < capacity && i < n
    ensures k < n <= k + 2 * capacity && Place(k, capacity) == i
  {
    var round, at := Split(n - 1);
    var taken := at;
    if at + 1 >= capacity {
      taken := CellTaken(i, at + 1, capacity);
    } else if i <= at {
      taken := i;
    } else {
      assert round > 0;
      taken := CellTaken(i, U32_MAX, capacity);
      PlaceIs(round - 1, taken, capacity);
      MulSub(round, round - 1, U32_MAX);
      k := (round - 1) * U32_MAX + taken;
      return;
    }
    PlaceIs(round, taken, capacity);
    k := round * U32_MAX + taken;
  }

  // ---------------------------------------------------------------- what the cells hold

  /** No later record has taken the cell. */
  ghost predicate Held(k: nat, n: nat, capacity: nat)
    requires capacity > 0
  {
    k < n && forall j: nat :: k < j < n ==> Place(j, capacity) != Place(k, capacity)
  }

  /** Every cell holds the last record that went there, its position being the owner of the cell. */
  ghost predicate Keeps(sum: CellSum, cells: seq<Cell>, owners: seq<Option<nat>>, log: seq<Record>) {
    && Roomy(|cells|) && |owners| == |cells|
    && (forall i :: 0 <= i < |cells| ==> OwnedBy(sum, cells[i], i, |cells|, owners[i], log))
    && (forall k: nat :: k < |log| ==> Reached(owners, k))
  }

  ghost predicate OwnedBy(sum: CellSum, cell: Cell, i: nat, capacity: nat, owner: Option<nat>, log: seq<Record>)
    requires capacity > 0
  {
    if owner.None? then cell.sequence == 0
    else
      && owner.value < |log| && Place(owner.value, capacity) == i
      && cell == Sealed(sum, Number(owner.value), log[owner.value])
  }

  /** The cell of a position belongs to that position or a later one. */
  ghost predicate Reached(owners: seq<Option<nat>>, k: nat)
    requires |owners| > 0
  {
    var i := Place(k, |owners|);
    i < |owners| && owners[i].Some? && owners[i].value >= k
  }

  /** A cell is valid exactly when the list has reached it, and then holds a record of the last two rounds. */
  lemma ValidCell(sum: CellSum, cells: seq<Cell>, owners: seq<Option<nat>>, log: seq<Record>, i: nat)
    requires Keeps(sum, cells, owners, log) && i < |cells|
    ensures CellValid(sum, cells[i]) <==> i < |log|
    ensures i < |log| ==>
      && owners[i].Some? && owners[i].value < |log| <= owners[i].value + 2 * |cells|
      && cells[i] == Sealed(sum, Number(owners[i].value), log[owners[i].value]) && cells[i].sequence != 0
  {
    hide Place, Number;
    NumberPositive();
    assert OwnedBy(sum, cells[i], i, |cells|, owners[i], log);
    if i < |log| {
      var k := Visited(i, |log|, |cells|);
      assert Reached(owners, k);
    } else if owners[i].Some? {
      PlaceBelow(owners[i].value, |cells|);
    }
  }

  lemma NumberPositive()
    ensures forall k: nat :: Number(k) > 0
  {
  }

  /** The owner of a cell is the one record of its positions that is held. */
  lemma OwnerHeld(sum: CellSum, cells: seq<Cell>, owners: seq<Option<nat>>, log: seq<Record>, k: nat)
    requires Keeps(sum, cells, owners, log) && k < |log|
    ensures Place(k, |cells|) < |cells| && (Held(k, |log|, |cells|) <==> owners[Place(k, |cells|)] == Some(k))
  {
    hide Place, Number;
    var i := Place(k, |cells|);
    assert Reached(owners, k);
    assert OwnedBy(sum, cells[i], i, |cells|, owners[i], log);
    if owners[i] == Some(k) {
      forall j: nat | k < j < |log| ensures Place(j, |cells|) != i {
        assert Reached(owners, j);
      }
    }
  }

  lemma KeepsNext(sum: CellSum, cells: seq<Cell>, owners: seq<Option<nat>>, log: seq<Record>, r: Record)
    requires Keeps(sum, cells, owners, log)
    ensures var slot := Place(|log|, |cells|);
      slot < |cells| && Keeps(sum, cells[slot := Sealed(sum, Number(|log|), r)], owners[slot := Some(|log|)], log + [r])
  {
    hide Place, Number;
    var n, slot := |cells|, Place(|log|, |cells|);
    PlaceBelow(|log|, n);
    var now, own, longer := cells[slot := Sealed(sum, Number(|log|), r)], owners[slot := Some(|log|)], log + [r];
    forall i | 0 <= i < n ensures OwnedBy(sum, now[i], i, n, own[i], longer) {
      assert OwnedBy(sum, cells[i], i, n, owners[i], log);
    }
    forall k: nat | k < |longer| ensures Reached(own, k) {
      assert k < |log| ==> Reached(owners, k);
    }
  }

  /** The held ones among the positions from lo to hi, in order. */
  ghost function Surviving(log: seq<Record>, capacity: nat, lo: nat, hi: nat): seq<Record>
    requires lo <= hi <= |log| && capacity > 0
  {
    if lo == hi then [] else
    Surviving(log, capacity, lo, hi - 1) + if Held(hi - 1, |log|, capacity) then [log[hi - 1]] else []
  }

  lemma {:induction false} SurvivingBound(log: seq<Record>, capacity: nat, lo: nat, hi: nat)
    requires lo <= hi <= |log| && capacity > 0
    ensures |Surviving(log, capacity, lo, hi)| <= hi - lo
    ensures (forall k: nat :: lo <= k < hi ==> Held(k, |log|, capacity)) ==>
      Surviving(log, capacity, lo, hi) == log[lo..hi]
    decreases hi
  {
    hide Held;
    if lo < hi {
      SurvivingBound(log, capacity, lo, hi - 1);
      assert log[lo..hi] == log[lo..hi - 1] + [log[hi - 1]];
    }
  }

  lemma NoneSurviving(log: seq<Record>, capacity: nat, lo: nat)
    requires lo <= |log| && capacity > 0
    ensures Surviving(log, capacity, lo, lo) == []
  {
  }

  lemma SurvivingNext(log: seq<Record>, capacity: nat, lo: nat, k: nat)
    requires lo <= k < |log| && capacity > 0
    ensures Surviving(log, capacity, lo, k + 1) ==
      Surviving(log, capacity, lo, k) + if Held(k, |log|, capacity) then [log[k]] else []
    ensures |Surviving(log, capacity, lo, k)| <= k - lo
  {
    hide Held;
    SurvivingBound(log, capacity, lo, k);
  }

  // ---------------------------------------------------------------- the wrap

  /** The last `capacity` records do not straddle a wrap of the numbers. */
  predicate Unbroken(n: nat, capacity: nat) {
    n <= U32_MAX || n % U32_MAX == 0 || n % U32_MAX >= capacity
  }

  /**
   The last `capacity` records are all held exactly when they do not straddle a wrap or the capacity divides 2^32 - 1.
   */
  lemma AllHeldIff(n: nat, capacity: nat)
    requires Roomy(capacity) && capacity <= n
    ensures (forall k: nat :: n - capacity <= k < n ==> Held(k, n, capacity)) <==>
      Unbroken(n, capacity) || U32_MAX % capacity == 0
  {
    hide Place;
    if Unbroken(n, capacity) || U32_MAX % capacity == 0 {
      forall k: nat | n - capacity <= k < n ensures Held(k, n, capacity) {
        forall j: nat | k < j < n ensures Place(j, capacity) != Place(k, capacity) {
          StayApart(k, j, n, capacity);
        }
      }
    } else {
      var k, j := Collide(n, capacity);
      assert !Held(k, n, capacity);
    }
  }

  lemma StayApart(k: nat, j: nat, n: nat, capacity: nat)
    requires Roomy(capacity) && capacity <= n && n - capacity <= k < j < n
    requires (Unbroken(n, capacity) || U32_MAX % capacity == 0)
    ensures Place(j, capacity) != Place(k, capacity)
  {
    var p, a := Split(k);
    var q, b := Split(j);
    PlaceIs(p, a, capacity);
    PlaceIs(q, b, capacity);
    if p == q {
      Apart(a, b, capacity);
    } else if U32_MAX % capacity == 0 {
      Rounds(p, q);
      Rounds(q, p);
      assert q == p + 1;
      var m := U32_MAX / capacity;
      assert U32_MAX == m * capacity;
      Apart(a, b + m * capacity, capacity);
      ModShift(b, m, capacity);
    } else {
      Straddles(k, j, n, capacity, p, a, q, b);
      assert false;
    }
  }

  lemma ModShift(b: nat, m: nat, capacity: nat)
    requires capacity > 0
    ensures (b + m * capacity) % capacity == b % capacity
  {
    var q := b / capacity;
    assert b == q * capacity + b % capacity;
    MulAdd(q, m, capacity);
    DivModUnique(b + m * capacity, capacity, q + m, b % capacity);
  }

  lemma MulAdd(a: int, b: int, c: int)
    ensures (a + b) * c == a * c + b * c
  {
  }

  lemma Straddles(k: nat, j: nat, n: nat, capacity: nat, p: nat, a: nat, q: nat, b: nat)
    requires Roomy(capacity) && capacity <= n && n - capacity <= k < j < n && p != q
    requires k == p * U32_MAX + a && a < U32_MAX && j == q * U32_MAX + b && b < U32_MAX
    ensures !Unbroken(n, capacity)
  {
    Rounds(p, q);
    Rounds(q, p);
    assert q == p + 1;
    var m := n - q * U32_MAX;
    assert 0 < m < capacity;
    DivModUnique(n, U32_MAX, q, m);
  }

  lemma Apart(a: nat, b: nat, capacity: nat)
    requires capacity > 0 && a < b < a + capacity
    ensures a % capacity != b % capacity
  {
    var p, q := a / capacity, b / capacity;
    assert a == p * capacity + a % capacity && b == q * capacity + b % capacity;
    if a % capacity == b % capacity {
      MulSub(q, p, capacity);
      if q - p >= 1 {
        MulMono(1, q - p, capacity);
      } else {
        MulMono(q - p, 0, capacity);
      }
    }
  }

  /** Otherwise a record of the last round has lost its cell to a later one. */
  lemma Collide(n: nat, capacity: nat) returns (k: nat, j: nat)
    requires Roomy(capacity) && capacity <= n && !Unbroken(n, capacity) && U32_MAX % capacity != 0
    ensures n - capacity <= k < j < n && Place(k, capacity) == Place(j, capacity)
  {
    var round, m := Split(n);
    var q := U32_MAX % capacity;
    // the record d before the wrap goes to cell e, which the record e after the wrap takes
    var d := if q <= capacity - m then q else capacity - m;
    var e := q - d;
    ModShift(e, U32_MAX / capacity, capacity);
    assert U32_MAX - d == e + (U32_MAX / capacity) * capacity;
    assert round == 0 ==> n == m;
    PlaceIs(round - 1, U32_MAX - d, capacity);
    PlaceIs(round, e, capacity);
    MulSub(round, round - 1, U32_MAX);
    k, j := (round - 1) * U32_MAX + (U32_MAX - d), round * U32_MAX + e;
  }

  // ---------------------------------------------------------------- the ring

  class Ring {
    const sum: CellSum
    const cells: array<Cell>
    var next: u32
    var total: u32
    var overwritten: u32
    var frozen: bool
    var profile: Profile
    ghost var log: seq<Record>   // every record accepted since the last clear
    ghost var owners: seq<Option<nat>>

    ghost predicate Valid()
      reads this, cells
    {
      && Keeps(sum, cells[..], owners, log) && next == Number(|log|)
      && total == AtMost(|log|, U32_MAX)
      && overwritten == AtMost(if |log| > cells.Length then |log| - cells.Length else 0, U32_MAX)
    }

    constructor (checksum: CellSum, area: array<Cell>)
      requires Roomy(area.Length)
      modifies area
      ensures Valid() && log == [] && !frozen && profile == Normal && sum == checksum && cells == area
    {
      sum, cells := checksum, area;
      next, total, overwritten, frozen, profile, log, owners := 1, 0, 0, false, Normal, [], seq(area.Length, _ => None);
      new;
      Wipe();
    }

    method Wipe()
      requires Roomy(cells.Length)
      modifies cells
      ensures Keeps(sum, cells[..], seq(cells.Length, _ => None), [])
    {
      var i := 0;
      while i < cells.Length
        invariant 0 <= i <= cells.Length && forall j :: 0 <= j < i ==> cells[j].sequence == 0
      {
        cells[i] := Cell(0, Record(0, 0, 0, 0, []), 0);
        i := i + 1;
      }
    }

    method Clear()
      requires Valid()
      modifies this, cells
      ensures Valid() && log == [] && !frozen && profile == Normal
    {
      Wipe();
      next, total, overwritten, frozen, profile := 1, 0, 0, false, Normal;
      log, owners := [], seq(cells.Length, _ => None);
    }

    predicate Accepts(r: Record)
      reads this
    {
      profile != Quiet || BitAt(r.flags, IMPORTANT) || BitAt(r.flags, ERROR) || r.kind == WATCHDOG || r.kind == POWER
    }

    /**
     Records: appends to the log, with the time filled in where the record has none, unless the kind is unknown, the
     ring is frozen, or the quiet profile filters it out, which keeps important and error records, watchdog and power.
     */
    method Add(r: Record, now: u32) returns (status: Status)
      requires Valid()
      modifies this`next, this`total, this`overwritten, this`log, this`owners, cells
      ensures Valid()
      ensures status == if !(FIRST_KIND <= r.kind <= LAST_KIND) then Einval else if frozen then Ebusy else Ok
      ensures log == if status == Ok && Accepts(r) then old(log) + [Stamped(r, now)] else old(log)
      ensures !(status == Ok && Accepts(r)) ==> cells[..] == old(cells[..])
      ensures log == old(log) || (|log| == |old(log)| + 1 && log[..|old(log)|] == old(log))
      ensures log != old(log) <==>
        1 <= r.kind <= 10 && !frozen && (profile != Quiet || r.flags % 4 != 0 || r.kind == 4 || r.kind == 5)
      ensures log != old(log) ==>
        var x := log[|old(log)|];
        && x.kind == r.kind && x.source == r.source && x.flags == r.flags && x.values == r.values
        && x.timestamp == (if r.timestamp == 0 then now else r.timestamp)
    {
      hide Keeps, Number, Place;
      LowTwoBits(r.flags);
      if r.kind < FIRST_KIND || r.kind > LAST_KIND {
        return Einval;
      }
      if frozen {
        return Ebusy;
      }
      if !Accepts(r) {
        return Ok;
      }
      var sequence := if next == 0 then 1 else next;
      RoomyCells(sum, cells[..], owners, log);
      NumberPositive();
      var slot := (sequence - 1) % cells.Length;
      var stored := Stamped(r, now);
      ghost var was := cells[..];
      PlaceOfNumber(|log|, cells.Length);
      KeepsNext(sum, was, owners, log, stored);
      cells[slot] := Sealed(sum, sequence, stored);
      assert cells[..] == was[slot := Sealed(sum, sequence, stored)];
      total := Saturated(total);
      if total > cells.Length {
        overwritten := Saturated(overwritten);
      }
      NumberNext(|log|);
      next := After(sequence);
      owners := owners[slot := Some(|log|)];
      log := log + [stored];
      return Ok;
    }

    /** How many cells are valid, and the newest number among them, by the signed difference. */
    method Survey() returns (valid: nat, newest: u32)
      requires Valid()
      ensures valid == AtMost(|log|, cells.Length)
      ensures newest == if |log| == 0 then 0 else Number(|log| - 1)
    {
      hide Keeps, CellValid, Number;
      newest, valid := 0, 0;
      ghost var top: nat := 0;
      RoomyCells(sum, cells[..], owners, log);
      var i := 0;
      while i < cells.Length
        invariant 0 <= i <= cells.Length && valid == AtMost(|log|, i)
        invariant newest == 0 <==> i == 0 || |log| == 0
        invariant newest != 0 ==> newest == Number(top) && top < |log| <= top + 2 * cells.Length
        invariant forall j :: 0 <= j < i && j < |log| ==> owners[j].Some? && owners[j].value <= top
      {
        ValidCell(sum, cells[..], owners, log, i);
        if CellValid(sum, cells[i]) {
          ghost var k := owners[i].value;
          valid := valid + 1;
          if newest != 0 {
            NumberNewer(k, top);
          }
          if newest == 0 || Newer(cells[i].sequence, newest) {
            newest := cells[i].sequence;
            top := k;
          }
        }
        i := i + 1;
      }
      if |log| > 0 {
        LastOwner(sum, cells[..], owners, log, top);
      }
    }

    /** Looks for the valid cell with a given number: it is there exactly if the record is held. */
    method Fetch(sequence: u32, ghost k: nat) returns (found: bool, r: Record)
      requires Valid() && sequence == Number(k) && k < |log| <= k + 2 * cells.Length
      ensures found <==> Held(k, |log|, cells.Length)
      ensures found ==> r == log[k]
    {
      hide Keeps, CellValid, Number, Place, Held;
      found, r := false, Record(0, 0, 0, 0, []);
      RoomyCells(sum, cells[..], owners, log);
      OwnerHeld(sum, cells[..], owners, log, k);
      OwnerPlace(sum, cells[..], owners, log);
      PlaceBelow(k, cells.Length);
      ghost var here := Place(k, cells.Length);
      ValidCell(sum, cells[..], owners, log, here);
      var slot := 0;
      while slot < cells.Length
        invariant 0 <= slot <= cells.Length && (Held(k, |log|, cells.Length) ==> slot <= here)
      {
        ValidCell(sum, cells[..], owners, log, slot);
        if CellValid(sum, cells[slot]) {
          NumberNewer(owners[slot].value, k);
          if cells[slot].sequence == sequence {
            return true, cells[slot].record;
          }
        }
        slot := slot + 1;
      }
    }

    /**
     Copies out the most recent records, oldest first: those still held of the end of the list, as long as it fits.
     */
    method Copy(room: nat) returns (records: seq<Record>)
      requires Valid()
      ensures var wanted := AtMost(AtMost(|log|, cells.Length), room);
        && records == Surviving(log, cells.Length, |log| - wanted, |log|)
        && (Unbroken(|log|, cells.Length) || U32_MAX % cells.Length == 0 ==> records == log[|log| - wanted..])
    {
      hide Keeps, Number, Place, Held, Unbroken, Surviving, Newer;
      records := [];
      RoomyCells(sum, cells[..], owners, log);
      var valid, newest := Survey();
      var wanted := if valid < room then valid else room;
      ghost var lo, k := |log| - wanted, |log| - wanted;
      NoneSurviving(log, cells.Length, lo);
      WholeEnd(log, cells.Length, lo);
      if wanted == 0 {
        return;
      }
      var sequence := Before(newest, wanted - 1, |log| - 1);
      while |records| < wanted
        invariant lo <= k < |log| && sequence == Number(k) && records == Surviving(log, cells.Length, lo, k)
        decreases |log| - k
      {
        SurvivingNext(log, cells.Length, lo, k);
        NumberNewer(k, |log| - 1);
        var found, r := Fetch(sequence, k);
        if found {
          records := records + [r];
        }
        if sequence == newest {
          break;
        }
        NumberNext(k);
        sequence := After(sequence);
        k := k + 1;
      }
      SurvivingBound(log, cells.Length, lo, k);
    }

    /** The record of a given age, the newest being of age zero, if it is still held. */
    method GetRecent(age: nat) returns (status: Status, r: Record)
      requires Valid()
      ensures status == if age < |log| && age < cells.Length && Held(|log| - 1 - age, |log|, cells.Length) then Ok
        else Eagain
      ensures status == Ok ==> r == log[|log| - 1 - age]
    {
      hide Keeps, Number, Held;
      r := Record(0, 0, 0, 0, []);
      RoomyCells(sum, cells[..], owners, log);
      var valid, newest := Survey();
      NumberPositive();
      if age >= valid || newest == 0 {
        return Eagain, r;
      }
      var target := Before(newest, age, |log| - 1);
      var found;
      found, r := Fetch(target, |log| - 1 - age);
      return if found then Ok else Eagain, r;
    }

    /**
     The statistics: as many records as the list has and as many overwritten as it is longer than the ring, up to 2^32 -
     1.
     */
    method GetStats() returns (count: nat, all: u32, lost: u32)
      requires Valid()
      ensures all == AtMost(|log|, U32_MAX) && count == AtMost(|log|, cells.Length)
      ensures lost == AtMost(|log| - count, U32_MAX) && (|log| <= U32_MAX ==> count + lost == all)
    {
      hide Keeps;
      var newest;
      count, newest := Survey();
      all, lost := total, overwritten;
    }
  }

  function AtMost(x: nat, limit: nat): nat {
    if x < limit then x else limit
  }

  lemma RoomyCells(sum: CellSum, cells: seq<Cell>, owners: seq<Option<nat>>, log: seq<Record>)
    requires Keeps(sum, cells, owners, log)
    ensures Roomy(|cells|) && |owners| == |cells|
  {
  }

  lemma OwnerPlace(sum: CellSum, cells: seq<Cell>, owners: seq<Option<nat>>, log: seq<Record>)
    requires Keeps(sum, cells, owners, log)
    ensures |owners| == |cells| > 0
    ensures forall i :: 0 <= i < |owners| && owners[i].Some? ==> Place(owners[i].value, |cells|) == i
  {
    hide Place, Number;
    forall i | 0 <= i < |owners| && owners[i].Some? ensures Place(owners[i].value, |cells|) == i {
      assert OwnedBy(sum, cells[i], i, |cells|, owners[i], log);
    }
  }

  lemma PlaceOfNumber(k: nat, capacity: nat)
    requires capacity > 0
    ensures Number(k) > 0 && (Number(k) - 1) % capacity == Place(k, capacity)
  {
  }

  lemma LastOwner(sum: CellSum, cells: seq<Cell>, owners: seq<Option<nat>>, log: seq<Record>, top: nat)
    requires Keeps(sum, cells, owners, log) && 0 < |log| && top < |log|
    requires forall j :: 0 <= j < |cells| && j < |log| ==> owners[j].Some? && owners[j].value <= top
    ensures top == |log| - 1
  {
    hide Place, Number;
    var n := |log| - 1;
    assert Reached(owners, n);
    var i := Place(n, |cells|);
    ValidCell(sum, cells, owners, log, i);
    PlaceBelow(n, |cells|);
  }

  /** Unless a wrap breaks it, the end of the list survives whole. */
  lemma WholeEnd(log: seq<Record>, capacity: nat, lo: nat)
    requires Roomy(capacity) && lo <= |log| <= lo + capacity
    ensures Unbroken(|log|, capacity) || U32_MAX % capacity == 0 ==> Surviving(log, capacity, lo, |log|) == log[lo..]
  {
    hide Held, Unbroken;
    if Unbroken(|log|, capacity) || U32_MAX % capacity == 0 {
      if capacity <= |log| {
        AllHeldIff(|log|, capacity);
      } else {
        forall k: nat | k < |log| ensures Held(k, |log|, capacity) {
          FirstRound(k, |log|, capacity);
        }
      }
      SurvivingBound(log, capacity, lo, |log|);
      assert log[lo..|log|] == log[lo..];
    }
  }

  lemma FirstRound(k: nat, n: nat, capacity: nat)
    requires k < n < capacity && Roomy(capacity)
    ensures Held(k, n, capacity)
  {
    hide Place;
    PlaceBelow(k, capacity);
    forall j: nat | k < j < n ensures Place(j, capacity) != Place(k, capacity) {
      PlaceBelow(j, capacity);
    }
  }

  lemma LowTwoBits(f: nat)
    ensures BitAt(f, IMPORTANT) || BitAt(f, ERROR) <==> f % 4 != 0
  {
    assert BitAt(f, 1) == BitAt(f / 2, 0);
    var high, low := f / 2, f % 2;
    DivModUnique(f, 4, high / 2, 2 * (high % 2) + low);
  }

  function Stamped(r: Record, now: u32): Record {
    if r.timestamp == 0 then r.(timestamp := now) else r
  }

  function Saturated(x: u32): u32 {
    if x != U32_MAX then x + 1 else x
  }

  /** The next sequence number, skipping zero. */
  function After(sequence: u32): u32 {
    if sequence == U32_MAX then 1 else sequence + 1
  }

  function Previous(sequence: u32): u32
    requires sequence > 0
  {
    if sequence == 1 then U32_MAX else sequence - 1
  }

  /** Steps a number back, skipping zero. */
  method Before(sequence: u32, count: nat, ghost k: nat) returns (r: u32)
    requires count <= k && sequence == Number(k)
    ensures r == Number(k - count)
  {
    hide Number;
    r := sequence;
    var left := count;
    while left > 0
      invariant 0 <= left <= count && r == Number(k - (count - left))
    {
      NumberNext(k - (count - left) - 1);
      NumberPositive();
      r := Previous(r);
      left := left - 1;
    }
  }
}
