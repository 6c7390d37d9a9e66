/**
 The replay window: a receiver accepts each sequence number once, in any order within the last 64, and follows the
 numbers around their 32-bit wrap.
 */
module ReplayWindow {
  import opened Bits
  import opened Bitmaps

  const WINDOW: nat := 64
  const HALF: int := 0x8000_0000
  const RANGE: int := 0x1_0000_0000

  datatype State = State(highest: u32, seen: u64, initialized: bool)

  // ---------------------------------------------------------------- unwrapped numbers

  /**
   The unwrapped number a sequence stands for, seen from the unwrapped highest one: ahead by less than half the range,
   or behind.
   */
  function Unwrap(highest: int, x: u32): int {
    var forward := (x - highest) % RANGE;
    if forward < HALF then highest + forward else highest + forward - RANGE
  }

  lemma UnwrapIs(highest: int, x: u32)
    ensures Unwrap(highest, x) % RANGE == x && highest - HALF <= Unwrap(highest, x) < highest + HALF
  {
    var forward := (x - highest) % RANGE;
    var q := (x - highest) / RANGE;
    assert x - highest == q * RANGE + forward;
    var v := Unwrap(highest, x);
    if forward < HALF {
      assert v == x - q * RANGE;
      DivModUnique(v, RANGE, -q, x);
    } else {
      assert v == x - (q + 1) * RANGE;
      DivModUnique(v, RANGE, -q - 1, x);
    }
  }

  /** The window stands for a set of accepted unwrapped numbers: bit d for the number d behind the highest. */
  ghost predicate Stands(s: State, top: int, accepted: set<int>) {
    if s.initialized then
      && top % RANGE == s.highest && top in accepted && (forall a :: a in accepted ==> a <= top)
      && forall d: nat :: d < WINDOW ==> (BitAt(s.seen, d) <==> top - d in accepted)
    else s.seen == 0 && accepted == {}
  }

  /** Where the top is after a number was offered. */
  function Raised(s: State, top: int, x: u32): int {
    if !s.initialized then x else if Unwrap(top, x) > top then Unwrap(top, x) else top
  }

  function Position(s: State, top: int, x: u32): int {
    if s.initialized then Unwrap(top, x) else x
  }

  /** The rule: ahead of everything, or within the window and not accepted before. */
  ghost predicate Fresh(s: State, top: int, accepted: set<int>, x: u32) {
    !s.initialized || Unwrap(top, x) > top || (top - Unwrap(top, x) < WINDOW && Unwrap(top, x) !in accepted)
  }

  // ---------------------------------------------------------------- the bitmap

  function Shifted(seen: u64, forward: nat): (r: nat)
  {
    Or(seen * Pow2(forward) % Pow2(WINDOW), 1)
  }

  lemma ShiftedBits(seen: u64, forward: nat)
    requires 0 < forward
    ensures Shifted(seen, forward) < Pow2(WINDOW)
    ensures forall d: nat :: d < WINDOW ==>
      (BitAt(Shifted(seen, forward), d) <==> d == 0 || (d >= forward && BitAt(seen, d - forward)))
  {
    hide BitAt, Or, Low;
    var x := seen * Pow2(forward);
    LowHigh(x, WINDOW);
    LowBelow(x, WINDOW);
    OneIs();
    SetBit(Low(x, WINDOW), 0, WINDOW);
    forall d: nat | d < WINDOW
      ensures BitAt(Shifted(seen, forward), d) <==> d == 0 || (d >= forward && BitAt(seen, d - forward))
    {
      TruncateBits(x, WINDOW, d);
      ShiftBits(seen, forward, d);
    }
  }

  lemma OneIs()
    ensures Pow2(0) == 1 && BitAt(1, 0) && forall d: nat :: d > 0 ==> !BitAt(1, d)
  {
    forall d: nat | d > 0 ensures !BitAt(1, d) {
      ZeroBits(d - 1);
    }
  }

  lemma WindowPower()
    ensures Pow2(WINDOW) == 0x1_0000_0000_0000_0000
  {
    PowerTable();
    PowAdd(32, 32);
  }

  // ---------------------------------------------------------------- the window

  class Window {
    var highest: u32
    var seen: u64
    var initialized: bool

    function Get(): State
      reads this
    {
      State(highest, seen, initialized)
    }

    constructor Load(s: State)
      ensures Get() == s
    {
      highest, seen, initialized := s.highest, s.seen, s.initialized;
    }

    method Reset()
      modifies this
      ensures Get() == State(0, 0, false) && Stands(Get(), 0, {})
    {
      highest, seen, initialized := 0, 0, false;
    }

    /** Offers a sequence number: it is accepted exactly when the rule allows it, and then never again. */
    method Accept(x: u32, ghost top: int, ghost accepted: set<int>) returns (ok: bool)
      requires Stands(Get(), top, accepted)
      modifies this
      ensures ok <==> Fresh(old(Get()), top, accepted, x)
      ensures initialized
      ensures Stands(Get(), Raised(old(Get()), top, x),
                     if ok then accepted + {Position(old(Get()), top, x)} else accepted)
    {
      hide BitAt, Pow2, Or, And, Shifted, Stands, Fresh, Raised, Position, Unwrap;
      WindowPower();
      ghost var was := Get();
      if !initialized {
        OneIs();
        FirstStands(was, top, accepted, x);
        highest, seen, initialized := x, 1, true;
        return true;
      }
      var forward := (x - highest) % RANGE;
      if forward != 0 && forward < HALF {
        if forward >= WINDOW {
          OneIs();
          seen := 1;
        } else {
          ShiftedBits(seen, forward);
          seen := Shifted(seen, forward);
        }
        AheadStands(was, top, accepted, x, seen);
        highest := x;
        return true;
      }
      var distance := (highest - x) % RANGE;
      if distance >= WINDOW {
        RefusedStands(was, top, accepted, x);
        return false;
      }
      MaskTests(seen, distance);
      if And(seen, Pow2(distance)) != 0 {
        RefusedStands(was, top, accepted, x);
        return false;
      }
      SetBit(seen, distance, WINDOW);
      seen := Or(seen, Pow2(distance));
      BehindStands(was, top, accepted, x, seen);
      return true;
    }
  }

  lemma FirstStands(s: State, top: int, accepted: set<int>, x: u32)
    requires !s.initialized && Stands(s, top, accepted) && BitAt(1, 0) && forall d: nat :: d > 0 ==> !BitAt(1, d)
    ensures Fresh(s, top, accepted, x) && Stands(State(x, 1, true), Raised(s, top, x), accepted + {Position(s, top, x)})
  {
    hide BitAt, Unwrap;
  }

  /** A number ahead: the bitmap shifts, or starts afresh when the number is beyond the window. */
  lemma AheadStands(s: State, top: int, accepted: set<int>, x: u32, seen: u64)
    requires s.initialized && Stands(s, top, accepted)
    requires var forward := (x - s.highest) % RANGE;
      && 0 < forward < HALF
      && forall d: nat :: d < WINDOW ==> (BitAt(seen, d) <==> d == 0 || (d >= forward && BitAt(s.seen, d - forward)))
    ensures Fresh(s, top, accepted, x)
    ensures Stands(State(x, seen, true), Raised(s, top, x), accepted + {Position(s, top, x)})
  {
    hide BitAt, Unwrap;
    ForwardIs(s.highest, top, x);
    var v, forward := Unwrap(top, x), (x - s.highest) % RANGE;
    forall d: nat | d < WINDOW ensures BitAt(seen, d) <==> v - d in accepted + {v} {
      if d >= forward {
        assert BitAt(s.seen, d - forward) <==> top - (d - forward) in accepted;
      }
    }
  }

  lemma RefusedStands(s: State, top: int, accepted: set<int>, x: u32)
    requires s.initialized && Stands(s, top, accepted) && !(0 < (x - s.highest) % RANGE < HALF)
    requires var distance := (s.highest - x) % RANGE; distance >= WINDOW || BitAt(s.seen, distance)
    ensures !Fresh(s, top, accepted, x) && Stands(s, Raised(s, top, x), accepted)
  {
    hide BitAt, Unwrap;
    ForwardIs(s.highest, top, x);
  }

  /** A number within the window that was not accepted before. */
  lemma BehindStands(s: State, top: int, accepted: set<int>, x: u32, seen: u64)
    requires s.initialized && Stands(s, top, accepted) && !(0 < (x - s.highest) % RANGE < HALF)
    requires var distance := (s.highest - x) % RANGE;
      && distance < WINDOW && !BitAt(s.seen, distance)
      && forall d: nat :: d < WINDOW ==> (BitAt(seen, d) <==> BitAt(s.seen, d) || d == distance)
    ensures Fresh(s, top, accepted, x)
    ensures Stands(State(s.highest, seen, true), Raised(s, top, x), accepted + {Position(s, top, x)})
  {
    hide BitAt, Unwrap;
    ForwardIs(s.highest, top, x);
    var v, distance := Unwrap(top, x), (s.highest - x) % RANGE;
    assert top - distance == v && v !in accepted by {
      assert BitAt(s.seen, distance) <==> top - distance in accepted;
    }
  }

  /** The wrapped differences the code computes, in terms of the unwrapped numbers. */
  lemma ForwardIs(highest: u32, top: int, x: u32)
    requires top % RANGE == highest
    ensures var v := Unwrap(top, x);
      && v % RANGE == x && top - HALF <= v < top + HALF
      && (v > top <==> 0 < (x - highest) % RANGE < HALF)
      && (v > top ==> v - top == (x - highest) % RANGE)
      && (v <= top ==> top - v == (highest - x) % RANGE)
  {
    UnwrapIs(top, x);
    var v := Unwrap(top, x);
    var q, r := top / RANGE, v / RANGE;
    assert top == q * RANGE + highest && v == r * RANGE + x;
    if v > top {
      DivModUnique(x - highest, RANGE, q - r, v - top);
    } else {
      DivModUnique(highest - x, RANGE, r - q, top - v);
      if v == top {
        DivModUnique(x - highest, RANGE, q - r, 0);
      } else {
        DivModUnique(x - highest, RANGE, q - r - 1, v - top + RANGE);
      }
    }
  }

  // ---------------------------------------------------------------- the global window

  /** The runtime keeps only two fields and takes a non-zero bitmap for an initialised window. */
  class Runtime {
    var replayHighest: u32
    var replayBitmap: u64

    function Get(): State
      reads this
    {
      State(replayHighest, replayBitmap, replayBitmap != 0)
    }

    constructor ()
      ensures Get() == State(0, 0, false)
    {
      replayHighest, replayBitmap := 0, 0;
    }

    /** The wrapper keeps the same promise: an initialised window always has its lowest bit set. */
    method ReplayAccept(x: u32, ghost top: int, ghost accepted: set<int>) returns (ok: bool)
      requires Stands(Get(), top, accepted)
      modifies this
      ensures ok <==> Fresh(old(Get()), top, accepted, x)
      ensures Get().initialized
      ensures Stands(Get(), Raised(old(Get()), top, x),
                     if ok then accepted + {Position(old(Get()), top, x)} else accepted)
    {
      hide Fresh, Raised, Position;
      var replay := new Window.Load(State(replayHighest, replayBitmap, replayBitmap != 0));
      ok := replay.Accept(x, top, accepted);
      LowestSet(replay.Get(), Raised(old(Get()), top, x),
                if ok then accepted + {Position(old(Get()), top, x)} else accepted);
      replayHighest, replayBitmap := replay.highest, replay.seen;
    }
  }

  lemma LowestSet(s: State, top: int, accepted: set<int>)
    requires s.initialized && Stands(s, top, accepted)
    ensures s.seen != 0
  {
    ZeroBits(0);
    assert top - 0 in accepted;
    assert BitAt(s.seen, 0);
  }

  // ---------------------------------------------------------------- runs

  /** One offer: the top before it, the unwrapped number, and whether it was accepted. */
  datatype Offer = Offer(top: int, position: int, accepted: bool)

  /** The positions accepted so far. */
  function AcceptedBy(offers: seq<Offer>): set<int> {
    set i | 0 <= i < |offers| && offers[i].accepted :: offers[i].position
  }

  lemma AcceptedNext(offers: seq<Offer>, o: Offer)
    ensures AcceptedBy(offers + [o]) == AcceptedBy(offers) + if o.accepted then {o.position} else {}
  {
    var longer := offers + [o];
    assert forall i :: 0 <= i < |offers| ==> longer[i] == offers[i];
    assert longer[|offers|] == o;
  }

  /** The rule, on the offers alone: the first, one ahead of all, or one of the last 64 not accepted before. */
  predicate Ruled(offers: seq<Offer>, j: nat)
    requires j < |offers|
  {
    var o := offers[j];
    o.accepted <==>
      j == 0 || o.position > o.top || (o.top - o.position < WINDOW && o.position !in AcceptedBy(offers[..j]))
  }

  /** The same number is accepted again only after the top has moved more than half the range past it. */
  lemma Repeated(first: int, second: int, top: int)
    requires first % RANGE == second % RANGE && first != second && first <= top && top - WINDOW < second < top + HALF
    ensures top > first + HALF
  {
    var q, r := first / RANGE, second / RANGE;
    assert first == q * RANGE + first % RANGE && second == r * RANGE + second % RANGE;
    assert second - first == (r - q) * RANGE;
    if r < q {
      MulMono(r - q, -1, RANGE);
    } else {
      MulMono(1, r - q, RANGE);
    }
  }

  /** What holds of the offers of a run. The top of an offer is the highest number accepted before it. */
  ghost predicate Lawful(xs: seq<u32>, offers: seq<Offer>) {
    && |offers| == |xs|
    && (forall j :: 0 <= j < |offers| ==> Ruled(offers, j) && offers[j].position % RANGE == xs[j])
    && (forall j :: 0 < j < |offers| ==> offers[j].top - HALF <= offers[j].position < offers[j].top + HALF)
    && (forall i, j :: 0 <= i < j < |offers| && offers[i].accepted ==> offers[i].position <= offers[j].top)
    && (forall j :: 0 < j < |offers| ==> offers[j].top in AcceptedBy(offers[..j]))
  }

  lemma LawfulNext(xs: seq<u32>, offers: seq<Offer>, x: u32, o: Offer)
    requires Lawful(xs, offers) && o.position % RANGE == x
    requires o.accepted <==>
      |offers| == 0 || o.position > o.top || (o.top - o.position < WINDOW && o.position !in AcceptedBy(offers))
    requires |offers| > 0 ==> o.top - HALF <= o.position < o.top + HALF && o.top in AcceptedBy(offers)
    requires forall a :: a in AcceptedBy(offers) ==> a <= o.top
    ensures Lawful(xs + [x], offers + [o])
  {
    var longer := offers + [o];
    forall j | 0 <= j < |longer| ensures Ruled(longer, j) {
      assert longer[..j] == if j < |offers| then offers[..j] else offers;
      assert j < |offers| ==> Ruled(offers, j);
    }
    forall i, j | 0 <= i < j < |longer| && longer[i].accepted ensures longer[i].position <= longer[j].top {
      if j == |offers| {
        assert offers[i].position in AcceptedBy(offers);
      }
    }
    forall j | 0 < j < |longer| ensures longer[j].top in AcceptedBy(longer[..j]) {
      assert longer[..j] == if j < |offers| then offers[..j] else offers;
      assert j < |offers| ==> offers[j].top in AcceptedBy(offers[..j]);
    }
  }

  /** A number is accepted a second time only with the top more than 2^31 past it. */
  lemma TopMoved(xs: seq<u32>, offers: seq<Offer>, i: nat, j: nat)
    requires Lawful(xs, offers) && i < j < |offers| && offers[i].accepted && offers[j].accepted && xs[i] == xs[j]
    ensures offers[j].top > offers[i].position + HALF
  {
    assert Ruled(offers, j);
    assert offers[..j][i] == offers[i];
    assert offers[i].position in AcceptedBy(offers[..j]);
    Repeated(offers[i].position, offers[j].position, offers[j].top);
  }

  /**
   Over any run, a number is accepted a second time only after one more than 2^31 ahead of it was accepted in between.
   */
  lemma NeverTwice(xs: seq<u32>, offers: seq<Offer>, i: nat, j: nat)
    requires Lawful(xs, offers) && i < j < |offers| && offers[i].accepted && offers[j].accepted && xs[i] == xs[j]
    ensures exists k :: i < k < j && offers[k].accepted && offers[k].position > offers[i].position + HALF
  {
    hide Ruled, AcceptedBy;
    TopMoved(xs, offers, i, j);
    var k := AcceptedAt(offers, j, offers[j].top);
    assert offers[k].accepted;
  }

  lemma AcceptedAt(offers: seq<Offer>, j: nat, position: int) returns (k: nat)
    requires j <= |offers| && position in AcceptedBy(offers[..j])
    ensures k < j && offers[k].accepted && offers[k].position == position
  {
    k :| 0 <= k < j && offers[..j][k].accepted && offers[..j][k].position == position;
  }

  /**
   The highest number accepted before an offer is its top, so that an offer is taken in the order of the numbers
   accepted.
   */
  lemma TopIsHighest(xs: seq<u32>, offers: seq<Offer>, j: nat)
    requires Lawful(xs, offers) && 0 < j < |offers|
    ensures offers[j].top in AcceptedBy(offers[..j]) && forall a :: a in AcceptedBy(offers[..j]) ==> a <= offers[j].top
  {
    forall a | a in AcceptedBy(offers[..j]) ensures a <= offers[j].top {
      var i :| 0 <= i < j && offers[..j][i].accepted && offers[..j][i].position == a;
      assert offers[i].accepted;
    }
  }

  /** Runs a window and the global wrapper side by side: they agree on every number, and the run is lawful. */
  method Run(xs: seq<u32>) returns (answers: seq<bool>, offers: seq<Offer>)
    ensures |answers| == |xs| && Lawful(xs, offers) && forall k :: 0 <= k < |xs| ==> answers[k] == offers[k].accepted
  {
    hide BitAt, Stands, Lawful, AcceptedBy, Unwrap;
    var window := new Window.Load(State(0, 0, false));
    var runtime := new Runtime();
    answers, offers := [], [];
    var top := 0;
    StartsLawful();
    var i := 0;
    while i < |xs|
      invariant 0 <= i <= |xs| && |answers| == i == |offers| && Lawful(xs[..i], offers) && window.Get() == runtime.Get()
      invariant forall k :: 0 <= k < i ==> answers[k] == offers[k].accepted
      invariant Stands(window.Get(), top, AcceptedBy(offers)) && (i > 0 <==> window.initialized)
    {
      var was := window.Get();
      ghost var taken := AcceptedBy(offers);
      var ok := window.Accept(xs[i], top, taken);
      var same := runtime.ReplayAccept(xs[i], top, taken);
      assert same == ok;
      Determined(window.Get(), runtime.Get(), Raised(was, top, xs[i]),
                 if ok then taken + {Position(was, top, xs[i])} else taken);
      var o := Offer(top, Position(was, top, xs[i]), ok);
      StandsLawful(was, top, taken, xs[i]);
      AcceptedNext(offers, o);
      assert AcceptedBy(offers + [o]) == if ok then taken + {o.position} else taken;
      LawfulNext(xs[..i], offers, xs[i], o);
      assert xs[..i] + [xs[i]] == xs[..i + 1];
      answers, offers, top := answers + [ok], offers + [o], Raised(was, top, xs[i]);
      i := i + 1;
    }
    assert xs[..i] == xs;
  }

  lemma StartsLawful()
    ensures Lawful([], []) && Stands(State(0, 0, false), 0, AcceptedBy([]))
  {
  }

  lemma StandsLawful(s: State, top: int, accepted: set<int>, x: u32)
    requires Stands(s, top, accepted)
    ensures Position(s, top, x) % RANGE == x
    ensures s.initialized ==> top - HALF <= Position(s, top, x) < top + HALF && top in accepted
    ensures forall a :: a in accepted ==> a <= top
    ensures !s.initialized ==> accepted == {}
  {
    UnwrapIs(top, x);
  }

  lemma {:induction false} BitsDetermine(x: nat, y: nat, n: nat)
    requires x < Pow2(n) && y < Pow2(n) && forall d: nat :: d < n ==> BitAt(x, d) == BitAt(y, d)
    ensures x == y
    decreases n
  {
    if n > 0 {
      assert BitAt(x, 0) == BitAt(y, 0);
      forall d: nat | d < n - 1 ensures BitAt(x / 2, d) == BitAt(y / 2, d) {
        assert BitAt(x, d + 1) == BitAt(y, d + 1);
      }
      BitsDetermine(x / 2, y / 2, n - 1);
    }
  }

  /** A window is determined by what it stands for. */
  lemma Determined(s: State, t: State, top: int, accepted: set<int>)
    requires s.initialized && t.initialized && Stands(s, top, accepted) && Stands(t, top, accepted)
    ensures s == t
  {
    hide BitAt, Pow2;
    WindowPower();
    BitsDetermine(s.seen, t.seen, WINDOW);
  }
}
