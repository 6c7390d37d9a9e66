/** Machine words as bounded integers, and the bit operations the sources apply to them. */
module Bits {
  type u8 = x: int | 0 <= x < 0x100
  type u16 = x: int | 0 <= x < 0x1_0000
  type u32 = x: int | 0 <= x < 0x1_0000_0000
  type u64 = x: int | 0 <= x < 0x1_0000_0000_0000_0000

  const U32_MAX: u32 := 0xffff_ffff

  function Pow2(n: nat): (r: nat)
    ensures r > 0
  {
    if n == 0 then 1 else 2 * Pow2(n - 1)
  }

  /** Bitwise conjunction. */
  function And(a: nat, b: nat): (r: nat)
    ensures r <= a && r <= b
    decreases a
  {
    if a == 0 then 0 else (if a % 2 == 1 && b % 2 == 1 then 1 else 0) + 2 * And(a / 2, b / 2)
  }

  /** Bitwise disjunction. */
  function Or(a: nat, b: nat): (r: nat)
    ensures r >= a && r >= b
    decreases a
  {
    if a == 0 then b else (if a % 2 == 1 || b % 2 == 1 then 1 else 0) + 2 * Or(a / 2, b / 2)
  }

  /** Quotient and remainder are determined by the division equation. */
  lemma DivModUnique(x: int, m: int, q: int, r: int)
    requires 0 <= r < m
    requires x == q * m + r
    ensures x / m == q && x % m == r
  {
    var d := x / m - q;
    assert x == (x / m) * m + x % m;
    assert (x / m) * m - q * m == d * m by { MulSub(x / m, q, m); }
    assert d * m == r - x % m;
    if d > 0 {
      MulMono(1, d, m);
    } else if d < 0 {
      MulMono(d, -1, m);
    }
  }

  lemma MulSub(a: int, b: int, m: int)
    ensures a * m - b * m == (a - b) * m
  {
  }

  lemma MulMono(a: int, b: int, m: int)
    requires a <= b && 0 <= m
    ensures a * m <= b * m
  {
  }

  /** One more bit of quotient and remainder by a power of two. */
  lemma DivModDouble(x: nat, m: nat)
    requires m > 0
    ensures x / (2 * m) == x / 2 / m
    ensures x % (2 * m) == x % 2 + 2 * (x / 2 % m)
  {
    var q, r := x / 2 / m, x / 2 % m;
    assert x / 2 == q * m + r;
    assert x == q * (2 * m) + (x % 2 + 2 * r);
    DivModUnique(x, 2 * m, q, x % 2 + 2 * r);
  }

  /** Conjunction of two numbers given by lowest bit and rest. */
  lemma AndCons(x: nat, y: nat, a: nat, b: nat)
    requires x < 2 && y < 2
    ensures And(x + 2 * a, y + 2 * b) == (if x == 1 && y == 1 then 1 else 0) + 2 * And(a, b)
  {
    assert (x + 2 * a) / 2 == a && (y + 2 * b) / 2 == b;
    assert x + 2 * a == 0 ==> a == 0 && And(a, b) == 0;
  }

  /** The low k bits of x. */
  function Low(x: nat, k: nat): nat {
    if k == 0 then 0 else x % 2 + 2 * Low(x / 2, k - 1)
  }

  lemma LowNext(x: nat, k: nat)
    ensures Low(x, k) == if k == 0 then 0 else x % 2 + 2 * Low(x / 2, k - 1)
  {
  }

  /** x without its low k bits. */
  function High(x: nat, k: nat): nat {
    if k == 0 then x else High(x / 2, k - 1)
  }

  /** Low and High are remainder and quotient. */
  lemma {:induction false} LowHigh(x: nat, k: nat)
    ensures Low(x, k) == x % Pow2(k)
    ensures High(x, k) == x / Pow2(k)
    decreases k
  {
    if k > 0 {
      LowHigh(x / 2, k - 1);
      DivModDouble(x, Pow2(k - 1));
    }
  }

  /** Lowest bit and rest of a conjunction. */
  lemma AndHead(a: nat, b: nat)
    ensures And(a, b) % 2 == (if a % 2 == 1 && b % 2 == 1 then 1 else 0)
    ensures And(a, b) / 2 == And(a / 2, b / 2)
  {
  }

  /** Conjunction works separately on the low k bits. */
  lemma {:induction false} AndOfLow(a: nat, b: nat, k: nat)
    ensures Low(And(a, b), k) == And(Low(a, k), Low(b, k))
    decreases k
  {
    hide And, Low;
    LowNext(And(a, b), k);
    LowNext(a, k);
    LowNext(b, k);
    if k == 0 {
      AndZero(0);
    } else {
      AndHead(a, b);
      AndOfLow(a / 2, b / 2, k - 1);
      AndCons(a % 2, b % 2, Low(a / 2, k - 1), Low(b / 2, k - 1));
    }
  }

  /** Conjunction works separately above the low k bits. */
  lemma {:induction false} AndOfHigh(a: nat, b: nat, k: nat)
    ensures High(And(a, b), k) == And(High(a, k), High(b, k))
    decreases k
  {
    if k > 0 {
      AndHead(a, b);
      AndOfHigh(a / 2, b / 2, k - 1);
    }
  }

  lemma {:induction false} Recompose(x: nat, k: nat)
    ensures x == Low(x, k) + Pow2(k) * High(x, k)
    decreases k
  {
    if k > 0 {
      Recompose(x / 2, k - 1);
      MulAssoc(2, Pow2(k - 1), High(x, k));
    }
  }

  /** A conjunction is its low part plus its shifted high part. */
  lemma AndSplit(a: nat, b: nat, k: nat)
    ensures And(a, b) == And(Low(a, k), Low(b, k)) + Pow2(k) * And(High(a, k), High(b, k))
  {
    AndOfLow(a, b, k);
    AndOfHigh(a, b, k);
    Recompose(And(a, b), k);
  }

  lemma PowerTable()
    ensures Pow2(2) == 4 && Pow2(6) == 0x40 && Pow2(8) == 0x100 && Pow2(12) == 0x1000 && Pow2(14) == 0x4000
    ensures Pow2(18) == 0x4_0000 && Pow2(20) == 0x10_0000 && Pow2(24) == 0x100_0000 && Pow2(26) == 0x400_0000
    ensures Pow2(31) == 0x8000_0000 && Pow2(32) == 0x1_0000_0000
  {
    assert Pow2(3) == 8 && Pow2(4) == 16 && Pow2(5) == 32;
    assert Pow2(7) == 0x80 && Pow2(9) == 0x200 && Pow2(10) == 0x400 && Pow2(11) == 0x800;
    assert Pow2(13) == 0x2000 && Pow2(15) == 0x8000 && Pow2(16) == 0x1_0000 && Pow2(17) == 0x2_0000;
    assert Pow2(19) == 0x8_0000 && Pow2(21) == 0x20_0000 && Pow2(22) == 0x40_0000 && Pow2(23) == 0x80_0000;
    assert Pow2(25) == 0x200_0000 && Pow2(27) == 0x800_0000 && Pow2(28) == 0x1000_0000;
    assert Pow2(29) == 0x2000_0000 && Pow2(30) == 0x4000_0000;
  }

  lemma {:induction false} PowMono(a: nat, b: nat)
    requires a <= b
    ensures Pow2(a) <= Pow2(b)
    decreases b
  {
    if a < b {
      PowMono(a, b - 1);
    }
  }

  lemma MulAssoc(a: int, b: int, c: int)
    ensures a * (b * c) == a * b * c
  {
  }

  /** Low and High for a known power of two. */
  lemma LowHighIs(x: nat, k: nat, m: nat)
    requires Pow2(k) == m
    ensures Low(x, k) == x % m
    ensures High(x, k) == x / m
  {
    LowHigh(x, k);
  }

  /** Masking with 2^k - 1 keeps the low k bits. */
  lemma {:induction false} AndLow(x: nat, k: nat)
    ensures And(x, Pow2(k) - 1) == Low(x, k)
    decreases k
  {
    hide And, Pow2, Low;
    PowNext(k);
    LowNext(x, k);
    if k > 0 {
      AndLow(x / 2, k - 1);
      var m := Pow2(k - 1) - 1;
      AndCons(x % 2, 1, x / 2, m);
      assert x == x % 2 + 2 * (x / 2) && Pow2(k) - 1 == 1 + 2 * m;
    } else {
      AndZero(x);
    }
  }

  lemma {:induction false} AndZero(x: nat)
    ensures And(x, 0) == 0
  {
    if x > 0 {
      AndZero(x / 2);
    }
  }

  /** Disjunction of disjoint bit ranges is addition. */
  lemma {:induction false} OrDisjoint(a: nat, b: nat, k: nat)
    requires a < Pow2(k)
    ensures Or(a, b * Pow2(k)) == a + b * Pow2(k)
    decreases k
  {
    hide Or, Pow2;
    PowNext(k);
    if a == 0 {
      ZeroOr(b * Pow2(k));
    } else {
      var c := b * Pow2(k - 1);
      MulDouble(b, Pow2(k - 1));
      OrDisjoint(a / 2, b, k - 1);
      OrEven(a, c);
    }
  }

  lemma PowNext(k: nat)
    ensures Pow2(k) == if k == 0 then 1 else 2 * Pow2(k - 1)
  {
  }

  lemma MulDouble(b: int, m: int)
    ensures b * (2 * m) == 2 * (b * m)
  {
  }

  lemma OrEven(a: nat, c: nat)
    requires a > 0
    ensures Or(a, 2 * c) == a % 2 + 2 * Or(a / 2, c)
  {
    assert 2 * c % 2 == 0 && 2 * c / 2 == c;
  }

  lemma {:induction false} OrZero(x: nat)
    ensures Or(x, 0) == x
  {
    if x > 0 {
      OrZero(x / 2);
    }
  }

  lemma ZeroOr(x: nat)
    ensures Or(0, x) == x
  {
  }

  /** Selection by an all-zeros or all-ones mask. */
  lemma MaskSelect(x: u32, y: u32, mask: u32)
    requires mask == 0 || mask == U32_MAX
    ensures Or(And(x, U32_MAX - mask), And(y, mask)) == if mask == 0 then x else y
  {
    hide And, Or, Low, High;
    PowerTable();
    var z := if mask == 0 then x else y;
    AndLow(z, 32);
    LowHighIs(z, 32, 0x1_0000_0000);
    AndZero(x);
    AndZero(y);
    OrZero(x);
    ZeroOr(y);
  }

  lemma {:induction false} PowAdd(a: nat, b: nat)
    ensures Pow2(a + b) == Pow2(a) * Pow2(b)
    decreases a
  {
    if a > 0 {
      PowAdd(a - 1, b);
      MulAssoc(2, Pow2(a - 1), Pow2(b));
    }
  }
}
