/** Single bits of numbers: testing, setting and shifting them. */
module Bitmaps {
  import opened Bits

  predicate BitAt(x: nat, k: nat) {
    if k == 0 then x % 2 == 1 else BitAt(x / 2, k - 1)
  }

  lemma ZeroBits(k: nat)
    ensures !BitAt(0, k)
  {
  }

  /** Testing a bit with a mask. */
  lemma {:induction false} MaskTests(x: nat, k: nat)
    ensures And(x, Pow2(k)) != 0 <==> BitAt(x, k)
    decreases k
  {
    if k == 0 {
      AndZero(x / 2);
      AndCons(x % 2, 1, x / 2, 0);
    } else {
      MaskTests(x / 2, k - 1);
      AndCons(x % 2, 0, x / 2, Pow2(k - 1));
    }
  }

  lemma OrCons(p: nat, q: nat, a: nat, b: nat)
    requires p < 2 && q < 2
    ensures Or(p + 2 * a, q + 2 * b) == (if p == 1 || q == 1 then 1 else 0) + 2 * Or(a, b)
  {
    assert (p + 2 * a) / 2 == a && (q + 2 * b) / 2 == b;
    assert p + 2 * a == 0 ==> a == 0 && Or(a, b) == b;
  }

  /** A disjunction has the bits of both. */
  lemma {:induction false} OrBits(x: nat, y: nat, k: nat)
    ensures BitAt(Or(x, y), k) <==> BitAt(x, k) || BitAt(y, k)
    decreases k
  {
    OrCons(x % 2, y % 2, x / 2, y / 2);
    assert x == x % 2 + 2 * (x / 2) && y == y % 2 + 2 * (y / 2);
    if k > 0 {
      OrBits(x / 2, y / 2, k - 1);
    }
  }

  lemma {:induction false} PowBits(k: nat, j: nat)
    ensures BitAt(Pow2(k), j) <==> j == k
    decreases k
  {
    if k > 0 && j > 0 {
      PowBits(k - 1, j - 1);
    } else if k == 0 && j > 0 {
      ZeroBits(j - 1);
    }
  }

  lemma {:induction false} OrBelow(x: nat, y: nat, k: nat)
    requires x < Pow2(k) && y < Pow2(k)
    ensures Or(x, y) < Pow2(k)
    decreases k
  {
    if k > 0 {
      OrBelow(x / 2, y / 2, k - 1);
      OrCons(x % 2, y % 2, x / 2, y / 2);
      assert x == x % 2 + 2 * (x / 2) && y == y % 2 + 2 * (y / 2);
    }
  }

  /** Setting bit k of a number of n bits. */
  lemma SetBit(x: nat, k: nat, n: nat)
    requires x < Pow2(n) && k < n
    ensures Or(x, Pow2(k)) < Pow2(n)
    ensures forall j: nat :: BitAt(Or(x, Pow2(k)), j) <==> BitAt(x, j) || j == k
  {
    PowMono(k + 1, n);
    OrBelow(x, Pow2(k), n);
    forall j: nat ensures BitAt(Or(x, Pow2(k)), j) <==> BitAt(x, j) || j == k {
      OrBits(x, Pow2(k), j);
      PowBits(k, j);
    }
  }

  /** Shifting left by s moves bit j to bit j + s. */
  lemma {:induction false} ShiftBits(x: nat, s: nat, j: nat)
    ensures BitAt(x * Pow2(s), j) <==> j >= s && BitAt(x, j - s)
    decreases s
  {
    if s > 0 {
      var y := x * Pow2(s - 1);
      MulAssoc(2, x, Pow2(s - 1));
      assert x * Pow2(s) == 2 * y;
      if j > 0 {
        ShiftBits(x, s - 1, j - 1);
      }
    }
  }

  /** Truncation to n bits keeps the bits below n. */
  lemma {:induction false} TruncateBits(x: nat, n: nat, j: nat)
    ensures BitAt(Low(x, n), j) <==> j < n && BitAt(x, j)
    decreases n
  {
    if n == 0 {
      ZeroBits(j);
    } else if j > 0 {
      TruncateBits(x / 2, n - 1, j - 1);
    }
  }

  lemma {:induction false} LowBelow(x: nat, n: nat)
    ensures Low(x, n) < Pow2(n)
    decreases n
  {
    if n > 0 {
      LowBelow(x / 2, n - 1);
    }
  }
}
