/** Bitwise and on integers, and the masks the driver uses for remainders. */
module Bits {
  import opened Arith

  function Pow2(k: nat): (n: nat)
    ensures 0 < n
  {
    if k == 0 then 1 else 2 * Pow2(k - 1)
  }

  /** Bitwise and, for a left operand in two's complement. */
  function And(x: int, y: nat): (z: nat)
    decreases y
  {
    if y == 0 then 0 else (if x % 2 == 1 && y % 2 == 1 then 1 else 0) + 2 * And(x / 2, y / 2)
  }

  lemma {:induction false} AndOdd(x: int, m: nat)
    requires 0 < m
    ensures And(x, 2 * m - 1) == x % 2 + 2 * And(x / 2, m - 1)
  {
    assert (2 * m - 1) % 2 == 1 && (2 * m - 1) / 2 == m - 1;
  }

  /** `x` shifted right `k` places. */
  function Shifted(x: int, k: nat): (q: int)
    decreases k
  {
    if k == 0 then x else Shifted(x / 2, k - 1)
  }

  lemma {:induction false} AndSplit(x: int, k: nat)
    ensures And(x, Pow2(k) - 1) < Pow2(k)
    ensures x == Shifted(x, k) * Pow2(k) + And(x, Pow2(k) - 1)
    decreases k
  {
    if k > 0 {
      var m, q := Pow2(k - 1), Shifted(x, k);
      AndSplit(x / 2, k - 1);
      AndOdd(x, m);
      DoubleSplit(x, x / 2, x % 2, q, m, And(x / 2, m - 1));
    }
  }

  lemma DoubleSplit(x: int, h: int, b: int, q: int, m: int, r: int)
    requires x == 2 * h + b && h == q * m + r
    ensures x == q * (2 * m) + (b + 2 * r)
  {
  }

  /** Masking with one less than a power of two is the remainder, negative operands included. */
  lemma AndMask(x: int, k: nat)
    ensures And(x, Pow2(k) - 1) == x % Pow2(k)
  {
    AndSplit(x, k);
    DivModUnique(x, Shifted(x, k), And(x, Pow2(k) - 1), Pow2(k));
  }

  predicate Bit(x: int, k: nat) {
    Shifted(x, k) % 2 == 1
  }

  /** A bit of the result is set exactly when it is set in both. */
  lemma {:induction false} AndBits(x: int, y: nat, k: nat)
    ensures Bit(And(x, y), k) <==> Bit(x, k) && Bit(y, k)
    decreases k
  {
    if y == 0 {
      ShiftedZero(k);
    } else {
      assert And(x, y) / 2 == And(x / 2, y / 2) && And(x, y) % 2 == if x % 2 == 1 && y % 2 == 1 then 1 else 0;
      if k > 0 {
        AndBits(x / 2, y / 2, k - 1);
      }
    }
  }

  lemma {:induction false} ShiftedZero(k: nat)
    ensures Shifted(0, k) == 0
  {
    if k > 0 {
      ShiftedZero(k - 1);
    }
  }
}
