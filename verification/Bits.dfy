/** Shifts and masks of natural numbers, bit by bit. */
module Bits {

  function Pow2(k: nat): (p: nat)
    ensures p > 0
  {
    if k == 0 then 1 else 2 * Pow2(k - 1)
  }

  /** `n >> k`. */
  function ShiftRight(n: nat, k: nat): nat {
    if k == 0 then n else ShiftRight(n / 2, k - 1)
  }

  /** `x & y`. */
  function And(x: nat, y: nat): nat {
    if x == 0 then 0 else 2 * And(x / 2, y / 2) + if x % 2 == 1 && y % 2 == 1 then 1 else 0
  }

  lemma {:induction false} ShiftTwice(n: nat, j: nat, k: nat)
    ensures ShiftRight(n, j + k) == ShiftRight(ShiftRight(n, j), k)
  {
    if j > 0 {
      ShiftTwice(n / 2, j - 1, k);
    }
  }

  /** Shifting divides by a power of two. */
  lemma {:induction false} ShiftDivides(n: nat, k: nat)
    ensures 0 <= n - ShiftRight(n, k) * Pow2(k) < Pow2(k)
  {
    if k > 0 {
      ShiftDivides(n / 2, k - 1);
      Doubled(ShiftRight(n / 2, k - 1), Pow2(k - 1));
      assert n == 2 * (n / 2) + n % 2;
    }
  }

  lemma Doubled(q: nat, p: nat)
    ensures q * (2 * p) == 2 * (q * p)
  {
  }

  lemma ShiftBy1And2(n: nat)
    ensures ShiftRight(n, 1) == n / 2 && ShiftRight(n, 2) == n / 4
  {
    assert ShiftRight(n / 2, 1) == ShiftRight(n / 2 / 2, 0);
  }

  lemma ShiftBy4(n: nat)
    ensures ShiftRight(n, 4) == n / 16
  {
    ShiftTwice(n, 2, 2);
    ShiftBy1And2(n);
    ShiftBy1And2(n / 4);
  }

  lemma ShiftBy16(n: nat)
    ensures ShiftRight(n, 16) == n / 0x1_0000
  {
    ShiftTwice(n, 8, 8);
    ShiftTwice(n, 4, 4);
    ShiftTwice(ShiftRight(n, 8), 4, 4);
    ShiftBy4(n);
    ShiftBy4(n / 16);
    ShiftBy4(n / 16 / 16);
    ShiftBy4(n / 16 / 16 / 16);
  }

  lemma AndStep(x: nat, m: nat)
    ensures And(x, 2 * m) == 2 * And(x / 2, m)
    ensures And(x, 2 * m + 1) == 2 * And(x / 2, m) + x % 2
  {
    assert (2 * m) / 2 == m == (2 * m + 1) / 2;
  }

  lemma {:induction false} AndOnes(x: nat, width: nat)
    requires x < Pow2(width)
    ensures And(x, Pow2(width) - 1) == x
  {
    if width > 0 {
      AndOnes(x / 2, width - 1);
      AndStep(x, Pow2(width - 1) - 1);
    }
  }

  lemma {:induction false} AndShifted(x: nat, m: nat, k: nat, p: nat, mask: nat)
    requires p == Pow2(k) && mask == m * p
    ensures And(x, mask) == And(ShiftRight(x, k), m) * p
  {
    if k > 0 {
      var half := Pow2(k - 1);
      Regroup(m, half);
      AndShifted(x / 2, m, k - 1, half, m * half);
      AndStep(x, m * half);
      Regroup(And(ShiftRight(x / 2, k - 1), m), half);
    }
  }

  lemma Regroup(a: nat, b: nat)
    ensures a * (2 * b) == 2 * (a * b)
  {
  }

  lemma {:induction false} ShiftBound(x: nat, j: nat, k: nat)
    requires x < Pow2(j + k)
    ensures ShiftRight(x, k) < Pow2(j)
  {
    if k > 0 {
      ShiftBound(x / 2, j, k - 1);
    }
  }

  /** Masking with `j` ones and `k` zeros clears the low bits. */
  lemma {:induction false} AndMask(x: nat, j: nat, k: nat, mask: nat)
    requires x < Pow2(j + k) && mask == (Pow2(j) - 1) * Pow2(k)
    ensures And(x, mask) == ShiftRight(x, k) * Pow2(k)
  {
    ShiftBound(x, j, k);
    AndShifted(x, Pow2(j) - 1, k, Pow2(k), mask);
    AndOnes(ShiftRight(x, k), j);
  }
}
