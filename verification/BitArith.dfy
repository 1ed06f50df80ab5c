/** Bitwise and, and right shift, on natural numbers, as the hash table uses them with powers of two. */
module BitArith {
  import opened Arith

  function Pow2(k: nat): (p: nat)
    ensures 0 < p
  {
    if k == 0 then 1 else 2 * Pow2(k - 1)
  }

  /** x & y */
  function And(x: nat, y: nat): nat {
    if x == 0 || y == 0 then 0 else 2 * And(x / 2, y / 2) + (if x % 2 == 1 && y % 2 == 1 then 1 else 0)
  }

  /** x >> k */
  function Shr(x: nat, k: nat): nat {
    if k == 0 then x else Shr(x / 2, k - 1)
  }

  lemma Split(x: nat, d: nat) returns (q: nat, r: nat)
    requires 0 < d
    ensures x == q * d + r && r < d && q == x / d && r == x % d
  {
    q, r := x / d, x % d;
  }

  lemma Halves(x: nat, q: nat, p: nat, r: nat)
    requires x == q * (2 * p) + r
    ensures x / 2 == q * p + r / 2 && x % 2 == r % 2
  {
    assert q * (2 * p) == 2 * (q * p);
  }

  lemma {:induction false} AndShrOf(x: nat, k: nat, q: nat, r: nat)
    requires x == q * Pow2(k) + r && r < Pow2(k)
    ensures And(x, Pow2(k) - 1) == r && Shr(x, k) == q
  {
    if k > 0 {
      Halves(x, q, Pow2(k - 1), r);
      AndShrOf(x / 2, k - 1, q, r / 2);
      assert (2 * Pow2(k - 1) - 1) / 2 == Pow2(k - 1) - 1;
    }
  }

  /** Masking with a power of two less one is the remainder, shifting the quotient. */
  lemma MaskAndShift(x: nat, k: nat)
    ensures And(x, Pow2(k) - 1) == x % Pow2(k) && Shr(x, k) == x / Pow2(k)
  {
    var q, r := Split(x, Pow2(k));
    AndShrOf(x, k, q, r);
  }

  function Ceil(x: nat, d: nat): nat
    requires 0 < d
  {
    (x + d - 1) / d
  }

  lemma CeilOf(q: nat, d: nat, r: nat)
    requires r < d
    ensures Ceil(q * d + r, d) == q + (if r != 0 then 1 else 0)
  {
    if r == 0 {
      DivMod(q, d, d - 1);
    } else {
      var x := q * d + r + d - 1;
      assert x == (q + 1) * d + (r - 1);
      DivMod(q + 1, d, r - 1);
    }
  }

  /** The shift-and-mask form of rounding up. */
  lemma ShiftAndMaskIsCeil(x: nat, k: nat)
    ensures Shr(x, k) + (if And(x, Pow2(k) - 1) != 0 then 1 else 0) == Ceil(x, Pow2(k))
  {
    hide And, Shr, Pow2, Ceil;
    MaskAndShift(x, k);
    var q, r := Split(x, Pow2(k));
    CeilOf(q, Pow2(k), r);
  }
}
