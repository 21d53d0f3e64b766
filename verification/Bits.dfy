/** Natural numbers as words of bits: powers of two and bitwise and. */
module Bits {
  import opened Arith

  function Pow2(k: nat): (r: nat)
    ensures r > 0
  {
    if k == 0 then 1 else 2 * Pow2(k - 1)
  }

  /** `a & b` */
  function And(a: nat, b: nat): nat {
    if a == 0 || b == 0 then 0 else 2 * And(a / 2, b / 2) + a % 2 * (b % 2)
  }

  /** The word of w bits that has the upper w - k set. */
  function UpperBits(w: nat, k: nat): nat
    requires k <= w
  {
    PowOrder(k, w);
    Pow2(w) - Pow2(k)
  }

  lemma {:induction false} PowOrder(k: nat, w: nat)
    requires k <= w
    ensures Pow2(k) <= Pow2(w)
    decreases w
  {
    if k < w { PowOrder(k, w - 1); }
  }

  /** Dividing by twice a power of two goes through the half. */
  lemma ModTwice(x: nat, d: nat)
    requires d > 0
    ensures x % (2 * d) == 2 * (x / 2 % d) + x % 2
  {
    var h := x / 2;
    DivMod(h, d);
    assert x == h / d * (2 * d) + (2 * (h % d) + x % 2) by {
      assert 2 * (h / d * d) == h / d * (2 * d);
    }
    DivUnique(x, h / d, 2 * d);
    DivMod(x, 2 * d);
  }

  lemma AndDoubled(x: nat, y: nat, bit: nat)
    requires bit < 2
    ensures And(x, 2 * y + bit) == 2 * And(x / 2, y) + x % 2 * bit
  {
    if x > 0 && 2 * y + bit > 0 {
      assert (2 * y + bit) / 2 == y && (2 * y + bit) % 2 == bit;
    } else if x == 0 {
      assert And(x / 2, y) == 0;
    }
  }

  lemma UpperBitsDoubled(w: nat, k: nat)
    requires 0 < w && k <= w
    ensures k > 0 ==> UpperBits(w, k) == 2 * UpperBits(w - 1, k - 1) + 0
    ensures k == 0 ==> UpperBits(w, k) == 2 * UpperBits(w - 1, 0) + 1
  {
  }

  /** And-ing with the upper bits takes the remainder away. */
  lemma {:induction false} AndUpperBits(x: nat, w: nat, k: nat)
    requires k <= w && x < Pow2(w)
    ensures And(x, UpperBits(w, k)) == x - x % Pow2(k)
    decreases w
  {
    if w > 0 {
      UpperBitsDoubled(w, k);
      if k > 0 {
        AndDoubled(x, UpperBits(w - 1, k - 1), 0);
        AndUpperBits(x / 2, w - 1, k - 1);
        ModTwice(x, Pow2(k - 1));
      } else {
        AndDoubled(x, UpperBits(w - 1, 0), 1);
        AndUpperBits(x / 2, w - 1, 0);
      }
    }
  }
}
