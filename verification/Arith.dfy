/** Facts about products, quotients and alignment that the buffer-size proofs share. */
module Arith {

  lemma MulLeq(a: int, b: int, c: int)
    requires a <= b && 0 <= c
    ensures a * c <= b * c
  {
    assert (b - a) * c >= 0;
  }

  lemma MulLess(a: int, b: int, c: int)
    requires a < b && 0 < c
    ensures a * c < b * c
  {
    assert (b - a) * c > 0;
  }

  lemma MulLeqCancel(a: int, b: int, c: int)
    requires a * c <= b * c && 0 < c
    ensures a <= b
  {
    if b < a { MulLess(b, a, c); }
  }

  /** Both factors grow. */
  lemma MulGrows(a: nat, b: nat, c: nat, d: nat)
    requires a <= b && c <= d
    ensures a * c <= b * d
  {
    MulLeq(a, b, c);
    MulLeq(c, d, b);
  }

  lemma Commute(a: nat, b: nat)
    ensures a * b == b * a
  {
  }

  lemma Associate(a: nat, b: nat, c: nat)
    ensures a * b * c == a * (b * c)
  {
  }

  lemma TwiceOut(a: nat, b: nat)
    ensures a * (2 * b) == 2 * (a * b)
  {
  }

  lemma DivMod(x: int, d: int)
    requires 0 < d
    ensures x == x / d * d + x % d && 0 <= x % d < d
  {
  }

  /** x / d is the largest q with q * d at most x. */
  lemma DivBounds(x: int, d: int)
    requires 0 < d
    ensures x / d * d <= x < (x / d + 1) * d
  {
    DivMod(x, d);
  }

  lemma DivUnique(x: int, q: int, d: int)
    requires 0 < d && q * d <= x < q * d + d
    ensures x / d == q
  {
    DivMod(x, d);
    if x / d < q { MulLeq(x / d + 1, q, d); }
    if q < x / d { MulLeq(q + 1, x / d, d); }
  }

  lemma DivExact(q: int, d: int)
    requires 0 < d
    ensures q * d / d == q
  {
    DivUnique(q * d, q, d);
  }

  lemma DivLeq(a: int, b: int, d: int)
    requires 0 < d && a <= b
    ensures a / d <= b / d
  {
    DivMod(a, d); DivMod(b, d);
    if b / d < a / d { MulLeq(b / d + 1, a / d, d); }
  }

  /** q is at most x / d when q * d is at most x. */
  lemma DivAtLeast(x: int, q: int, d: int)
    requires 0 < d && q * d <= x
    ensures q <= x / d
  {
    DivExact(q, d);
    DivLeq(q * d, x, d);
  }
}
