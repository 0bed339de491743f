/** Multiplication, division and powers of two. */
module Arith {

  function Pow2(k: nat): nat { if k == 0 then 1 else 2 * Pow2(k - 1) }

  lemma {:induction false} Pow2Positive(k: nat)
    ensures Pow2(k) > 0
  {
    if k > 0 { Pow2Positive(k - 1); }
  }

  lemma Distribute(a: int, b: int, d: int)
    ensures (a - b) * d == a * d - b * d
  {}

  lemma AtLeast(k: int, d: nat)
    requires k >= 1
    ensures k * d >= d
  {
    assert (k - 1) * d >= 0;
  }

  lemma DivModUnique(n: nat, d: nat, q: nat, r: nat)
    requires d > 0 && n == q * d + r && r < d
    ensures n / d == q && n % d == r
  {
    var q', r' := n / d, n % d;
    assert (q - q') * d == r' - r by { assert n == q' * d + r'; Distribute(q, q', d); }
    if q - q' >= 1 { AtLeast(q - q', d); }
    if q' - q >= 1 { AtLeast(q' - q, d); Distribute(q', q, d); }
  }
}
