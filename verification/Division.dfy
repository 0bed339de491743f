/** Unsigned 32-bit division by shifting and subtracting (__udivsi3.c, __umodsi3.c). */
module Division {
  import opened Arith

  const WORD: nat := 0x1_0000_0000

  /** The left-justified denominator and the bit of the quotient it stands for. */
  ghost predicate Justified(d: nat, den: nat, qbit: nat, shift: nat) {
    qbit == Pow2(shift) && den == d * qbit && shift < 32
  }

  /** The first loop: doubles the denominator until its top bit is set. */
  method Justify(d: nat) returns (den: nat, qbit: nat, ghost shift: nat)
    requires 0 < d < WORD
    ensures Justified(d, den, qbit, shift) && WORD / 2 <= den < WORD
  {
    den, qbit, shift := d, 1, 0;
    while den < WORD / 2
      invariant qbit == Pow2(shift) && den == d * qbit && qbit <= den < WORD
      decreases WORD - den
    {
      den, qbit, shift := den * 2, qbit * 2, shift + 1;
    }
    if shift >= 32 { Pow2Grows(32, shift); Word(); }
  }

  lemma {:induction false} Pow2Grows(i: nat, j: nat)
    requires i <= j
    ensures Pow2(i) <= Pow2(j)
  {
    if i < j { Pow2Grows(i, j - 1); }
  }

  lemma Word()
    ensures Pow2(32) == WORD
  {
    assert Pow2(8) == 256;
    assert Pow2(16) == 65536;
    assert Pow2(24) == 16777216;
  }

  /** The second loop: subtracts each shifted denominator that fits. */
  method Subtract(num: nat, d: nat, den0: nat, qbit0: nat, ghost shift0: nat) returns (quot: nat, rest: nat)
    requires 0 < d && num < WORD && Justified(d, den0, qbit0, shift0) && WORD / 2 <= den0 < WORD
    ensures num == quot * d + rest && rest < d
  {
    var den: nat, qbit: nat := den0, qbit0;
    ghost var shift := shift0;
    quot, rest := 0, num;
    while qbit != 0
      invariant num == quot * d + rest && quot <= num
      invariant qbit != 0 ==> Justified(d, den, qbit, shift) && rest < 2 * den
      invariant qbit == 0 ==> rest < d
      decreases qbit
    {
      if den <= rest {
        AddQuotient(quot, qbit, d);
        rest := rest - den;
        quot := quot + qbit;
        Bounded(num, quot, d, rest);
      }
      if shift == 0 {
        assert qbit == 1 && den == d;
      } else {
        Halve(d, den, qbit, shift);
        shift := shift - 1;
      }
      den, qbit := den / 2, qbit / 2;
    }
  }

  lemma AddQuotient(quot: nat, qbit: nat, d: nat)
    ensures (quot + qbit) * d == quot * d + d * qbit
  {}

  lemma Bounded(num: nat, quot: nat, d: nat, rest: nat)
    requires num == quot * d + rest && d > 0
    ensures quot <= num
  {
    assert quot * d >= quot by { assert quot * (d - 1) >= 0; }
  }

  lemma Halve(d: nat, den: nat, qbit: nat, shift: nat)
    requires Justified(d, den, qbit, shift) && shift > 0
    ensures den / 2 * 2 == den && Justified(d, den / 2, qbit / 2, shift - 1) && qbit / 2 > 0
  {
    Pow2Positive(shift - 1);
    var h := Pow2(shift - 1);
    assert den == 2 * (d * h);
  }

  /** __udivsi3; a zero denominator traps, and yields zero if the trap returns. */
  method Udiv(num: nat, den: nat) returns (quot: nat)
    requires num < WORD && den < WORD
    ensures quot == if den == 0 then 0 else num / den
  {
    if den == 0 { return 0; }
    var d, qbit, shift := Justify(den);
    var rest;
    quot, rest := Subtract(num, den, d, qbit, shift);
    DivModUnique(num, den, quot, rest);
  }

  /** __umodsi3 */
  method Umod(num: nat, den: nat) returns (rest: nat)
    requires num < WORD && den < WORD
    ensures rest == if den == 0 then 0 else num % den
  {
    if den == 0 { return 0; }
    var d, qbit, shift := Justify(den);
    var quot;
    quot, rest := Subtract(num, den, d, qbit, shift);
    DivModUnique(num, den, quot, rest);
  }
}
