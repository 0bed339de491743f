/** Unsigned words as bit maps, and the search for the lowest bit with a table (kservice.c). */
module Bitmap {
  import opened Arith

  /** Bit `i` of `n`. */
  predicate Bit(n: nat, i: nat) { if i == 0 then n % 2 == 1 else Bit(n / 2, i - 1) }

  /** n | 1 << i */
  function SetBit(n: nat, i: nat): nat {
    if i == 0 then n / 2 * 2 + 1 else SetBit(n / 2, i - 1) * 2 + n % 2
  }

  /** n & ~(1 << i) */
  function ClearBit(n: nat, i: nat): nat {
    if i == 0 then n / 2 * 2 else ClearBit(n / 2, i - 1) * 2 + n % 2
  }

  /** The lowest bit that is set. */
  function Lowest(n: nat): nat
    requires n > 0
  {
    if n % 2 == 1 then 0 else 1 + Lowest(n / 2)
  }

  lemma {:induction false} SetBitIs(n: nat, i: nat, j: nat)
    ensures Bit(SetBit(n, i), j) <==> j == i || Bit(n, j)
  {
    if i > 0 && j > 0 { SetBitIs(n / 2, i - 1, j - 1); }
  }

  lemma {:induction false} ClearBitIs(n: nat, i: nat, j: nat)
    ensures Bit(ClearBit(n, i), j) <==> j != i && Bit(n, j)
  {
    if i > 0 && j > 0 { ClearBitIs(n / 2, i - 1, j - 1); }
  }

  lemma {:induction false} SetBitBound(n: nat, i: nat, k: nat)
    requires n < Pow2(k) && i < k
    ensures SetBit(n, i) < Pow2(k)
  {
    if i > 0 { SetBitBound(n / 2, i - 1, k - 1); }
  }

  lemma {:induction false} ClearBitBound(n: nat, i: nat)
    ensures ClearBit(n, i) <= n
  {
    if i > 0 { ClearBitBound(n / 2, i - 1); }
  }

  lemma {:induction false} LowestIs(n: nat, j: nat)
    requires n > 0
    ensures Bit(n, Lowest(n)) && (j < Lowest(n) ==> !Bit(n, j))
  {
    if n % 2 == 0 { LowestIs(n / 2, if j == 0 then 0 else j - 1); }
  }

  /** A word is zero exactly when it has no bit. */
  lemma {:induction false} ZeroHasNone(i: nat)
    ensures !Bit(0, i)
  {
    if i > 0 { ZeroHasNone(i - 1); }
  }

  lemma {:induction false} LowestBound(n: nat, k: nat)
    requires 0 < n < Pow2(k)
    ensures Lowest(n) < k
  {
    if n % 2 == 0 { LowestBound(n / 2, k - 1); }
  }

  // ---- __rt_ffs ----

  /** __lowest_bit_bitmap: sixteen rows that differ in their first entry. */
  function Table(b: nat): nat
    requires b < 256
  {
    var first := [0, 4, 5, 4, 6, 4, 5, 4, 7, 4, 5, 4, 6, 4, 5, 4];
    [first[b / 16], 0, 1, 0, 2, 0, 1, 0, 3, 0, 1, 0, 2, 0, 1, 0][b % 16]
  }

  /** __rt_ffs */
  function Ffs(n: nat): nat
    requires n < 0x1_0000_0000
  {
    if n == 0 then 0
    else if n % 256 != 0 then Table(n % 256) + 1
    else if n / 256 % 256 != 0 then Table(n / 256 % 256) + 9
    else if n / 65536 % 256 != 0 then Table(n / 65536 % 256) + 17
    else Table(n / 16777216 % 256) + 25
  }

  lemma TableIs(b: nat)
    requires 0 < b < 256
    ensures Table(b) == Lowest(b)
  {
    hide Lowest;
    LowPart(b, 4);
    assert Pow2(4) == 16;
    if b % 16 == 0 {
      NibbleIs(b / 16);
    } else {
      RowIs([0, 4, 5, 4, 6, 4, 5, 4, 7, 4, 5, 4, 6, 4, 5, 4][b / 16], b % 16);
    }
  }

  lemma RowIs(first: nat, l: nat)
    requires 0 < l < 16
    ensures [first, 0, 1, 0, 2, 0, 1, 0, 3, 0, 1, 0, 2, 0, 1, 0][l] == Lowest(l)
  {
    assert Lowest(2) == 1 && Lowest(4) == 2 && Lowest(8) == 3;
    assert Lowest(6) == 1 && Lowest(10) == 1 && Lowest(12) == 2 && Lowest(14) == 1;
  }

  lemma NibbleIs(h: nat)
    requires 0 < h < 16
    ensures [0, 4, 5, 4, 6, 4, 5, 4, 7, 4, 5, 4, 6, 4, 5, 4][h] == 4 + Lowest(h)
  {
    assert Lowest(1) == 0 && Lowest(2) == 1 && Lowest(4) == 2 && Lowest(8) == 3;
    assert Lowest(6) == 1 && Lowest(10) == 1 && Lowest(12) == 2 && Lowest(14) == 1;
  }

  /** The lowest bit of a word is that of its lowest byte that is not zero. */
  lemma LowByte(n: nat)
    requires n > 0
    ensures n % 256 != 0 ==> Lowest(n) == Lowest(n % 256)
    ensures n % 256 == 0 ==> n / 256 > 0 && Lowest(n) == 8 + Lowest(n / 256)
  {
    LowPart(n, 8);
  }

  lemma {:induction false} LowPart(n: nat, k: nat)
    requires n > 0
    ensures Pow2(k) > 0
    ensures n % Pow2(k) != 0 ==> Lowest(n) == Lowest(n % Pow2(k))
    ensures n % Pow2(k) == 0 ==> n / Pow2(k) > 0 && Lowest(n) == k + Lowest(n / Pow2(k))
  {
    if k > 0 {
      HalfMod(n, k);
      if n % 2 == 0 { LowPart(n / 2, k - 1); }
    }
  }

  /** Division and remainder by a power of two, one bit at a time. */
  lemma {:induction false} HalfMod(n: nat, k: nat)
    requires k > 0
    ensures Pow2(k) > 0 && Pow2(k - 1) > 0
    ensures n % Pow2(k) == 2 * (n / 2 % Pow2(k - 1)) + n % 2 && n / Pow2(k) == n / 2 / Pow2(k - 1)
  {
    Pow2Positive(k - 1);
    var p := Pow2(k - 1);
    var q, r := n / 2 / p, n / 2 % p;
    assert n / 2 == q * p + r;
    assert n == q * (2 * p) + (2 * r + n % 2);
    DivModUnique(n, 2 * p, q, 2 * r + n % 2);
  }

  /** The table search finds the lowest bit of every 32-bit word. */
  lemma FfsIs(n: nat)
    requires n < 0x1_0000_0000
    ensures Ffs(n) == if n == 0 then 0 else Lowest(n) + 1
  {
    if n > 0 {
      LowByte(n);
      if n % 256 != 0 {
        TableIs(n % 256);
      } else {
        FfsHigh(n);
      }
    }
  }

  lemma FfsHigh(n: nat)
    requires 0 < n < 0x1_0000_0000 && n % 256 == 0
    ensures Ffs(n) == 8 + Lowest(n / 256) + 1
  {
    hide Lowest, Table;
    var a, b, c := n / 256, n / 65536, n / 16777216;
    assert a / 256 == b && b / 256 == c && c < 256;
    LowByte(a);
    if a % 256 != 0 {
      TableIs(a % 256);
    } else {
      LowByte(b);
      if b % 256 != 0 {
        TableIs(b % 256);
      } else {
        TableIs(c);
      }
    }
  }
}
