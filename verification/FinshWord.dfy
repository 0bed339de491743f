/** The 32-bit values of the finsh shell: little-endian operands in the text
    segment, and the `long` arithmetic of the virtual machine. */
module FinshWord {
  import opened Arith
  import opened Lists

  type Long = x: int | -0x8000_0000 <= x < 0x8000_0000
  type Byte = b: int | 0 <= b < 256

  /** Dword cells, addressed by the `long` that a pointer is cast to. */
  type Memory = map<Long, Long>

  /** Two's complement reduction to 32 bits. */
  function Wrap(x: int): Long {
    (x + 0x8000_0000) % 0x1_0000_0000 - 0x8000_0000
  }

  function Unsigned(x: Long): (u: int)
    ensures 0 <= u < 0x1_0000_0000 && Wrap(u) == x
  {
    if x < 0 then x + 0x1_0000_0000 else x
  }

  /** The `n` low bytes of `u`, low byte first. */
  function LowBytes(u: nat, n: nat): (b: seq<Byte>)
    ensures |b| == n
  {
    if n == 0 then [] else [u % 256] + LowBytes(u / 256, n - 1)
  }

  function FromBytes(b: seq<Byte>): nat {
    if b == [] then 0 else b[0] as int + 256 * FromBytes(b[1..])
  }

  /** FINSH_SET32: the four operand bytes. */
  function Set32(v: Long): (b: seq<Byte>)
    ensures |b| == 4
  {
    LowBytes(Unsigned(v), 4)
  }

  /** FINSH_GET32, read back as a `long`. */
  function Get32(b: seq<Byte>): Long
    requires |b| == 4
  {
    Wrap(FromBytes(b))
  }

  function Pow256(n: nat): nat {
    if n == 0 then 1 else 256 * Pow256(n - 1)
  }

  lemma {:induction false} FromLowBytes(u: nat, n: nat)
    requires u < Pow256(n)
    ensures FromBytes(LowBytes(u, n)) == u
  {
    if n > 0 {
      FromLowBytes(u / 256, n - 1);
      assert LowBytes(u, n)[1..] == LowBytes(u / 256, n - 1);
    }
  }

  /** What FINSH_SET32 writes, FINSH_GET32 reads. */
  lemma Get32Set32(v: Long)
    ensures Get32(Set32(v)) == v
  {
    assert Pow256(4) == 0x1_0000_0000 by { assert Pow256(2) == 0x1_0000; }
    FromLowBytes(Unsigned(v), 4);
  }

  datatype BinOp = Add | Sub | Mul | Div | Mod | And | Or | Xor | Shl | Shr

  function Abs(x: int): nat { if x < 0 then -x else x }

  /** C division: the quotient is truncated towards zero. */
  function TruncDiv(a: int, b: int): int
    requires b != 0
  {
    if (a < 0) == (b < 0) then Abs(a) / Abs(b) else -(Abs(a) / Abs(b))
  }

  function TruncMod(a: int, b: int): int
    requires b != 0
  {
    if a < 0 then -(Abs(a) % Abs(b)) else Abs(a) % Abs(b)
  }

  /** Bit `i` of a number in two's complement. */
  predicate TestBit(x: int, i: nat)
    decreases i
  {
    if i == 0 then x % 2 == 1 else TestBit(x / 2, i - 1)
  }

  /** The `n` low bits of `x` and `y`, combined one by one. */
  function Bitwise(op: BinOp, x: nat, y: nat, n: nat): nat {
    if n == 0 then 0
    else
      var p, q := x % 2 == 1, y % 2 == 1;
      var bit := if op == And then p && q else if op == Or then p || q else p != q;
      (if bit then 1 else 0) + 2 * Bitwise(op, x / 2, y / 2, n - 1)
  }

  /** `a op b` on 32-bit longs; None where C leaves the result undefined. */
  function Binary(op: BinOp, a: Long, b: Long): Option<Long> {
    match op
    case Add => Some(Wrap(a + b))
    case Sub => Some(Wrap(a - b))
    case Mul => Some(Wrap(a * b))
    case Div => if b == 0 || (a == -0x8000_0000 && b == -1) then None else Some(Wrap(TruncDiv(a, b)))
    case Mod => if b == 0 || (a == -0x8000_0000 && b == -1) then None else Some(Wrap(TruncMod(a, b)))
    case And => Some(Wrap(Bitwise(And, Unsigned(a), Unsigned(b), 32)))
    case Or => Some(Wrap(Bitwise(Or, Unsigned(a), Unsigned(b), 32)))
    case Xor => Some(Wrap(Bitwise(Xor, Unsigned(a), Unsigned(b), 32)))
    case Shl => if 0 <= b < 32 then Some(Wrap(a * Pow2(b))) else None
    case Shr => if 0 <= b < 32 && Pow2(b) > 0 then Some(Wrap(a / Pow2(b))) else None
  }

  function Complement(a: Long): Long { -1 - a }

  /** Signs put back on a division of magnitudes. */
  lemma SignedDivision(a: int, b: int, q: int, r: int)
    requires b != 0 && Abs(a) == q * Abs(b) + r && 0 <= q && 0 <= r < Abs(b)
    ensures var q' := if (a < 0) == (b < 0) then q else -q;
            var r' := if a < 0 then -r else r;
            q' * b + r' == a && Abs(r') < Abs(b)
    ensures q <= Abs(a) && (Abs(b) > 1 && a != 0 ==> q < Abs(a))
  {
    assert -q * b == -(q * b) && q * -b == -(q * b);
    var n := Abs(b);
    assert q * n == q + q * (n - 1);
    assert q * (n - 1) >= 0 && (q > 0 && n > 1 ==> q * (n - 1) > 0);
  }

  lemma Euclid(m: nat, n: nat)
    requires n > 0
    ensures m == m / n * n + m % n && 0 <= m / n && 0 <= m % n < n
  {}

  lemma TruncLaw(a: Long, b: Long)
    requires b != 0 && !(a == -0x8000_0000 && b == -1)
    ensures TruncDiv(a, b) * b + TruncMod(a, b) == a && Abs(TruncMod(a, b)) < Abs(b)
    ensures TruncMod(a, b) == 0 || (TruncMod(a, b) < 0) == (a < 0)
    ensures -0x8000_0000 <= TruncDiv(a, b) < 0x8000_0000
  {
    var m, n := Abs(a), Abs(b);
    Euclid(m, n);
    var q: int, r: int := m / n, m % n;
    SignedDivision(a, b, q, r);
    assert TruncDiv(a, b) == if (a < 0) == (b < 0) then q else -q;
    assert TruncMod(a, b) == if a < 0 then -r else r;
  }

  lemma WrapId(x: int)
    requires -0x8000_0000 <= x < 0x8000_0000
    ensures Wrap(x) == x
  {}

  /** The machine's `/` and `%` satisfy C's division law wherever they are defined: they
      recombine to the dividend, and the remainder has the dividend's sign. They are defined
      but for a zero divisor and the one overflowing pair. */
  lemma DivModLaw(a: Long, b: Long)
    ensures Binary(Div, a, b).Some? <==> b != 0 && !(a == -0x8000_0000 && b == -1)
    ensures Binary(Mod, a, b).Some? <==> b != 0 && !(a == -0x8000_0000 && b == -1)
    ensures Binary(Div, a, b).Some? ==> var q, r := Binary(Div, a, b).value, Binary(Mod, a, b).value;
            q * b + r == a && Abs(r) < Abs(b) && (r == 0 || (r < 0) == (a < 0))
  {
    if b != 0 && !(a == -0x8000_0000 && b == -1) {
      TruncLaw(a, b);
      WrapId(TruncDiv(a, b));
      WrapId(TruncMod(a, b));
    }
  }

  /** `x` and `y` are the same 32-bit word. */
  predicate SameWord(x: int, y: int) { (x - y) % 0x1_0000_0000 == 0 }

  lemma WrapSame(x: int)
    ensures SameWord(Wrap(x), x)
  {}

  lemma SameSum(x: int, y: int, b: int)
    requires SameWord(x, y)
    ensures SameWord(x + b, y + b)
  {}

  /** `+`, `-` and `*` are always defined, and are those of the integers but for whole
      multiples of 2^32. */
  lemma ArithLaw(a: Long, b: Long)
    ensures var r := Binary(Add, a, b); r.Some? && SameWord(r.value, a + b)
    ensures var r := Binary(Sub, a, b); r.Some? && SameWord(r.value + b, a)
    ensures var r := Binary(Mul, a, b); r.Some? && SameWord(r.value, a * b)
  {
    hide Wrap, SameWord, Bitwise, TruncDiv, TruncMod, Pow2, Unsigned;
    WrapSame(a + b);
    WrapSame(a - b);
    WrapSame(a * b);
    SameSum(Wrap(a - b), a - b, b);
  }

  /** A shift by 0 to 31 places multiplies by a power of two, or divides by it and rounds
      down; others are undefined. */
  lemma ShiftLaw(a: Long, b: Long)
    ensures Binary(Shl, a, b).Some? <==> 0 <= b < 32
    ensures Binary(Shr, a, b).Some? <==> 0 <= b < 32
    ensures 0 <= b < 32 ==> SameWord(Binary(Shl, a, b).value, a * Pow2(b))
    ensures 0 <= b < 32 ==> var r := Binary(Shr, a, b).value; r * Pow2(b) <= a < (r + 1) * Pow2(b)
  {
    if 0 <= b < 32 {
      Pow2Positive(b);
      WrapSame(a * Pow2(b));
      FloorLaw(a, Pow2(b));
      WrapId(a / Pow2(b));
    }
  }

  lemma FloorLaw(a: Long, d: nat)
    requires d > 0
    ensures (a / d) * d <= a < (a / d + 1) * d && -0x8000_0000 <= a / d < 0x8000_0000
  {
    var q, r := a / d, a % d;
    assert a == q * d + r;
    FloorRange(a, d, q, r);
    Distribute(q + 1, 1, d);
  }

  lemma FloorRange(a: int, d: nat, q: int, r: int)
    requires d > 0 && a == q * d + r && 0 <= r < d
    ensures if a >= 0 then 0 <= q <= a else a <= q < 0
  {
    if q < 0 {
      AtLeast(-q, d);
      Distribute(0, q, d);
    } else {
      AtMost(q, d);
    }
    if q < a < 0 {
      AtLeast(a - q, d);
      Distribute(a, q, d);
      AtMost(-a, d);
      Distribute(0, a, d);
    }
  }

  lemma AtMost(k: nat, d: nat)
    requires d > 0
    ensures k <= k * d
  {
    assert k * (d - 1) >= 0;
  }

  lemma {:induction false} BitwiseBit(op: BinOp, x: nat, y: nat, n: nat, i: nat)
    requires i < n
    ensures var p, q := TestBit(x, i), TestBit(y, i);
            TestBit(Bitwise(op, x, y, n), i) == if op == And then p && q else if op == Or then p || q else p != q
  {
    var rest := Bitwise(op, x / 2, y / 2, n - 1);
    assert (1 + 2 * rest) / 2 == rest && (2 * rest) / 2 == rest;
    if i > 0 { BitwiseBit(op, x / 2, y / 2, n - 1, i - 1); }
  }

  /** Whole multiples of a power of two do not change the bits below. */
  lemma {:induction false} LowBits(x: int, m: int, k: nat, i: nat)
    requires i < k
    ensures TestBit(x + m * Pow2(k), i) == TestBit(x, i)
    decreases i
  {
    var d := m * Pow2(k - 1);
    assert m * Pow2(k) == 2 * d;
    assert (x + 2 * d) % 2 == x % 2 && (x + 2 * d) / 2 == x / 2 + d;
    if i > 0 { LowBits(x / 2, m, k - 1, i - 1); }
  }

  lemma WordBits(x: int, y: int, i: nat)
    requires SameWord(x, y) && i < 32
    ensures TestBit(x, i) == TestBit(y, i)
  {
    assert Pow2(32) == 0x1_0000_0000 by {
      assert Pow2(8) == 256;
      assert Pow2(16) == 65536;
      assert Pow2(24) == 16777216;
    }
    LowBits(y, (x - y) / 0x1_0000_0000, 32, i);
  }

  lemma {:induction false} FlippedBits(x: int, i: nat)
    ensures TestBit(-1 - x, i) <==> !TestBit(x, i)
    decreases i
  {
    assert (-1 - x) / 2 == -1 - x / 2;
    if i > 0 { FlippedBits(x / 2, i - 1); }
  }

  lemma BitwiseWord(op: BinOp, a: Long, b: Long, i: nat)
    requires i < 32 && (op == And || op == Or || op == Xor)
    ensures var p, q := TestBit(a, i), TestBit(b, i);
            TestBit(Wrap(Bitwise(op, Unsigned(a), Unsigned(b), 32)), i) ==
            if op == And then p && q else if op == Or then p || q else p != q
  {
    var u := Bitwise(op, Unsigned(a), Unsigned(b), 32);
    BitwiseBit(op, Unsigned(a), Unsigned(b), 32, i);
    WrapSame(u);
    WordBits(Wrap(u), u, i);
    WordBits(Unsigned(a), a, i);
    WordBits(Unsigned(b), b, i);
  }

  /** `&`, `|`, `^` and `~` bit by bit. */
  lemma BitLaw(a: Long, b: Long, i: nat)
    requires i < 32
    ensures var r := Binary(And, a, b); r.Some? && (TestBit(r.value, i) <==> TestBit(a, i) && TestBit(b, i))
    ensures var r := Binary(Or, a, b); r.Some? && (TestBit(r.value, i) <==> TestBit(a, i) || TestBit(b, i))
    ensures var r := Binary(Xor, a, b); r.Some? && (TestBit(r.value, i) <==> TestBit(a, i) != TestBit(b, i))
    ensures TestBit(Complement(a), i) <==> !TestBit(a, i)
  {
    hide TestBit, Bitwise, Wrap, Unsigned;
    BitwiseWord(And, a, b, i);
    BitwiseWord(Or, a, b, i);
    BitwiseWord(Xor, a, b, i);
    FlippedBits(a, i);
  }

  /** The operand bytes are those of the word, low byte first. */
  lemma OperandBytes(v: Long)
    ensures var b := Set32(v);
            SameWord(b[0] as int + 0x100 * (b[1] as int) + 0x1_0000 * (b[2] as int) + 0x100_0000 * (b[3] as int), v)
  {
    var u := Unsigned(v);
    assert Set32(v)[0] == u % 256;
    assert Set32(v)[1] == LowBytes(u / 256, 3)[0] == u / 256 % 256;
    assert Set32(v)[2] == LowBytes(u / 256 / 256, 2)[0] == u / 256 / 256 % 256;
    assert Set32(v)[3] == LowBytes(u / 256 / 256 / 256, 1)[0] == u / 256 / 256 / 256 % 256;
  }
}
