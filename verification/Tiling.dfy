/** A memory region cut into consecutive blocks, each a header of `h` bytes and then
    data up to the next block; the last block is a used sentinel that ends the region. */
module Tiling {

  datatype Block = Block(addr: int, used: bool)

  /** Data bytes of the block at position `i`. */
  function Size(b: seq<Block>, i: int, h: nat): int
    requires 0 <= i < |b| - 1
  {
    b[i + 1].addr - b[i].addr - h
  }

  /** The blocks cover the region from `lo` to the sentinel header at `hi` without gap or overlap. */
  ghost predicate Tiles(b: seq<Block>, h: nat, lo: int, hi: int) {
    && |b| >= 2 && b[0].addr == lo && b[|b| - 1] == Block(hi, true)
    && forall i :: 0 <= i < |b| - 1 ==> Size(b, i, h) >= 0
  }

  /** No two neighbouring blocks are both free. */
  ghost predicate Merged(b: seq<Block>) {
    forall i {:trigger Apart(b, i)} :: 0 <= i < |b| - 1 ==> Apart(b, i)
  }

  ghost predicate Apart(b: seq<Block>, i: int)
    requires 0 <= i < |b| - 1
  {
    b[i].used || b[i + 1].used
  }

  /** Sum of `f(block, address of its successor)` over all blocks but the last. */
  ghost function Sum(b: seq<Block>, f: (Block, int) -> int): int {
    if |b| < 2 then 0 else f(b[0], b[1].addr) + Sum(b[1..], f)
  }

  ghost function FreeTerm(h: nat): (Block, int) -> int {
    (x: Block, n: int) => if x.used then 0 else n - x.addr - h
  }

  ghost function UsedTerm(): (Block, int) -> int {
    (x: Block, n: int) => if x.used then n - x.addr else 0
  }

  /** Data bytes of free blocks. */
  ghost function FreeBytes(b: seq<Block>, h: nat): int { Sum(b, FreeTerm(h)) }

  /** Bytes of used blocks, headers included. */
  ghost function UsedBytes(b: seq<Block>): int { Sum(b, UsedTerm()) }

  /** Positions `i` up to `j` (exclusive) replaced by `w`. */
  function Splice(b: seq<Block>, i: nat, j: nat, w: seq<Block>): seq<Block>
    requires i <= j <= |b|
  {
    b[..i] + w + b[j..]
  }

  lemma {:induction false} SumSplit(a: seq<Block>, x: Block, c: seq<Block>, f: (Block, int) -> int)
    ensures Sum(a + [x] + c, f) == Sum(a + [x], f) + Sum([x] + c, f)
  {
    if a == [] {
      assert a + [x] + c == [x] + c && a + [x] == [x];
    } else {
      SumSplit(a[1..], x, c, f);
      assert (a + [x] + c)[1..] == a[1..] + [x] + c && (a + [x])[1..] == a[1..] + [x];
      assert (a + [x] + c)[1] == (a + [x])[1];
    }
  }

  /** Only the address of the last block matters to the sum before it. */
  lemma {:induction false} SumLast(a: seq<Block>, x: Block, y: Block, f: (Block, int) -> int)
    requires x.addr == y.addr
    ensures Sum(a + [x], f) == Sum(a + [y], f)
  {
    if a == [] {
      assert a + [x] == [x] && a + [y] == [y];
    } else {
      SumLast(a[1..], x, y, f);
      assert (a + [x])[1..] == a[1..] + [x] && (a + [y])[1..] == a[1..] + [y];
    }
  }

  lemma SpliceParts(b: seq<Block>, i: nat, j: nat, w: seq<Block>)
    requires i < j < |b| && w != []
    ensures b == b[..i] + [b[i]] + (b[i + 1..j] + [b[j]] + b[j + 1..])
    ensures Splice(b, i, j, w) == b[..i] + [w[0]] + (w[1..] + [b[j]] + b[j + 1..])
    ensures [b[i]] + (b[i + 1..j] + [b[j]] + b[j + 1..]) == b[i..j] + [b[j]] + b[j + 1..]
    ensures [w[0]] + (w[1..] + [b[j]] + b[j + 1..]) == w + [b[j]] + b[j + 1..]
    ensures b[i..j] + [b[j]] == b[i..j + 1]
  {}

  /** Replacing a window, with its first and next addresses kept, changes a sum by the windows' sums. */
  lemma SumSplice(b: seq<Block>, i: nat, j: nat, w: seq<Block>, f: (Block, int) -> int)
    requires i < j < |b| && w != [] && w[0].addr == b[i].addr
    ensures Sum(Splice(b, i, j, w), f) == Sum(b, f) - Sum(b[i..j + 1], f) + Sum(w + [b[j]], f)
  {
    hide Sum, Splice;
    var p, q := b[..i], b[j + 1..];
    SpliceParts(b, i, j, w);
    SumSplit(p, b[i], b[i + 1..j] + [b[j]] + q, f);
    SumSplit(p, w[0], w[1..] + [b[j]] + q, f);
    SumLast(p, b[i], w[0], f);
    SumSplit(b[i..j], b[j], q, f);
    SumSplit(w, b[j], q, f);
  }

  lemma Sum2(x: Block, y: Block, f: (Block, int) -> int)
    ensures Sum([x, y], f) == f(x, y.addr)
  {
    assert [x, y][1..] == [y];
  }

  lemma Sum3(x: Block, y: Block, z: Block, f: (Block, int) -> int)
    ensures Sum([x, y, z], f) == f(x, y.addr) + f(y, z.addr)
  {
    assert [x, y, z][1..] == [y, z];
    Sum2(y, z, f);
  }

  lemma Sum4(x: Block, y: Block, z: Block, t: Block, f: (Block, int) -> int)
    ensures Sum([x, y, z, t], f) == f(x, y.addr) + f(y, z.addr) + f(z, t.addr)
  {
    assert [x, y, z, t][1..] == [y, z, t];
    Sum3(y, z, t, f);
  }

  /** The blocks merged by a release, as a window sum. */
  lemma FreeWindow(b: seq<Block>, k: int, f: (Block, int) -> int)
    requires 0 <= k < |b| - 1
    requires k + 2 < |b| || b[k + 1].used
    ensures var left, right := k > 0 && !b[k - 1].used, !b[k + 1].used;
            var i, j := if left then k - 1 else k, if right then k + 2 else k + 1;
            Sum(b[i..j + 1], f) == (if left then f(b[k - 1], b[k].addr) else 0) + f(b[k], b[k + 1].addr)
                                 + (if right then f(b[k + 1], b[k + 2].addr) else 0)
  {
    var left, right := k > 0 && !b[k - 1].used, !b[k + 1].used;
    if left && right {
      assert b[k - 1..k + 3] == [b[k - 1], b[k], b[k + 1], b[k + 2]];
      Sum4(b[k - 1], b[k], b[k + 1], b[k + 2], f);
    } else if left {
      assert b[k - 1..k + 2] == [b[k - 1], b[k], b[k + 1]];
      Sum3(b[k - 1], b[k], b[k + 1], f);
    } else if right {
      assert b[k..k + 3] == [b[k], b[k + 1], b[k + 2]];
      Sum3(b[k], b[k + 1], b[k + 2], f);
    } else {
      assert b[k..k + 2] == [b[k], b[k + 1]];
      Sum2(b[k], b[k + 1], f);
    }
  }

  /** Every term bounds a sum of non-negative terms from below. */
  lemma {:induction false} SumAtLeast(b: seq<Block>, k: nat, f: (Block, int) -> int)
    requires k < |b| - 1
    requires forall i :: 0 <= i < |b| - 1 ==> f(b[i], b[i + 1].addr) >= 0
    ensures Sum(b, f) >= f(b[k], b[k + 1].addr)
  {
    var c := b[1..];
    assert forall i :: 0 <= i < |c| ==> c[i] == b[i + 1];
    if k > 0 {
      SumAtLeast(c, k - 1, f);
    } else if |c| >= 2 {
      SumAtLeast(c, 0, f);
    }
  }

  lemma {:induction false} SumAtLeastTwo(b: seq<Block>, i: nat, k: nat, f: (Block, int) -> int)
    requires i < k < |b| - 1
    requires forall i :: 0 <= i < |b| - 1 ==> f(b[i], b[i + 1].addr) >= 0
    ensures Sum(b, f) >= f(b[i], b[i + 1].addr) + f(b[k], b[k + 1].addr)
  {
    var c := b[1..];
    assert forall i :: 0 <= i < |c| ==> c[i] == b[i + 1];
    if i > 0 {
      SumAtLeastTwo(c, i - 1, k - 1, f);
    } else {
      SumAtLeast(c, k - 1, f);
    }
  }

  lemma TilesSplice(b: seq<Block>, i: nat, j: nat, w: seq<Block>, h: nat, lo: int, hi: int)
    requires Tiles(b, h, lo, hi) && i < j < |b| && w != [] && w[0].addr == b[i].addr
    requires forall k :: 0 <= k < |w| ==> Size(w + [b[j]], k, h) >= 0
    ensures Tiles(Splice(b, i, j, w), h, lo, hi)
  {
    var b' := Splice(b, i, j, w);
    var d := |w| - (j - i);
    assert forall k :: 0 <= k < |b'| ==> b'[k] == if k < i then b[k] else if k < i + |w| then w[k - i] else b[k - d];
    forall k | 0 <= k < |b'| - 1
      ensures Size(b', k, h) >= 0
    {
      if k + 1 < i {
        assert Size(b, k, h) >= 0;
      } else if k < i {
        assert Size(b, k, h) >= 0 && b'[k + 1] == w[0];
      } else if k < i + |w| {
        assert Size(w + [b[j]], k - i, h) >= 0;
        assert b'[k + 1] == (w + [b[j]])[k - i + 1];
      } else {
        assert Size(b, k - d, h) >= 0;
      }
    }
  }

  lemma MergedSplice(b: seq<Block>, i: nat, j: nat, w: seq<Block>)
    requires Merged(b) && i < j < |b| && w != []
    requires i > 0 ==> b[i - 1].used || w[0].used
    requires w[|w| - 1].used || b[j].used
    requires forall k :: 0 <= k < |w| - 1 ==> Apart(w, k)
    ensures Merged(Splice(b, i, j, w))
  {
    var b' := Splice(b, i, j, w);
    var d := |w| - (j - i);
    assert forall k :: 0 <= k < |b'| ==> b'[k] == if k < i then b[k] else if k < i + |w| then w[k - i] else b[k - d];
    forall k | 0 <= k < |b'| - 1
      ensures Apart(b', k)
    {
      if k + 1 < i { assert Apart(b, k); }
      else if i <= k < i + |w| - 1 { assert Apart(w, k - i); }
      else if k >= i + |w| { assert Apart(b, k - d); }
    }
  }

  /** Later blocks lie at higher addresses, a header or more apart. */
  lemma {:induction false} Ordered(b: seq<Block>, h: nat, lo: int, hi: int, i: nat, j: nat)
    requires Tiles(b, h, lo, hi) && i < j < |b|
    ensures b[i].addr + h <= b[j].addr
    decreases j - i
  {
    assert Size(b, j - 1, h) >= 0;
    if i < j - 1 { Ordered(b, h, lo, hi, i, j - 1); }
  }

  lemma SameAddr(b: seq<Block>, h: nat, lo: int, hi: int, i: nat, j: nat)
    requires Tiles(b, h, lo, hi) && h > 0 && i < |b| && j < |b| && b[i].addr == b[j].addr
    ensures i == j
  {
    if i < j { Ordered(b, h, lo, hi, i, j); }
    if j < i { Ordered(b, h, lo, hi, j, i); }
  }

  /** Which blocks a rewriting keeps: those outside the window, and the new ones. */
  lemma SpliceMember(b: seq<Block>, i: nat, j: nat, w: seq<Block>, h: nat, lo: int, hi: int)
    requires Tiles(b, h, lo, hi) && h > 0 && i <= j <= |b|
    ensures forall x :: x in Splice(b, i, j, w) <==> x in w || (x in b && x !in b[i..j])
  {
    assert b == b[..i] + b[i..j] + b[j..];
    forall x | x in b[i..j]
      ensures x !in b[..i] && x !in b[j..]
    {
      var p :| i <= p < j && b[p] == x;
      if x in b[..i] { var q :| 0 <= q < i && b[q] == x; SameAddr(b, h, lo, hi, p, q); }
      if x in b[j..] { var q :| j <= q < |b| && b[q] == x; SameAddr(b, h, lo, hi, p, q); }
    }
  }

  /** A block with a neighbour on either side or none. */
  lemma WindowMember(b: seq<Block>, k: nat, left: bool, right: bool)
    requires k < |b| && (left ==> k > 0) && (right ==> k + 1 < |b|)
    ensures var i, j := if left then k - 1 else k, if right then k + 2 else k + 1;
            forall x :: x in b[i..j] <==> (left && x == b[k - 1]) || x == b[k] || (right && x == b[k + 1])
  {
    if left && right { assert b[k - 1..k + 2] == [b[k - 1], b[k], b[k + 1]]; }
    if left && !right { assert b[k - 1..k + 1] == [b[k - 1], b[k]]; }
    if !left && right { assert b[k..k + 2] == [b[k], b[k + 1]]; }
    if !left && !right { assert b[k..k + 1] == [b[k]]; }
  }

  /** Address `x` is a data byte of a used block. */
  ghost predicate Live(b: seq<Block>, h: nat, x: int) {
    exists i :: 0 <= i < |b| - 1 && b[i].used && b[i].addr + h <= x < b[i + 1].addr
  }

  /** A header byte is nobody's data. */
  lemma HeaderNotLive(b: seq<Block>, h: nat, lo: int, hi: int, k: nat, x: int)
    requires Tiles(b, h, lo, hi) && k < |b| && b[k].addr <= x < b[k].addr + h
    ensures !Live(b, h, x)
  {
    forall i | 0 <= i < |b| - 1 && b[i].used
      ensures !(b[i].addr + h <= x < b[i + 1].addr)
    {
      if i < k {
        if i + 1 < k { Ordered(b, h, lo, hi, i + 1, k); }
      } else if k < i {
        Ordered(b, h, lo, hi, k, i);
      }
    }
  }

  // ---- the stretches in use ----

  /** A used block reaches from `lo` to `hi`, header included. */
  ghost predicate InUse(b: seq<Block>, lo: int, hi: int) {
    exists i :: 0 <= i < |b| - 1 && b[i] == Block(lo, true) && b[i + 1].addr == hi
  }

  /** Blocks before a block and from it on. */
  lemma InUseSplit(a: seq<Block>, x: Block, c: seq<Block>, lo: int, hi: int)
    ensures InUse(a + [x] + c, lo, hi) <==> InUse(a + [x], lo, hi) || InUse([x] + c, lo, hi)
  {
    var b, p, q := a + [x] + c, a + [x], [x] + c;
    if i :| 0 <= i < |b| - 1 && b[i] == Block(lo, true) && b[i + 1].addr == hi {
      if i < |a| {
        assert p[i] == b[i] && p[i + 1] == b[i + 1];
      } else {
        assert q[i - |a|] == b[i] && q[i - |a| + 1] == b[i + 1];
      }
    }
    if i :| 0 <= i < |p| - 1 && p[i] == Block(lo, true) && p[i + 1].addr == hi {
      assert b[i] == p[i] && b[i + 1] == p[i + 1];
    }
    if i :| 0 <= i < |q| - 1 && q[i] == Block(lo, true) && q[i + 1].addr == hi {
      assert b[i + |a|] == q[i] && b[i + |a| + 1] == q[i + 1];
    }
  }

  lemma InUseLast(a: seq<Block>, x: Block, y: Block, lo: int, hi: int)
    requires x.addr == y.addr
    ensures InUse(a + [x], lo, hi) <==> InUse(a + [y], lo, hi)
  {
    var p, q := a + [x], a + [y];
    if i :| 0 <= i < |p| - 1 && p[i] == Block(lo, true) && p[i + 1].addr == hi {
      assert q[i] == p[i] && q[i + 1].addr == hi;
    }
    if i :| 0 <= i < |q| - 1 && q[i] == Block(lo, true) && q[i + 1].addr == hi {
      assert p[i] == q[i] && p[i + 1].addr == hi;
    }
  }

  /** What is in use outside a window that is rewritten. */
  ghost predicate OutsideUse(b: seq<Block>, i: nat, j: nat, lo: int, hi: int)
    requires i < j < |b|
  {
    InUse(b[..i] + [b[i]], lo, hi) || InUse([b[j]] + b[j + 1..], lo, hi)
  }

  lemma InUseSplice(b: seq<Block>, i: nat, j: nat, w: seq<Block>, lo: int, hi: int)
    requires i < j < |b| && w != [] && w[0].addr == b[i].addr
    ensures InUse(b, lo, hi) <==> OutsideUse(b, i, j, lo, hi) || InUse(b[i..j] + [b[j]], lo, hi)
    ensures InUse(Splice(b, i, j, w), lo, hi) <==> OutsideUse(b, i, j, lo, hi) || InUse(w + [b[j]], lo, hi)
  {
    hide InUse, Splice;
    var p, q := b[..i], b[j + 1..];
    SpliceParts(b, i, j, w);
    InUseSplit(p, b[i], b[i + 1..j] + [b[j]] + q, lo, hi);
    InUseSplit(p, w[0], w[1..] + [b[j]] + q, lo, hi);
    InUseLast(p, b[i], w[0], lo, hi);
    InUseSplit(b[i..j], b[j], q, lo, hi);
    InUseSplit(w, b[j], q, lo, hi);
  }

  lemma InUse2(x: Block, y: Block, lo: int, hi: int)
    ensures InUse([x, y], lo, hi) <==> x == Block(lo, true) && y.addr == hi
  {
    if x == Block(lo, true) && y.addr == hi { assert [x, y][0] == Block(lo, true) && [x, y][0 + 1].addr == hi; }
  }

  lemma InUse3(x: Block, y: Block, z: Block, lo: int, hi: int)
    ensures InUse([x, y, z], lo, hi) <==>
              (x == Block(lo, true) && y.addr == hi) || (y == Block(lo, true) && z.addr == hi)
  {
    assert [x] + [y] + [z] == [x, y, z] && [x] + [y] == [x, y] && [y] + [z] == [y, z];
    InUseSplit([x], y, [z], lo, hi);
    InUse2(x, y, lo, hi);
    InUse2(y, z, lo, hi);
  }

  lemma InUse4(x: Block, y: Block, z: Block, t: Block, lo: int, hi: int)
    ensures InUse([x, y, z, t], lo, hi) <==>
              || (x == Block(lo, true) && y.addr == hi) || (y == Block(lo, true) && z.addr == hi)
              || (z == Block(lo, true) && t.addr == hi)
  {
    assert [x, y] + [z] + [t] == [x, y, z, t] && [x, y] + [z] == [x, y, z] && [z] + [t] == [z, t];
    InUseSplit([x, y], z, [t], lo, hi);
    InUse3(x, y, z, lo, hi);
    InUse2(z, t, lo, hi);
  }

  /** A block in use starts where no other does. */
  lemma InUseAt(b: seq<Block>, h: nat, lo: int, hi: int, k: nat, x: int, y: int)
    requires Tiles(b, h, lo, hi) && h > 0 && k < |b| - 1 && b[k].addr == x
    ensures InUse(b, x, y) <==> b[k].used && y == b[k + 1].addr
  {
    if i :| 0 <= i < |b| - 1 && b[i] == Block(x, true) && b[i + 1].addr == y { SameAddr(b, h, lo, hi, i, k); }
  }

  /** Two tilings of one region without neighbouring free blocks that have the same stretches
      in use are the same. */
  lemma {:induction false} Determined(b: seq<Block>, c: seq<Block>, h: nat, lo: int, hi: int)
    requires h > 0 && Tiles(b, h, lo, hi) && Tiles(c, h, lo, hi) && Merged(b) && Merged(c)
    requires forall x, y :: InUse(b, x, y) <==> InUse(c, x, y)
    ensures b == c
  {
    SameHead(b, c, h, lo, hi);
    var b', c' := b[1..], c[1..];
    Sentinel(b, h, lo, hi);
    Sentinel(c, h, lo, hi);
    if |b'| == 1 || |c'| == 1 {
      assert b == [b[0], b[1]] && c == [c[0], c[1]];
    } else {
      TailTiles(b, h, lo, hi);
      TailTiles(c, h, lo, hi);
      forall x, y
        ensures InUse(b', x, y) <==> InUse(c', x, y)
      {
        TailInUse(b, h, lo, hi, x, y);
        TailInUse(c, h, lo, hi, x, y);
      }
      Determined(b', c', h, b[1].addr, hi);
    }
  }

  /** The end of the region is the address of the last block only. */
  lemma Sentinel(b: seq<Block>, h: nat, lo: int, hi: int)
    requires h > 0 && Tiles(b, h, lo, hi)
    ensures b[1].addr == hi <==> |b| == 2
  {
    if |b| > 2 { Ordered(b, h, lo, hi, 1, |b| - 1); }
  }

  lemma TailTiles(b: seq<Block>, h: nat, lo: int, hi: int)
    requires Tiles(b, h, lo, hi) && Merged(b) && |b| > 2
    ensures Tiles(b[1..], h, b[1].addr, hi) && Merged(b[1..])
  {
    var c := b[1..];
    forall i | 0 <= i < |c| - 1
      ensures Size(c, i, h) >= 0 && Apart(c, i)
    {
      assert Size(b, i + 1, h) >= 0 && Apart(b, i + 1);
    }
  }

  lemma TailInUse(b: seq<Block>, h: nat, lo: int, hi: int, x: int, y: int)
    requires h > 0 && Tiles(b, h, lo, hi) && |b| > 2
    ensures InUse(b[1..], x, y) <==> InUse(b, x, y) && x != lo
  {
    assert [] + [b[0]] + b[1..] == b && [] + [b[0]] == [b[0]] && [b[0]] + [b[1]] == [b[0], b[1]];
    assert [b[0]] + [b[1]] + b[2..] == b && [b[1]] + b[2..] == b[1..];
    InUseSplit([b[0]], b[1], b[2..], x, y);
    InUse2(b[0], b[1], x, y);
    if i :| 0 <= i < |b[1..]| - 1 && b[1..][i] == Block(x, true) && b[1..][i + 1].addr == y {
      Ordered(b, h, lo, hi, 0, i + 1);
    }
  }

  lemma SameHead(b: seq<Block>, c: seq<Block>, h: nat, lo: int, hi: int)
    requires h > 0 && Tiles(b, h, lo, hi) && Tiles(c, h, lo, hi) && Merged(b) && Merged(c)
    requires forall x, y :: InUse(b, x, y) <==> InUse(c, x, y)
    ensures b[0] == c[0] && b[1].addr == c[1].addr
  {
    InUseAt(b, h, lo, hi, 0, lo, b[1].addr);
    InUseAt(c, h, lo, hi, 0, lo, c[1].addr);
    InUseAt(b, h, lo, hi, 0, lo, c[1].addr);
    InUseAt(c, h, lo, hi, 0, lo, b[1].addr);
    if !b[0].used {
      assert Apart(b, 0) && Apart(c, 0);
      NotAfter(b, c, h, lo, hi);
      NotAfter(c, b, h, lo, hi);
    }
  }

  lemma NotAfter(b: seq<Block>, c: seq<Block>, h: nat, lo: int, hi: int)
    requires h > 0 && Tiles(b, h, lo, hi) && Tiles(c, h, lo, hi) && !c[0].used && b[1].used
    requires forall x, y :: InUse(b, x, y) <==> InUse(c, x, y)
    ensures c[1].addr <= b[1].addr
  {
    if |b| == 2 {
      if |c| > 2 { Ordered(c, h, lo, hi, 1, |c| - 1); }
    } else {
      assert b[1] == Block(b[1].addr, true);
      assert InUse(b, b[1].addr, b[2].addr);
      var i :| 0 <= i < |c| - 1 && c[i] == Block(b[1].addr, true) && c[i + 1].addr == b[2].addr;
      if i > 1 { Ordered(c, h, lo, hi, 1, i); }
    }
  }

  /** A stretch in use outside a window starts at none of its blocks. */
  lemma OutsideStart(b: seq<Block>, h: nat, lo: int, hi: int, i: nat, j: nat, k: nat, x: int, y: int)
    requires h > 0 && Tiles(b, h, lo, hi) && i <= k < j < |b| && OutsideUse(b, i, j, x, y)
    ensures x != b[k].addr
  {
    var p, q := b[..i] + [b[i]], [b[j]] + b[j + 1..];
    if n :| 0 <= n < |p| - 1 && p[n] == Block(x, true) && p[n + 1].addr == y {
      assert p[n] == b[n];
      Ordered(b, h, lo, hi, n, k);
    } else {
      var n :| 0 <= n < |q| - 1 && q[n] == Block(x, true) && q[n + 1].addr == y;
      assert q[n] == b[j + n];
      Ordered(b, h, lo, hi, k, j + n);
    }
  }

  /** The front of a free block is taken into use, or all of it. */
  lemma CarveUse(b: seq<Block>, k: nat, w: seq<Block>, x: int, y: int)
    requires k < |b| - 1 && !b[k].used && 1 <= |w| <= 2 && w[0] == Block(b[k].addr, true) && (|w| == 2 ==> !w[1].used)
    ensures InUse(Splice(b, k, k + 1, w), x, y) <==>
              InUse(b, x, y) || (x == b[k].addr && y == if |w| == 2 then w[1].addr else b[k + 1].addr)
  {
    hide Splice, InUse, OutsideUse;
    InUseSplice(b, k, k + 1, w, x, y);
    assert b[k..k + 1] + [b[k + 1]] == [b[k], b[k + 1]];
    InUse2(b[k], b[k + 1], x, y);
    if |w| == 2 {
      assert w + [b[k + 1]] == [w[0], w[1], b[k + 1]];
      InUse3(w[0], w[1], b[k + 1], x, y);
    } else {
      assert w + [b[k + 1]] == [w[0], b[k + 1]];
      InUse2(w[0], b[k + 1], x, y);
    }
  }

  /** A used block is released and merged with its free neighbours. */
  lemma ReleaseUse(b: seq<Block>, h: nat, lo: int, hi: int, k: nat, x: int, y: int)
    requires h > 0 && Tiles(b, h, lo, hi) && k < |b| - 1 && b[k].used
    ensures var left, right := k > 0 && !b[k - 1].used, !b[k + 1].used;
            var i, j := if left then k - 1 else k, if right then k + 2 else k + 1;
            && j < |b|
            && (InUse(Splice(b, i, j, [Block(b[i].addr, false)]), x, y) <==> InUse(b, x, y) && x != b[k].addr)
  {
    hide Splice, InUse, OutsideUse;
    var left, right := k > 0 && !b[k - 1].used, !b[k + 1].used;
    var i, j := if left then k - 1 else k, if right then k + 2 else k + 1;
    var w := [Block(b[i].addr, false)];
    InUseSplice(b, i, j, w, x, y);
    assert w + [b[j]] == [w[0], b[j]];
    InUse2(w[0], b[j], x, y);
    ReleasedWindow(b, k, x, y);
    if OutsideUse(b, i, j, x, y) { OutsideStart(b, h, lo, hi, i, j, k, x, y); }
  }

  /** Of the blocks that a release merges only the released one was in use. */
  lemma ReleasedWindow(b: seq<Block>, k: nat, x: int, y: int)
    requires k < |b| - 1 && b[k].used && b[|b| - 1].used
    ensures var left, right := k > 0 && !b[k - 1].used, !b[k + 1].used;
            var i, j := if left then k - 1 else k, if right then k + 2 else k + 1;
            InUse(b[i..j] + [b[j]], x, y) <==> x == b[k].addr && y == b[k + 1].addr
  {
    var left, right := k > 0 && !b[k - 1].used, !b[k + 1].used;
    if left && right {
      assert b[k - 1..k + 2] + [b[k + 2]] == [b[k - 1], b[k], b[k + 1], b[k + 2]];
      InUse4(b[k - 1], b[k], b[k + 1], b[k + 2], x, y);
    } else if left {
      assert b[k - 1..k + 1] + [b[k + 1]] == [b[k - 1], b[k], b[k + 1]];
      InUse3(b[k - 1], b[k], b[k + 1], x, y);
    } else if right {
      assert b[k..k + 2] + [b[k + 2]] == [b[k], b[k + 1], b[k + 2]];
      InUse3(b[k], b[k + 1], b[k + 2], x, y);
    } else {
      assert b[k..k + 1] + [b[k + 1]] == [b[k], b[k + 1]];
      InUse2(b[k], b[k + 1], x, y);
    }
  }

  /** The end of a used block moves to `n`, where a free block begins. */
  lemma MoveEndUse(b: seq<Block>, h: nat, lo: int, hi: int, k: nat, n: int, x: int, y: int)
    requires h > 0 && Tiles(b, h, lo, hi) && k < |b| - 1 && b[k].used
    ensures var j := if b[k + 1].used then k + 1 else k + 2;
            && j < |b|
            && (InUse(Splice(b, k, j, [b[k], Block(n, false)]), x, y) <==>
                 (InUse(b, x, y) && x != b[k].addr) || (x == b[k].addr && y == n))
  {
    hide Splice, InUse, OutsideUse;
    var j := if b[k + 1].used then k + 1 else k + 2;
    var w := [b[k], Block(n, false)];
    InUseSplice(b, k, j, w, x, y);
    assert w + [b[j]] == [w[0], w[1], b[j]];
    InUse3(w[0], w[1], b[j], x, y);
    if j == k + 1 {
      assert b[k..j] + [b[j]] == [b[k], b[k + 1]];
      InUse2(b[k], b[k + 1], x, y);
    } else {
      assert b[k..j] + [b[j]] == [b[k], b[k + 1], b[k + 2]];
      InUse3(b[k], b[k + 1], b[k + 2], x, y);
    }
    if OutsideUse(b, k, j, x, y) { OutsideStart(b, h, lo, hi, k, j, k, x, y); }
  }
}
