/** The first-fit heap of mem.c on values: its blocks by offset, and the pointer to the
    lowest free block from which a search starts. */
module MemSpec {
  import opened Tiling

  const HEADER: nat := 12       // SIZEOF_STRUCT_MEM
  const MIN_SIZE: nat := 12     // MIN_SIZE_ALIGNED

  datatype Heap = Heap(size: nat, blocks: seq<Block>, lfree: int, usedMem: int, maxMem: int)

  /** Offset of heap_end. */
  function End(h: Heap): int { h.size + HEADER }

  predicate IsFree(h: Heap, k: int) { 0 <= k < |h.blocks| - 1 && !h.blocks[k].used }

  predicate IsUsed(h: Heap, k: int) { 0 <= k < |h.blocks| - 1 && h.blocks[k].used }

  function SizeOf(h: Heap, k: int): int
    requires 0 <= k < |h.blocks| - 1
  {
    Size(h.blocks, k, HEADER)
  }

  /** lfree is a free block or heap_end. */
  ghost predicate Points(b: seq<Block>, end: int, lfree: int) { lfree == end || Block(lfree, false) in b }

  /** What every operation keeps. */
  ghost predicate Inv(h: Heap) {
    && Tiles(h.blocks, HEADER, 0, End(h)) && Merged(h.blocks)
    && Points(h.blocks, End(h), h.lfree)
    && h.usedMem == UsedBytes(h.blocks) && h.maxMem >= h.usedMem
  }

  /** lfree is not above any free block: with Inv, it is the lowest, or heap_end if none is free. */
  ghost predicate Lowest(h: Heap) { forall x :: x in h.blocks && !x.used ==> h.lfree <= x.addr }

  /** rt_system_heap_init on a region with room for `size` bytes. */
  function Init(size: nat): Heap {
    Heap(size, [Block(0, false), Block(size + HEADER, true)], 0, 0, 0)
  }

  /** The offset of the first free block from position `k` on, or of heap_end. */
  function NextFree(b: seq<Block>, k: nat): int
    requires k < |b|
    decreases |b| - k
  {
    if k == |b| - 1 || !b[k].used then b[k].addr else NextFree(b, k + 1)
  }

  function WithUsed(h: Heap, blocks: seq<Block>, lfree: int, used: int): Heap {
    h.(blocks := blocks, lfree := lfree, usedMem := used, maxMem := if h.maxMem < used then used else h.maxMem)
  }

  /** The window that an allocation of `size` bytes puts in the place of free block `k`. */
  function Carved(h: Heap, k: int, size: int): seq<Block>
    requires 0 <= k < |h.blocks| - 1
  {
    var a := h.blocks[k].addr;
    if SizeOf(h, k) >= size + HEADER + MIN_SIZE then [Block(a, true), Block(a + HEADER + size, false)]
    else [Block(a, true)]
  }

  /** rt_malloc on the free block at position `k`. */
  function AllocAt(h: Heap, k: int, size: int): Heap
    requires IsFree(h, k)
  {
    var b, w := Splice(h.blocks, k, k + 1, Carved(h, k, size)), Carved(h, k, size);
    var taken := if |w| == 2 then size + HEADER else SizeOf(h, k) + HEADER;
    WithUsed(h, b, if h.blocks[k].addr == h.lfree then NextFree(b, k) else h.lfree, h.usedMem + taken)
  }

  function Align(size: int): int { (size + 3) / 4 * 4 }

  /** The size a request of `size` bytes is rounded to. */
  function Request(size: int): int { if Align(size) < MIN_SIZE then MIN_SIZE else Align(size) }

  function Min(x: int, y: int): int { if x < y then x else y }

  /** plug_holes on the free block at position `k`: what becomes of lfree. */
  function Plugged(b: seq<Block>, k: int, lfree: int): int
    requires 0 <= k < |b| - 1
  {
    var l := if !b[k + 1].used && lfree == b[k + 1].addr then b[k].addr else lfree;
    if k > 0 && !b[k - 1].used && l == b[k].addr then b[k - 1].addr else l
  }

  /** rt_free of the used block at position `k`. */
  function FreeAt(h: Heap, k: int): Heap
    requires IsUsed(h, k)
  {
    var left, right := k > 0 && !h.blocks[k - 1].used, !h.blocks[k + 1].used;
    var i, j := if left then k - 1 else k, if right then k + 2 else k + 1;
    h.(blocks := Splice(h.blocks, i, j, [Block(h.blocks[i].addr, false)]),
       lfree := Plugged(h.blocks, k, Min(h.blocks[k].addr, h.lfree)),
       usedMem := h.usedMem - (SizeOf(h, k) + HEADER))
  }

  /** When rt_realloc cuts the tail off a block. */
  predicate CanShrink(h: Heap, k: int, size: int) {
    IsUsed(h, k) && 0 <= size && size + HEADER + MIN_SIZE < SizeOf(h, k)
  }

  function ShrinkAt(h: Heap, k: int, size: int): Heap
    requires CanShrink(h, k, size)
  {
    var right, n := !h.blocks[k + 1].used, h.blocks[k].addr + HEADER + size;
    h.(blocks := Splice(h.blocks, k, if right then k + 2 else k + 1, [h.blocks[k], Block(n, false)]),
       lfree := if right && h.lfree == h.blocks[k + 1].addr then n else h.lfree,
       usedMem := h.usedMem - (SizeOf(h, k) - size))
  }

  // ---- the invariant ----

  /** Rewriting the window [i, j) to `w`. */
  lemma SpliceInv(h: Heap, i: nat, j: nat, w: seq<Block>, h': Heap)
    requires Inv(h) && i < j < |h.blocks| && w != [] && w[0].addr == h.blocks[i].addr
    requires forall k :: 0 <= k < |w| ==> Size(w + [h.blocks[j]], k, HEADER) >= 0
    requires i > 0 ==> h.blocks[i - 1].used || w[0].used
    requires w[|w| - 1].used || h.blocks[j].used
    requires forall k :: 0 <= k < |w| - 1 ==> Apart(w, k)
    requires h'.size == h.size && h'.blocks == Splice(h.blocks, i, j, w) && Points(h'.blocks, End(h), h'.lfree)
    requires h'.usedMem == h.usedMem - UsedBytes(h.blocks[i..j + 1]) + UsedBytes(w + [h.blocks[j]])
    requires h'.maxMem >= h'.usedMem
    ensures Inv(h')
  {
    hide Splice, Sum, Tiles, Merged;
    TilesSplice(h.blocks, i, j, w, HEADER, 0, End(h));
    MergedSplice(h.blocks, i, j, w);
    SumSplice(h.blocks, i, j, w, UsedTerm());
  }

  lemma {:induction false} NextFreeIs(b: seq<Block>, k: nat, end: int)
    requires Tiles(b, HEADER, 0, end) && k < |b|
    ensures Points(b, end, NextFree(b, k))
    ensures forall i :: k <= i < |b| - 1 && !b[i].used ==> NextFree(b, k) <= b[i].addr
    decreases |b| - k
  {
    if k == |b| - 1 {
    } else if !b[k].used {
      assert Block(b[k].addr, false) == b[k];
      forall i | k < i < |b|
        ensures b[k].addr <= b[i].addr
      {
        Ordered(b, HEADER, 0, end, k, i);
      }
    } else {
      NextFreeIs(b, k + 1, end);
    }
  }

  lemma AllocMembers(h: Heap, k: int, size: int)
    requires Inv(h) && IsFree(h, k) && 0 <= size <= SizeOf(h, k)
    ensures forall x :: x in AllocAt(h, k, size).blocks <==>
              x in Carved(h, k, size) || (x in h.blocks && x != h.blocks[k])
    ensures Tiles(AllocAt(h, k, size).blocks, HEADER, 0, End(h))
  {
    var b, w := h.blocks, Carved(h, k, size);
    assert b[k..k + 1] == [b[k]];
    SpliceMember(b, k, k + 1, w, HEADER, 0, End(h));
    TilesSplice(b, k, k + 1, w, HEADER, 0, End(h));
  }

  lemma AllocInv(h: Heap, k: int, size: int)
    requires Inv(h) && IsFree(h, k) && 0 <= size <= SizeOf(h, k)
    ensures Inv(AllocAt(h, k, size))
  {
    hide Splice, NextFree, Sum;
    var b, w, h', f := h.blocks, Carved(h, k, size), AllocAt(h, k, size), UsedTerm();
    AllocMembers(h, k, size);
    NextFreeIs(h'.blocks, k, End(h)) by { SpliceLength(b, k, k + 1, w); }
    assert b[k..k + 2] == [b[k], b[k + 1]] && Apart(b, k);
    Sum2(b[k], b[k + 1], f);
    if |w| == 2 {
      assert w + [b[k + 1]] == [w[0], w[1], b[k + 1]];
      Sum3(w[0], w[1], b[k + 1], f);
    } else {
      assert w + [b[k + 1]] == [w[0], b[k + 1]];
      Sum2(w[0], b[k + 1], f);
    }
    SpliceInv(h, k, k + 1, w, h');
  }

  lemma SpliceLength(b: seq<Block>, i: nat, j: nat, w: seq<Block>)
    requires i <= j <= |b|
    ensures |Splice(b, i, j, w)| == |b| - (j - i) + |w|
  {}

  lemma FreeMembers(h: Heap, k: int)
    requires Inv(h) && IsUsed(h, k)
    ensures var left, right := k > 0 && !h.blocks[k - 1].used, !h.blocks[k + 1].used;
            var i := if left then k - 1 else k;
            forall x :: x in FreeAt(h, k).blocks <==>
              || x == Block(h.blocks[i].addr, false)
              || (x in h.blocks && x != h.blocks[k] && !(left && x == h.blocks[k - 1])
                && !(right && x == h.blocks[k + 1]))
  {
    hide Tiles, Merged, Splice, Sum;
    var left, right := k > 0 && !h.blocks[k - 1].used, !h.blocks[k + 1].used;
    var i, j := if left then k - 1 else k, if right then k + 2 else k + 1;
    SpliceMember(h.blocks, i, j, [Block(h.blocks[i].addr, false)], HEADER, 0, End(h));
    WindowMember(h.blocks, k, left, right);
  }

  /** Where the blocks around a position lie. */
  lemma Around(h: Heap, k: int)
    requires Inv(h) && 0 <= k < |h.blocks| - 1
    ensures h.blocks[k].addr < h.blocks[k + 1].addr <= End(h)
    ensures k > 0 ==> h.blocks[k - 1].addr < h.blocks[k].addr
  {
    hide Merged, Sum;
    Ordered(h.blocks, HEADER, 0, End(h), k, k + 1);
    if k + 1 < |h.blocks| - 1 { Ordered(h.blocks, HEADER, 0, End(h), k + 1, |h.blocks| - 1); }
    if k > 0 { Ordered(h.blocks, HEADER, 0, End(h), k - 1, k); }
  }

  lemma FreePoints(h: Heap, k: int)
    requires Inv(h) && IsUsed(h, k)
    ensures Points(FreeAt(h, k).blocks, End(h), FreeAt(h, k).lfree)
    ensures Lowest(h) ==> Lowest(FreeAt(h, k))
  {
    hide Tiles, Merged, Splice, Sum;
    FreeMembers(h, k);
    Around(h, k);
  }

  lemma FreeInv(h: Heap, k: int)
    requires Inv(h) && IsUsed(h, k)
    ensures Inv(FreeAt(h, k))
    ensures Lowest(h) ==> Lowest(FreeAt(h, k))
  {
    hide Splice, Sum;
    var b, f, h' := h.blocks, UsedTerm(), FreeAt(h, k);
    var left, right := k > 0 && !b[k - 1].used, !b[k + 1].used;
    var i, j := if left then k - 1 else k, if right then k + 2 else k + 1;
    var w := [Block(b[i].addr, false)];
    FreePoints(h, k);
    assert Size(b, k, HEADER) >= 0;
    if left { assert Size(b, k - 1, HEADER) >= 0; }
    if right { assert Size(b, k + 1, HEADER) >= 0 && Apart(b, k + 1); }
    if left && k > 1 { assert Apart(b, k - 2); }
    assert w + [b[j]] == [w[0], b[j]];
    Sum2(w[0], b[j], f);
    FreeWindow(b, k, f);
    SpliceInv(h, i, j, w, h');
  }

  lemma ShrinkMembers(h: Heap, k: int, size: int)
    requires Inv(h) && CanShrink(h, k, size)
    ensures var n, right := h.blocks[k].addr + HEADER + size, !h.blocks[k + 1].used;
            forall x :: x in ShrinkAt(h, k, size).blocks <==>
              x == Block(n, false) || (x in h.blocks && !(right && x == h.blocks[k + 1]))
  {
    hide Tiles, Merged, Splice, Sum;
    var b, n, right := h.blocks, h.blocks[k].addr + HEADER + size, !h.blocks[k + 1].used;
    SpliceMember(b, k, if right then k + 2 else k + 1, [b[k], Block(n, false)], HEADER, 0, End(h));
    WindowMember(b, k, false, right);
    Around(h, k);
  }

  lemma ShrinkInv(h: Heap, k: int, size: int)
    requires Inv(h) && CanShrink(h, k, size)
    ensures Inv(ShrinkAt(h, k, size))
  {
    hide Splice, Sum;
    var b, f, h' := h.blocks, UsedTerm(), ShrinkAt(h, k, size);
    var w := [b[k], Block(b[k].addr + HEADER + size, false)];
    ShrinkMembers(h, k, size);
    Around(h, k);
    if b[k + 1].used {
      assert b[k..k + 2] == [b[k], b[k + 1]] && w + [b[k + 1]] == [w[0], w[1], b[k + 1]];
      Sum2(b[k], b[k + 1], f);
      Sum3(w[0], w[1], b[k + 1], f);
      SpliceInv(h, k, k + 1, w, h');
    } else {
      assert b[k..k + 3] == [b[k], b[k + 1], b[k + 2]] && w + [b[k + 2]] == [w[0], w[1], b[k + 2]] && Apart(b, k + 1);
      Sum3(b[k], b[k + 1], b[k + 2], f);
      Sum3(w[0], w[1], b[k + 2], f);
      assert Size(b, k + 1, HEADER) >= 0;
      SpliceInv(h, k, k + 2, w, h');
    }
  }

  // ---- the lowest free block ----

  lemma AllocLowest(h: Heap, k: int, size: int)
    requires Inv(h) && Lowest(h) && IsFree(h, k) && 0 <= size <= SizeOf(h, k)
    ensures Lowest(AllocAt(h, k, size))
  {
    var b, h' := h.blocks, AllocAt(h, k, size);
    AllocMembers(h, k, size);
    if b[k].addr == h.lfree {
      NextFreeIs(h'.blocks, k, End(h));
      forall x | x in h'.blocks && !x.used
        ensures h'.lfree <= x.addr
      {
        var i :| 0 <= i < |h'.blocks| && h'.blocks[i] == x;
        if i < k {
          assert h'.blocks[i] == b[i] && b[i] in b;
          Ordered(b, HEADER, 0, End(h), i, k);
        }
      }
    }
  }

  /** After rt_realloc cut a block, lfree is the lowest free block exactly when the block
      behind was free or lfree was below the cut. */
  lemma ShrinkLowest(h: Heap, k: int, size: int)
    requires Inv(h) && Lowest(h) && CanShrink(h, k, size)
    ensures Lowest(ShrinkAt(h, k, size)) <==> !h.blocks[k + 1].used || h.lfree < h.blocks[k].addr + HEADER + size
  {
    hide Tiles, Merged, Splice, Sum;
    var n, h' := h.blocks[k].addr + HEADER + size, ShrinkAt(h, k, size);
    ShrinkMembers(h, k, size);
    Around(h, k);
    assert Block(n, false) in h'.blocks;
    if h.lfree != End(h) { BetweenNone(h, k, h.lfree); }
  }

  /** No block starts inside another. */
  lemma BetweenNone(h: Heap, k: int, a: int)
    requires Inv(h) && 0 <= k < |h.blocks| - 1 && exists u :: Block(a, u) in h.blocks
    ensures a <= h.blocks[k].addr || h.blocks[k + 1].addr <= a
  {
    hide Merged, Sum;
    var u :| Block(a, u) in h.blocks;
    var i :| 0 <= i < |h.blocks| && h.blocks[i] == Block(a, u);
    if i < k { Ordered(h.blocks, HEADER, 0, End(h), i, k); }
    if k + 1 < i { Ordered(h.blocks, HEADER, 0, End(h), k + 1, i); }
  }

  // ---- the search of rt_malloc ----

  /** Block `k` is one that the search may take: free, large enough, and below the bound of the loop. */
  predicate Fits(h: Heap, k: int, size: int) {
    IsFree(h, k) && SizeOf(h, k) >= size && h.lfree <= h.blocks[k].addr < h.size - size
  }

  ghost predicate FirstFit(h: Heap, k: int, size: int) {
    Fits(h, k, size) && forall j :: 0 <= j < k ==> !Fits(h, j, size)
  }

  /** rt_malloc refuses a request only if no free block is large enough, or the only ones
      are an exact fit that ends at heap_end. */
  lemma Complete(h: Heap, size: int, k: int)
    requires Inv(h) && Lowest(h) && IsFree(h, k) && 0 <= size <= SizeOf(h, k)
    ensures Fits(h, k, size) <==> !(k == |h.blocks| - 2 && SizeOf(h, k) == size)
  {
    assert h.blocks[k] in h.blocks;
    if k + 1 < |h.blocks| - 1 { Ordered(h.blocks, HEADER, 0, End(h), k + 1, |h.blocks| - 1); }
  }

  /** An exact fit that ends at heap_end is refused. */
  lemma RefusedAtEnd()
    ensures var h := Init(100); Inv(h) && Request(100) == 100 && IsFree(h, 0) && SizeOf(h, 0) == 100 && !Fits(h, 0, 100)
  {
    InitInv(100);
  }

  /** The bound of the search loop, a 32-bit difference. */
  function Bound(h: Heap, size: int): nat { (h.size - size) % 0x1_0000_0000 }

  /** The search ends at position `p`: at the bound, or at a block that it takes. */
  predicate Stops(h: Heap, size: int, p: int)
    requires 0 <= p < |h.blocks|
  {
    h.blocks[p].addr >= Bound(h, size) || (IsFree(h, p) && SizeOf(h, p) >= size)
  }

  /** The position of the search after `n` steps from position `k`; heap_end leads to itself. */
  function WalkedTo(h: Heap, k: nat, n: nat): (p: nat)
    requires k < |h.blocks|
    ensures p < |h.blocks|
  {
    if k + n < |h.blocks| then k + n else |h.blocks| - 1
  }

  /** A request that passes the size test of rt_malloc is served or refused if and only if
      the heap has MIN_SIZE bytes or more; in a smaller one the bound of the loop wraps round
      and the search never ends. */
  lemma SearchEnds(h: Heap, bytes: int, k: nat)
    requires Inv(h) && h.size + HEADER < 0x1_0000_0000 && 0 < Align(bytes) <= h.size
    requires k < |h.blocks| && h.blocks[k].addr == h.lfree
    ensures (exists n :: Stops(h, Request(bytes), WalkedTo(h, k, n))) <==> h.size >= MIN_SIZE
  {
    if h.size >= MIN_SIZE {
      var n := |h.blocks| - 1 - k;
      assert WalkedTo(h, k, n) == |h.blocks| - 1;
      assert Stops(h, Request(bytes), WalkedTo(h, k, n));
    } else {
      forall n
        ensures !Stops(h, Request(bytes), WalkedTo(h, k, n))
      {
        TinyHeapSpins(h, k, n);
      }
    }
  }

  /** After any number of steps the search in a small heap is below the bound and has found
      nothing. */
  lemma TinyHeapSpins(h: Heap, k: nat, n: nat)
    requires Inv(h) && h.size < MIN_SIZE && k < |h.blocks|
    ensures h.blocks[WalkedTo(h, k, n)].addr < Bound(h, MIN_SIZE) && !Stops(h, MIN_SIZE, WalkedTo(h, k, n))
  {
    var p := WalkedTo(h, k, n);
    if p < |h.blocks| - 1 { Ordered(h.blocks, HEADER, 0, End(h), p, |h.blocks| - 1); }
    if p + 1 < |h.blocks| - 1 { Ordered(h.blocks, HEADER, 0, End(h), p + 1, |h.blocks| - 1); }
    if p > 0 { Ordered(h.blocks, HEADER, 0, End(h), 0, p); }
  }

  /** After a realloc that leaves lfree above a free block, rt_malloc refuses what would fit. */
  lemma ShrinkLosesBlock()
    ensures var h0 := Init(100);
            && IsFree(h0, 0) && Fits(h0, 0, 80) && CanShrink(AllocAt(h0, 0, 80), 0, 12)
            && (var h := ShrinkAt(AllocAt(h0, 0, 80), 0, 12); IsFree(h, 1) && SizeOf(h, 1) == 76 && !Fits(h, 1, 12))
  {}

  /** An allocation moves no used block. */
  lemma AllocKeeps(h: Heap, j: int, size: int, k: int) returns (m: int)
    requires Inv(h) && IsFree(h, j) && 0 <= size <= SizeOf(h, j) && IsUsed(h, k)
    ensures var h' := AllocAt(h, j, size); IsUsed(h', m) && h'.blocks[m] == h.blocks[k] && SizeOf(h', m) == SizeOf(h, k)
  {
    var h' := AllocAt(h, j, size);
    m := if k < j then k else k + |h'.blocks| - |h.blocks|;
  }

  // ---- exactly what an operation does ----

  /** A request is rounded up to the next multiple of four, and to the smallest block. */
  lemma RequestLaw(size: nat)
    ensures var n := Request(size); n >= size && n >= MIN_SIZE && n % 4 == 0 && (n < size + 4 || n == MIN_SIZE)
  {}

  /** Where the block that rt_malloc cuts from free block `k` ends. */
  function AllocEnd(h: Heap, k: int, size: int): int
    requires IsFree(h, k)
  {
    if SizeOf(h, k) >= size + HEADER + MIN_SIZE then h.blocks[k].addr + HEADER + size else h.blocks[k + 1].addr
  }

  /** rt_malloc takes into use one stretch, from the start of the free block, and no other. */
  lemma AllocUse(h: Heap, k: int, size: int, lo: int, hi: int)
    requires Inv(h) && IsFree(h, k) && 0 <= size <= SizeOf(h, k)
    ensures InUse(AllocAt(h, k, size).blocks, lo, hi) <==>
              InUse(h.blocks, lo, hi) || (lo == h.blocks[k].addr && hi == AllocEnd(h, k, size))
  {
    hide Splice, InUse, Inv, NextFree;
    CarveUse(h.blocks, k, Carved(h, k, size), lo, hi);
  }

  /** The block given out is as large as asked for wherever the rest makes a block of its
      own; that rest is free, and used_mem grows by no more than the block and its header. */
  lemma AllocExact(h: Heap, k: int, size: int)
    requires Inv(h) && IsFree(h, k) && 0 <= size <= SizeOf(h, k)
    ensures var h' := AllocAt(h, k, size);
            && IsUsed(h', k) && h'.blocks[k].addr == h.blocks[k].addr
            && size <= SizeOf(h', k) < size + HEADER + MIN_SIZE
            && h'.usedMem == h.usedMem + SizeOf(h', k) + HEADER
            && if SizeOf(h, k) >= size + HEADER + MIN_SIZE then
                 SizeOf(h', k) == size && IsFree(h', k + 1) && SizeOf(h', k + 1) == SizeOf(h, k) - size - HEADER
               else SizeOf(h', k) == SizeOf(h, k)
  {
    hide NextFree;
  }

  /** rt_free takes exactly its block out of use. */
  lemma FreeUse(h: Heap, k: int, lo: int, hi: int)
    requires Inv(h) && IsUsed(h, k)
    ensures InUse(FreeAt(h, k).blocks, lo, hi) <==> InUse(h.blocks, lo, hi) && lo != h.blocks[k].addr
  {
    hide Splice, InUse, Merged;
    ReleaseUse(h.blocks, HEADER, 0, End(h), k, lo, hi);
  }

  /** The cut of rt_realloc moves exactly the end of its block. */
  lemma ShrinkUse(h: Heap, k: int, size: int, lo: int, hi: int)
    requires Inv(h) && CanShrink(h, k, size)
    ensures var a := h.blocks[k].addr;
            InUse(ShrinkAt(h, k, size).blocks, lo, hi) <==>
              (InUse(h.blocks, lo, hi) && lo != a) || (lo == a && hi == a + HEADER + size)
  {
    hide Splice, InUse, Merged;
    MoveEndUse(h.blocks, HEADER, 0, End(h), k, h.blocks[k].addr + HEADER + size, lo, hi);
  }

  /** A block that is freed as soon as it is given out leaves the heap as it was. */
  lemma RoundTrip(h: Heap, k: int, size: int)
    requires Inv(h) && IsFree(h, k) && 0 <= size <= SizeOf(h, k)
    ensures var h1 := AllocAt(h, k, size);
            IsUsed(h1, k) && FreeAt(h1, k).blocks == h.blocks && FreeAt(h1, k).usedMem == h.usedMem
    ensures Lowest(h) ==> FreeAt(AllocAt(h, k, size), k).lfree == h.lfree
  {
    hide InUse, Tiles, Merged, Sum, Lowest, Splice, NextFree;
    AllocExact(h, k, size);
    AllocInv(h, k, size);
    var h1 := AllocAt(h, k, size);
    FreeInv(h1, k);
    var h2 := FreeAt(h1, k);
    assert h2.size == h.size;
    if Lowest(h) { AllocLowest(h, k, size); }
    hide AllocAt, FreeAt;
    forall lo, hi
      ensures InUse(h2.blocks, lo, hi) <==> InUse(h.blocks, lo, hi)
    {
      AllocUse(h, k, size, lo, hi);
      FreeUse(h1, k, lo, hi);
      if lo == h.blocks[k].addr { InUseAt(h.blocks, HEADER, 0, End(h), k, lo, hi); }
    }
    Determined(h.blocks, h2.blocks, HEADER, 0, End(h));
    if Lowest(h) { OneLowest(h, h2); }
  }

  lemma OneLowest(h: Heap, h': Heap)
    requires Inv(h) && Inv(h') && Lowest(h) && Lowest(h') && h.blocks == h'.blocks && h.size == h'.size
    ensures h.lfree == h'.lfree
  {
    forall x | x in h.blocks
      ensures x.addr <= End(h)
    {
      var i :| 0 <= i < |h.blocks| && h.blocks[i] == x;
      if i < |h.blocks| - 1 { Ordered(h.blocks, HEADER, 0, End(h), i, |h.blocks| - 1); }
    }
  }

  // ---- runs ----

  datatype Step = Malloc(k: int, size: int) | Free(k: int) | Shrink(k: int, size: int)

  ghost predicate Enabled(h: Heap, s: Step) {
    match s
    case Malloc(k, size) => size >= 0 && FirstFit(h, k, size)
    case Free(k) => IsUsed(h, k)
    case Shrink(k, size) => CanShrink(h, k, size)
  }

  ghost function Do(h: Heap, s: Step): Heap
    requires Enabled(h, s)
  {
    match s
    case Malloc(k, size) => AllocAt(h, k, size)
    case Free(k) => FreeAt(h, k)
    case Shrink(k, size) => ShrinkAt(h, k, size)
  }

  lemma StepInv(h: Heap, s: Step)
    requires Inv(h) && Enabled(h, s)
    ensures Inv(Do(h, s)) && Do(h, s).size == h.size
    ensures Do(h, s).maxMem == if h.maxMem < Do(h, s).usedMem then Do(h, s).usedMem else h.maxMem
    ensures Lowest(h) && !s.Shrink? ==> Lowest(Do(h, s))
  {
    hide Inv, Lowest;
    match s
    case Malloc(k, size) =>
      AllocInv(h, k, size);
      if Lowest(h) { AllocLowest(h, k, size); }
    case Free(k) =>
      FreeInv(h, k);
      AtMostMax(FreeAt(h, k));
    case Shrink(k, size) =>
      ShrinkInv(h, k, size);
      AtMostMax(ShrinkAt(h, k, size));
  }

  lemma AtMostMax(h: Heap)
    requires Inv(h)
    ensures h.usedMem <= h.maxMem
  {}

  ghost predicate Moves(hs: seq<Heap>, ss: seq<Step>, i: int)
    requires |hs| == |ss| + 1 && 0 <= i < |ss|
  {
    Enabled(hs[i], ss[i]) && hs[i + 1] == Do(hs[i], ss[i])
  }

  ghost predicate IsRun(hs: seq<Heap>, ss: seq<Step>, size: nat) {
    && |hs| == |ss| + 1 && hs[0] == Init(size)
    && forall i {:trigger Moves(hs, ss, i)} :: 0 <= i < |ss| ==> Moves(hs, ss, i)
  }

  /** The most bytes in use in the first states of a run. */
  ghost function Peak(hs: seq<Heap>, n: nat): int
    requires n < |hs|
  {
    if n == 0 then hs[0].usedMem else if Peak(hs, n - 1) < hs[n].usedMem then hs[n].usedMem else Peak(hs, n - 1)
  }

  /** In every run the blocks tile the heap, no two free ones are neighbours, used_mem is
      what the used ones take, max_mem is its running maximum, and lfree is free or heap_end;
      without a shrinking realloc it is the lowest. */
  lemma {:induction false} RunInv(hs: seq<Heap>, ss: seq<Step>, size: nat, n: nat)
    requires IsRun(hs, ss, size) && n < |hs|
    ensures Inv(hs[n]) && hs[n].size == size && hs[n].maxMem == Peak(hs, n)
    ensures (forall i :: 0 <= i < n ==> !ss[i].Shrink?) ==> Lowest(hs[n])
  {
    hide Inv, Do, Enabled, Lowest;
    if n == 0 {
      InitInv(size);
    } else {
      RunInv(hs, ss, size, n - 1);
      assert Moves(hs, ss, n - 1);
      StepInv(hs[n - 1], ss[n - 1]);
    }
  }

  lemma InitInv(size: nat)
    ensures Inv(Init(size)) && Lowest(Init(size))
  {
    Sum2(Block(0, false), Block(size + HEADER, true), UsedTerm());
    assert Init(size).blocks[0] == Block(0, false);
  }
}
