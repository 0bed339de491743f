/** memheap.c on values: the blocks of a pool in address order, the order of the free
    ring, and the two counters. Each operation is one rewriting of a window of blocks. */
module MemheapSpec {
  import opened Lists
  import opened Ring
  import opened Tiling

  const HEADER: nat := 24       // RT_MEMHEAP_SIZE
  const MIN_ALLOC: nat := 12    // RT_MEMHEAP_MINIALLOC

  datatype Heap = Heap(start: int, pool: int, blocks: seq<Block>, free: seq<int>, avail: int, maxUsed: int)

  function Max(x: int, y: int): int { if x < y then y else x }

  /** The free ring lists exactly the unused blocks, each once. */
  ghost predicate FreeRing(b: seq<Block>, free: seq<int>) {
    && Distinct(free)
    && forall a {:trigger a in free} {:trigger Block(a, false) in b} :: a in free <==> Block(a, false) in b
  }

  /** What every operation keeps. */
  ghost predicate Inv(h: Heap) {
    && Tiles(h.blocks, HEADER, h.start, h.start + h.pool - HEADER)
    && Merged(h.blocks)
    && FreeRing(h.blocks, h.free)
    && h.avail == FreeBytes(h.blocks, HEADER)
    && h.maxUsed >= h.pool - h.avail
  }

  /** rt_memheap_init: one free block, then the used tailer. */
  function InitHeap(start: int, pool: int): Heap {
    Heap(start, pool, [Block(start, false), Block(start + pool - HEADER, true)], [start],
         pool - 2 * HEADER, 2 * HEADER)
  }

  function Align(size: int): int { (size + 3) / 4 * 4 }

  /** The size an allocation of `size` bytes is rounded to. */
  function Request(size: int): int { Max(Align(size), MIN_ALLOC) }

  predicate IsFree(h: Heap, k: int) { 0 <= k < |h.blocks| - 1 && !h.blocks[k].used }

  predicate IsUsed(h: Heap, k: int) { 0 <= k < |h.blocks| - 1 && h.blocks[k].used }

  function SizeOf(h: Heap, k: int): int
    requires 0 <= k < |h.blocks| - 1
  {
    Size(h.blocks, k, HEADER)
  }

  function WithAvail(h: Heap, blocks: seq<Block>, free: seq<int>, avail: int): Heap {
    h.(blocks := blocks, free := free, avail := avail, maxUsed := Max(h.maxUsed, h.pool - avail))
  }

  /** rt_memheap_alloc on the free block at position `k`. */
  function AllocAt(h: Heap, k: int, size: int): Heap
    requires IsFree(h, k) && SizeOf(h, k) >= size
  {
    var a, rest := h.blocks[k].addr, Without(h.free, h.blocks[k].addr);
    if SizeOf(h, k) >= size + HEADER + MIN_ALLOC then
      var n := a + size + HEADER;
      WithAvail(h, Splice(h.blocks, k, k + 1, [Block(a, true), Block(n, false)]), [n] + rest, h.avail - size - HEADER)
    else
      WithAvail(h, Splice(h.blocks, k, k + 1, [Block(a, true)]), rest, h.avail - SizeOf(h, k))
  }

  /** rt_memheap_free of the used block at position `k`, merged with its free neighbours. */
  function FreeAt(h: Heap, k: int): Heap
    requires IsUsed(h, k)
  {
    var left, right := k > 0 && !h.blocks[k - 1].used, !h.blocks[k + 1].used;
    var i, j := if left then k - 1 else k, if right then k + 2 else k + 1;
    var free := if right then Without(h.free, h.blocks[k + 1].addr) else h.free;
    h.(blocks := Splice(h.blocks, i, j, [Block(h.blocks[i].addr, false)]),
       free := if left then free else [h.blocks[k].addr] + free,
       avail := h.avail + SizeOf(h, k) + (if left then HEADER else 0) + (if right then HEADER else 0))
  }

  /** rt_memheap_realloc, growing a used block into the free block behind it. */
  function GrowAt(h: Heap, k: int, size: int): Heap
    requires IsUsed(h, k) && IsFree(h, k + 1)
  {
    var n := h.blocks[k].addr + HEADER + size;
    WithAvail(h, Splice(h.blocks, k, k + 2, [h.blocks[k], Block(n, false)]),
              [n] + Without(h.free, h.blocks[k + 1].addr), h.avail - (size - SizeOf(h, k)))
  }

  /** rt_memheap_realloc, cutting the tail off a used block. */
  function ShrinkAt(h: Heap, k: int, size: int): Heap
    requires IsUsed(h, k)
  {
    var n := h.blocks[k].addr + HEADER + size;
    if !h.blocks[k + 1].used then
      h.(blocks := Splice(h.blocks, k, k + 2, [h.blocks[k], Block(n, false)]),
         free := [n] + Without(h.free, h.blocks[k + 1].addr),
         avail := h.avail + (SizeOf(h, k) - size))
    else
      h.(blocks := Splice(h.blocks, k, k + 1, [h.blocks[k], Block(n, false)]),
         free := [n] + h.free,
         avail := h.avail + (SizeOf(h, k) - size - HEADER))
  }

  lemma {:induction false} WithoutAt(s: seq<int>, k: nat)
    requires Distinct(s) && k < |s|
    ensures Without(s, s[k]) == Removed(s, k)
  {
    if k == 0 {
      assert Removed(s, 0) == s[1..];
    } else {
      WithoutAt(s[1..], k - 1);
      assert s[1..][k - 1] == s[k] && s[0] != s[k];
      assert Removed(s, k) == [s[0]] + Removed(s[1..], k - 1);
    }
  }

  /** A free address listed is the address of a block, and no other block has it. */
  lemma FreshAddress(h: Heap, k: nat, n: int)
    requires Inv(h) && k < |h.blocks| - 1 && h.blocks[k].addr < n < h.blocks[k + 1].addr
    ensures n !in h.free && forall u :: Block(n, u) !in h.blocks
  {
    if u, q :| 0 <= q < |h.blocks| && h.blocks[q] == Block(n, u) {
      if q < k { Ordered(h.blocks, HEADER, h.start, h.start + h.pool - HEADER, q, k); }
      if k + 1 < q { Ordered(h.blocks, HEADER, h.start, h.start + h.pool - HEADER, k + 1, q); }
    }
  }

  // ---- every operation keeps the invariant ----

  /** Rewriting the window [i, j) to `w` and the counters to match. */
  lemma SpliceInv(h: Heap, i: nat, j: nat, w: seq<Block>, h': Heap)
    requires Inv(h) && i < j < |h.blocks| && w != [] && w[0].addr == h.blocks[i].addr
    requires forall k :: 0 <= k < |w| ==> Size(w + [h.blocks[j]], k, HEADER) >= 0
    requires i > 0 ==> h.blocks[i - 1].used || w[0].used
    requires w[|w| - 1].used || h.blocks[j].used
    requires forall k :: 0 <= k < |w| - 1 ==> Apart(w, k)
    requires h'.start == h.start && h'.pool == h.pool && h'.blocks == Splice(h.blocks, i, j, w)
    requires FreeRing(h'.blocks, h'.free)
    requires h'.avail == h.avail - FreeBytes(h.blocks[i..j + 1], HEADER) + FreeBytes(w + [h.blocks[j]], HEADER)
    requires h'.maxUsed >= h'.pool - h'.avail
    ensures Inv(h')
  {
    hide Splice, Sum, Tiles, Merged;
    TilesSplice(h.blocks, i, j, w, HEADER, h.start, h.start + h.pool - HEADER);
    MergedSplice(h.blocks, i, j, w);
    SumSplice(h.blocks, i, j, w, FreeTerm(HEADER));
  }

  lemma AllocRing(h: Heap, k: int, size: int)
    requires Inv(h) && IsFree(h, k) && 0 <= size <= SizeOf(h, k)
    ensures var h' := AllocAt(h, k, size); FreeRing(h'.blocks, h'.free)
  {
    var b, a := h.blocks, h.blocks[k].addr;
    WithoutMember(h.free, a);
    assert b[k..k + 1] == [Block(a, false)];
    if SizeOf(h, k) >= size + HEADER + MIN_ALLOC {
      var n := a + size + HEADER;
      FreshAddress(h, k, n);
      SpliceMember(b, k, k + 1, [Block(a, true), Block(n, false)], HEADER, h.start, h.start + h.pool - HEADER);
      PrependDistinct(n, Without(h.free, a));
    } else {
      SpliceMember(b, k, k + 1, [Block(a, true)], HEADER, h.start, h.start + h.pool - HEADER);
    }
  }

  lemma AllocInv(h: Heap, k: int, size: int)
    requires Inv(h) && IsFree(h, k) && 0 <= size <= SizeOf(h, k)
    ensures Inv(AllocAt(h, k, size))
  {
    AllocRing(h, k, size);
    var b, a, f := h.blocks, h.blocks[k].addr, FreeTerm(HEADER);
    var h' := AllocAt(h, k, size);
    assert b[k..k + 2] == [b[k], b[k + 1]];
    Sum2(b[k], b[k + 1], f);
    if SizeOf(h, k) >= size + HEADER + MIN_ALLOC {
      var w := [Block(a, true), Block(a + size + HEADER, false)];
      assert w + [b[k + 1]] == [w[0], w[1], b[k + 1]];
      Sum3(w[0], w[1], b[k + 1], f);
      assert Apart(b, k);
      SpliceInv(h, k, k + 1, w, h');
    } else {
      assert [Block(a, true)] + [b[k + 1]] == [Block(a, true), b[k + 1]];
      Sum2(Block(a, true), b[k + 1], f);
      SpliceInv(h, k, k + 1, [Block(a, true)], h');
    }
  }

  lemma FreeRingKept(h: Heap, k: int)
    requires Inv(h) && IsUsed(h, k)
    ensures var h' := FreeAt(h, k); FreeRing(h'.blocks, h'.free)
  {
    hide Tiles, Merged, Splice, Without, Sum;
    var b := h.blocks;
    var left, right := k > 0 && !b[k - 1].used, !b[k + 1].used;
    var i, j := if left then k - 1 else k, if right then k + 2 else k + 1;
    var lo, hi := h.start, h.start + h.pool - HEADER;
    WithoutMember(h.free, b[k + 1].addr);
    SpliceMember(b, i, j, [Block(b[i].addr, false)], HEADER, lo, hi);
    WindowMember(b, k, left, right);
    Ordered(b, HEADER, lo, hi, k, k + 1);
    if left {
      Ordered(b, HEADER, lo, hi, k - 1, k);
    } else {
      UsedNotFree(h, k);
      PrependDistinct(b[k].addr, if right then Without(h.free, b[k + 1].addr) else h.free);
    }
  }

  lemma UsedNotFree(h: Heap, k: int)
    requires Inv(h) && IsUsed(h, k)
    ensures Block(h.blocks[k].addr, false) !in h.blocks && h.blocks[k].addr !in h.free
  {
    hide Merged, Sum;
    forall q | 0 <= q < |h.blocks| && h.blocks[q].addr == h.blocks[k].addr
      ensures h.blocks[q].used
    {
      SameAddr(h.blocks, HEADER, h.start, h.start + h.pool - HEADER, k, q);
    }
  }

  lemma FreeInv(h: Heap, k: int)
    requires Inv(h) && IsUsed(h, k)
    ensures Inv(FreeAt(h, k))
    ensures FreeAt(h, k).avail >= h.avail
  {
    FreeRingKept(h, k);
    var b, f := h.blocks, FreeTerm(HEADER);
    var left, right := k > 0 && !b[k - 1].used, !b[k + 1].used;
    var i, j := if left then k - 1 else k, if right then k + 2 else k + 1;
    var w, h' := [Block(b[i].addr, false)], FreeAt(h, k);
    assert Size(b, k, HEADER) >= 0;
    if left { assert Size(b, k - 1, HEADER) >= 0; }
    if right { assert Size(b, k + 1, HEADER) >= 0 && Apart(b, k + 1); }
    if left && k > 1 { assert Apart(b, k - 2); }
    assert w + [b[j]] == [w[0], b[j]];
    Sum2(w[0], b[j], f);
    FreeWindow(b, k, f);
    SpliceInv(h, i, j, w, h');
  }

  /** When a used block may be grown in place, or its tail cut off. */
  predicate CanGrow(h: Heap, k: int, size: int) {
    IsUsed(h, k) && IsFree(h, k + 1) && size > SizeOf(h, k)
    && SizeOf(h, k + 1) + SizeOf(h, k) > size + MIN_ALLOC
  }

  predicate CanShrink(h: Heap, k: int, size: int) {
    IsUsed(h, k) && 0 <= size && size + HEADER + MIN_ALLOC < SizeOf(h, k)
  }

  /** Moving the boundary between a used block and the free block behind it. */
  lemma MoveBoundary(h: Heap, k: int, size: int, h': Heap)
    requires Inv(h) && IsUsed(h, k) && IsFree(h, k + 1) && 0 <= size
    requires size != SizeOf(h, k) && size < SizeOf(h, k) + SizeOf(h, k + 1)
    requires var n := h.blocks[k].addr + HEADER + size;
             && h'.blocks == Splice(h.blocks, k, k + 2, [h.blocks[k], Block(n, false)])
             && h'.free == [n] + Without(h.free, h.blocks[k + 1].addr)
    requires h'.start == h.start && h'.pool == h.pool && h'.avail == h.avail - (size - SizeOf(h, k))
    requires h'.maxUsed >= h'.pool - h'.avail
    ensures Inv(h')
  {
    hide Splice, Sum, Without;
    var b, f := h.blocks, FreeTerm(HEADER);
    var n := b[k].addr + HEADER + size;
    var w := [b[k], Block(n, false)];
    var lo, hi := h.start, h.start + h.pool - HEADER;
    assert FreeRing(h'.blocks, h'.free) by {
      WithoutMember(h.free, b[k + 1].addr);
      FreshAddress(h, if size < SizeOf(h, k) then k else k + 1, n);
      assert b[k..k + 2] == [b[k], b[k + 1]];
      SpliceMember(b, k, k + 2, w, HEADER, lo, hi);
      PrependDistinct(n, Without(h.free, b[k + 1].addr));
    }
    assert b[k..k + 3] == [b[k], b[k + 1], b[k + 2]] && w + [b[k + 2]] == [w[0], w[1], b[k + 2]];
    Sum3(b[k], b[k + 1], b[k + 2], f);
    Sum3(w[0], w[1], b[k + 2], f);
    assert Apart(b, k + 1);
    SpliceInv(h, k, k + 2, w, h');
  }

  lemma GrowInv(h: Heap, k: int, size: int)
    requires Inv(h) && CanGrow(h, k, size)
    ensures Inv(GrowAt(h, k, size))
  {
    assert Size(h.blocks, k, HEADER) >= 0;
    MoveBoundary(h, k, size, GrowAt(h, k, size));
  }

  lemma ShrinkInv(h: Heap, k: int, size: int)
    requires Inv(h) && CanShrink(h, k, size)
    ensures Inv(ShrinkAt(h, k, size)) && ShrinkAt(h, k, size).avail >= h.avail
  {
    var b, h' := h.blocks, ShrinkAt(h, k, size);
    if !b[k + 1].used {
      assert Size(b, k + 1, HEADER) >= 0;
      MoveBoundary(h, k, size, h');
    } else {
      var n, f := b[k].addr + HEADER + size, FreeTerm(HEADER);
      var w := [b[k], Block(n, false)];
      assert FreeRing(h'.blocks, h'.free) by {
        FreshAddress(h, k, n);
        assert b[k..k + 1] == [b[k]];
        SpliceMember(b, k, k + 1, w, HEADER, h.start, h.start + h.pool - HEADER);
        PrependDistinct(n, h.free);
      }
      assert b[k..k + 2] == [b[k], b[k + 1]] && w + [b[k + 1]] == [w[0], w[1], b[k + 1]];
      Sum2(b[k], b[k + 1], f);
      Sum3(w[0], w[1], b[k + 1], f);
      SpliceInv(h, k, k + 1, w, h');
    }
  }

  // ---- runs ----

  datatype Step =
    | AllocStep(k: int, size: int)
    | FreeStep(k: int)
    | GrowStep(k: int, size: int)
    | ShrinkStep(k: int, size: int)

  predicate Enabled(h: Heap, s: Step) {
    match s
    case AllocStep(k, size) => IsFree(h, k) && 0 <= size <= SizeOf(h, k)
    case FreeStep(k) => IsUsed(h, k)
    case GrowStep(k, size) => CanGrow(h, k, size)
    case ShrinkStep(k, size) => CanShrink(h, k, size)
  }

  function Do(h: Heap, s: Step): Heap
    requires Enabled(h, s)
  {
    match s
    case AllocStep(k, size) => AllocAt(h, k, size)
    case FreeStep(k) => FreeAt(h, k)
    case GrowStep(k, size) => GrowAt(h, k, size)
    case ShrinkStep(k, size) => ShrinkAt(h, k, size)
  }

  /** The heap states of a run are `hs`, under the steps `ss`. */
  ghost predicate IsRun(hs: seq<Heap>, ss: seq<Step>) {
    && |hs| == |ss| + 1
    && forall i {:trigger hs[i], ss[i]} :: 0 <= i < |ss| ==> Enabled(hs[i], ss[i]) && hs[i + 1] == Do(hs[i], ss[i])
  }

  /** The largest number of pool bytes not available in any state of a run. */
  ghost function Peak(hs: seq<Heap>): int
    requires hs != []
  {
    var last := hs[|hs| - 1];
    if |hs| == 1 then last.pool - last.avail else Max(Peak(hs[..|hs| - 1]), last.pool - last.avail)
  }

  lemma StepInv(h: Heap, s: Step)
    requires Inv(h) && Enabled(h, s)
    ensures Inv(Do(h, s)) && Do(h, s).start == h.start && Do(h, s).pool == h.pool
    ensures Do(h, s).maxUsed == Max(h.maxUsed, h.pool - Do(h, s).avail)
  {
    match s
    case AllocStep(k, size) => AllocInv(h, k, size);
    case FreeStep(k) => FreeInv(h, k);
    case GrowStep(k, size) => GrowInv(h, k, size);
    case ShrinkStep(k, size) => ShrinkInv(h, k, size);
  }

  /** In every run from an initialized pool, every state satisfies the invariant and
      max_used_size is the running maximum of the bytes in use. */
  lemma {:induction false} RunInv(start: int, pool: int, hs: seq<Heap>, ss: seq<Step>)
    requires pool >= 2 * HEADER && IsRun(hs, ss) && hs[0] == InitHeap(start, pool)
    ensures forall i :: 0 <= i < |hs| ==> Inv(hs[i]) && hs[i].start == start && hs[i].pool == pool
    ensures hs[|hs| - 1].maxUsed == Peak(hs)
    decreases |hs|
  {
    hide Do, Enabled, Inv;
    var n := |hs| - 1;
    if n == 0 {
      InitInv(start, pool);
      assert hs[0].maxUsed == pool - hs[0].avail;
    } else {
      var hs', ss' := hs[..n], ss[..n - 1];
      RunPrefix(hs, ss);
      RunInv(start, pool, hs', ss');
      assert hs'[n - 1] == hs[n - 1];
      StepInv(hs[n - 1], ss[n - 1]);
    }
  }

  lemma RunPrefix(hs: seq<Heap>, ss: seq<Step>)
    requires IsRun(hs, ss) && ss != []
    ensures var n := |ss|;
            IsRun(hs[..n], ss[..n - 1]) && Enabled(hs[n - 1], ss[n - 1]) && hs[n] == Do(hs[n - 1], ss[n - 1])
  {
    hide Do, Enabled;
    var n := |ss|;
    assert hs[n - 1] == hs[n - 1] && ss[n - 1] == ss[n - 1];
    var hs', ss' := hs[..n], ss[..n - 1];
    forall i | 0 <= i < |ss'|
      ensures Enabled(hs'[i], ss'[i]) && hs'[i + 1] == Do(hs'[i], ss'[i])
    {
      assert hs'[i] == hs[i] && ss'[i] == ss[i] && hs'[i + 1] == hs[i + 1];
    }
  }

  lemma InitInv(start: int, pool: int)
    requires pool >= 2 * HEADER
    ensures Inv(InitHeap(start, pool))
  {
    var h := InitHeap(start, pool);
    Sum2(h.blocks[0], h.blocks[1], FreeTerm(HEADER));
    assert h.free[0] == start;
  }

  // ---- when an allocation is refused ----

  /** A request is refused only when no free block holds it, except for one case: a
      block of exactly the requested size that is all the memory there is. */
  lemma RefusedExactFit(h: Heap, k: int, size: int)
    requires Inv(h) && IsFree(h, k) && SizeOf(h, k) >= size && size >= h.avail
    ensures SizeOf(h, k) == size == h.avail
    ensures forall i :: IsFree(h, i) && i != k ==> SizeOf(h, i) == 0
  {
    var b, f := h.blocks, FreeTerm(HEADER);
    forall i | 0 <= i < |b| - 1
      ensures f(b[i], b[i + 1].addr) >= 0
    {
      assert Size(b, i, HEADER) >= 0;
    }
    SumAtLeast(b, k, f);
    forall i | IsFree(h, i) && i != k
      ensures SizeOf(h, i) == 0
    {
      if i < k { SumAtLeastTwo(b, i, k, f); } else { SumAtLeastTwo(b, k, i, f); }
    }
  }

  /** A new pool never gives out its whole block: of 148 bytes, 100 are free, in one block,
      and a request of 100 is refused. */
  lemma WholeRefused()
    ensures var h := InitHeap(64, 148);
            Inv(h) && IsFree(h, 0) && SizeOf(h, 0) == h.avail == Request(100) == 100 && !(Request(100) < h.avail)
  {
    InitInv(64, 148);
  }

  // ---- what an operation leaves alone ----

  /** After an allocation the new block is used and large enough, and every used block is
      still there with its address and size. */
  lemma AllocKeeps(h: Heap, j: int, size: int, k: int) returns (k': int)
    requires Inv(h) && IsFree(h, j) && 0 <= size <= SizeOf(h, j) && IsUsed(h, k)
    ensures var h' := AllocAt(h, j, size);
            && IsUsed(h', j) && h'.blocks[j].addr == h.blocks[j].addr && SizeOf(h', j) >= size
            && k' != j && IsUsed(h', k') && h'.blocks[k'] == h.blocks[k] && SizeOf(h', k') == SizeOf(h, k)
  {
    var h' := AllocAt(h, j, size);
    k' := if k < j then k else k + |h'.blocks| - |h.blocks|;
  }

  lemma FreeKeeps(h: Heap, k: int, i: int) returns (i': int)
    requires Inv(h) && IsUsed(h, k) && IsUsed(h, i) && i != k
    ensures var h' := FreeAt(h, k);
            IsUsed(h', i') && h'.blocks[i'] == h.blocks[i] && SizeOf(h', i') == SizeOf(h, i)
  {
    hide Inv, Without;
    LastUsed(h);
    var h' := FreeAt(h, k);
    i' := if i < k then i else i + |h'.blocks| - |h.blocks|;
  }

  // ---- exactly what an operation does ----

  /** A request is rounded up to the next multiple of four, and to the smallest block. */
  lemma RequestLaw(size: nat)
    ensures var n := Request(size);
            n >= size && n >= MIN_ALLOC && n % 4 == 0 && (n < size + 4 || n == MIN_ALLOC)
  {}

  /** Where the block that an allocation cuts from free block `k` ends. */
  function AllocEnd(h: Heap, k: int, size: int): int
    requires IsFree(h, k)
  {
    if SizeOf(h, k) >= size + HEADER + MIN_ALLOC then h.blocks[k].addr + HEADER + size else h.blocks[k + 1].addr
  }

  /** An allocation takes into use one stretch, from the start of the free block, and no other. */
  lemma AllocUse(h: Heap, k: int, size: int, lo: int, hi: int)
    requires Inv(h) && IsFree(h, k) && 0 <= size <= SizeOf(h, k)
    ensures InUse(AllocAt(h, k, size).blocks, lo, hi) <==>
              InUse(h.blocks, lo, hi) || (lo == h.blocks[k].addr && hi == AllocEnd(h, k, size))
  {
    hide Splice, InUse, Inv, Without;
    var a := h.blocks[k].addr;
    CarveUse(h.blocks, k, [Block(a, true), Block(a + size + HEADER, false)], lo, hi);
    CarveUse(h.blocks, k, [Block(a, true)], lo, hi);
  }

  /** The block given out is as large as asked for wherever the rest makes a block of its
      own; that rest is free, and no more than the block and its header is gone. */
  lemma AllocExact(h: Heap, k: int, size: int)
    requires Inv(h) && IsFree(h, k) && 0 <= size <= SizeOf(h, k)
    ensures var h' := AllocAt(h, k, size);
            && IsUsed(h', k) && h'.blocks[k].addr == h.blocks[k].addr
            && size <= SizeOf(h', k) < size + HEADER + MIN_ALLOC
            && if SizeOf(h, k) >= size + HEADER + MIN_ALLOC then
                 && SizeOf(h', k) == size && h'.avail == h.avail - size - HEADER
                 && IsFree(h', k + 1) && SizeOf(h', k + 1) == SizeOf(h, k) - size - HEADER
               else SizeOf(h', k) == SizeOf(h, k) && h'.avail == h.avail - SizeOf(h, k)
  {
    hide Without;
  }

  /** A release takes exactly its block out of use. */
  lemma FreeUse(h: Heap, k: int, lo: int, hi: int)
    requires Inv(h) && IsUsed(h, k)
    ensures InUse(FreeAt(h, k).blocks, lo, hi) <==> InUse(h.blocks, lo, hi) && lo != h.blocks[k].addr
  {
    hide Splice, InUse, Without, Merged, FreeRing;
    ReleaseUse(h.blocks, HEADER, h.start, h.start + h.pool - HEADER, k, lo, hi);
  }

  /** Growing or shrinking in place moves exactly the end of its block. */
  lemma ResizeUse(h: Heap, k: int, size: int, lo: int, hi: int)
    requires Inv(h) && (CanGrow(h, k, size) || CanShrink(h, k, size))
    ensures var h' := if CanGrow(h, k, size) then GrowAt(h, k, size) else ShrinkAt(h, k, size);
            var a := h.blocks[k].addr;
            InUse(h'.blocks, lo, hi) <==> (InUse(h.blocks, lo, hi) && lo != a) || (lo == a && hi == a + HEADER + size)
  {
    hide Splice, InUse, Without, Merged, FreeRing;
    MoveEndUse(h.blocks, HEADER, h.start, h.start + h.pool - HEADER, k, h.blocks[k].addr + HEADER + size, lo, hi);
  }

  /** A block that is released as soon as it is given out leaves the pool as it was. */
  lemma RoundTrip(h: Heap, k: int, size: int)
    requires Inv(h) && IsFree(h, k) && 0 <= size <= SizeOf(h, k)
    ensures var h1 := AllocAt(h, k, size);
            IsUsed(h1, k) && FreeAt(h1, k).blocks == h.blocks && FreeAt(h1, k).avail == h.avail
  {
    hide AllocAt, FreeAt, InUse, Tiles, Merged, FreeRing, Sum;
    AllocExact(h, k, size);
    StepInv(h, AllocStep(k, size));
    var h1 := AllocAt(h, k, size);
    StepInv(h1, FreeStep(k));
    var h2 := FreeAt(h1, k);
    forall lo, hi
      ensures InUse(h2.blocks, lo, hi) <==> InUse(h.blocks, lo, hi)
    {
      AllocUse(h, k, size, lo, hi);
      FreeUse(h1, k, lo, hi);
      if lo == h.blocks[k].addr { InUseAt(h.blocks, HEADER, h.start, h.start + h.pool - HEADER, k, lo, hi); }
    }
    Determined(h.blocks, h2.blocks, HEADER, h.start, h.start + h.pool - HEADER);
  }

  // ---- the order of the free ring ----

  /** The first `j` blocks of the free ring cannot hold `size` bytes. */
  ghost predicate TooSmall(h: Heap, j: nat, size: int)
    requires j <= |h.free|
  {
    forall i, k :: 0 <= i < j && IsFree(h, k) && h.blocks[k].addr == h.free[i] ==> SizeOf(h, k) < size
  }

  /** Block `k` holds `size` bytes and nothing before it in the free ring does. */
  ghost predicate FirstFit(h: Heap, k: nat, size: int) {
    && IsFree(h, k) && SizeOf(h, k) >= size
    && exists j :: 0 <= j < |h.free| && h.free[j] == h.blocks[k].addr && TooSmall(h, j, size)
  }

  ghost predicate Before(q: seq<int>, x: int, y: int) { exists i, j :: 0 <= i < j < |q| && q[i] == x && q[j] == y }

  /** The free blocks that stay keep their order in the ring. */
  ghost predicate KeepsOrder(q: seq<int>, q': seq<int>) {
    forall x, y :: x in q && y in q && x in q' && y in q' ==> (Before(q, x, y) <==> Before(q', x, y))
  }

  lemma {:induction false} WithoutOrder(q: seq<int>, a: int, x: int, y: int)
    requires Distinct(q) && x != a && y != a
    ensures Before(Without(q, a), x, y) <==> Before(q, x, y)
  {
    if q != [] {
      var rest := q[1..];
      TailDistinct(q);
      WithoutOrder(rest, a, x, y);
      WithoutMember(rest, a);
      BeforeCons(q[0], rest, x, y);
      BeforeCons(q[0], Without(rest, a), x, y);
      assert q == [q[0]] + rest;
    }
  }

  lemma BeforeCons(n: int, q: seq<int>, x: int, y: int)
    ensures Before([n] + q, x, y) <==> Before(q, x, y) || (x == n && y in q)
  {
    var p := [n] + q;
    if i, j :| 0 <= i < j < |q| && q[i] == x && q[j] == y { assert p[i + 1] == x && p[j + 1] == y; }
    if i, j :| 0 <= i < j < |p| && p[i] == x && p[j] == y { if i > 0 { assert q[i - 1] == x && q[j - 1] == y; } }
    if x == n && y in q {
      var j :| 0 <= j < |q| && q[j] == y;
      assert p[0] == x && p[j + 1] == y;
    }
  }

  lemma RingOrder(q: seq<int>, a: int, n: int, q': seq<int>)
    requires Distinct(q)
    requires q' == Without(q, a) || q' == q || (n !in q && (q' == [n] + Without(q, a) || q' == [n] + q))
    ensures KeepsOrder(q, q')
  {
    WithoutMember(q, a);
    forall x, y | x in q && y in q && x in q' && y in q'
      ensures Before(q, x, y) <==> Before(q', x, y)
    {
      if x != a && y != a { WithoutOrder(q, a, x, y); }
      BeforeCons(n, Without(q, a), x, y);
      BeforeCons(n, q, x, y);
    }
  }

  /** The free block that an operation makes comes first in the ring, so the next request
      that fits is served from it; the others keep their order. */
  lemma NewestFirst(h: Heap, s: Step, n: int, size: int)
    requires Inv(h) && Enabled(h, s)
    ensures var h' := Do(h, s);
            && KeepsOrder(h.free, h'.free)
            && (n in h'.free && n !in h.free ==> h'.free[0] == n)
            && forall i: nat :: IsFree(h', i) && h'.blocks[i].addr == n && n !in h.free && SizeOf(h', i) >= size ==>
                 FirstFit(h', i, size)
  {
    var q, q' := h.free, Do(h, s).free;
    assert Distinct(q) && |h.blocks| > s.k + 1 >= 1;
    NewFree(h, s);
    StepInv(h, s);
    assert FreeRing(Do(h, s).blocks, q');
    if i: nat :| IsFree(Do(h, s), i) && Do(h, s).blocks[i].addr == n { assert Block(n, false) in Do(h, s).blocks; }
    hide Inv, Splice, Do;
    if s.AllocStep? { WithoutMember(q, h.blocks[s.k].addr); } else { WithoutMember(q, h.blocks[s.k + 1].addr); }
    RingOrder(q, h.blocks[if s.AllocStep? then s.k else s.k + 1].addr, if q' == [] then 0 else q'[0], q');
  }

  lemma NewFree(h: Heap, s: Step)
    requires Inv(h) && Enabled(h, s)
    ensures var a := h.blocks[if s.AllocStep? then s.k else s.k + 1].addr;
            var q, q' := h.free, Do(h, s).free;
            q' == Without(q, a) || q' == q
            || (q' != [] && q'[0] !in q && (q' == [q'[0]] + Without(q, a) || q' == [q'[0]] + q))
  {
    hide Splice, Without;
    var b := h.blocks;
    match s
    case AllocStep(k, size) =>
      if SizeOf(h, k) >= size + HEADER + MIN_ALLOC { FreshAddress(h, k, b[k].addr + size + HEADER); }
    case FreeStep(k) => UsedNotFree(h, k);
    case GrowStep(k, size) => FreshAddress(h, k + 1, b[k].addr + HEADER + size);
    case ShrinkStep(k, size) => FreshAddress(h, k, b[k].addr + HEADER + size);
  }

  lemma LastUsed(h: Heap)
    requires Inv(h)
    ensures |h.blocks| >= 2 && h.blocks[|h.blocks| - 1].used
  {}
}
