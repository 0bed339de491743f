/** memheap.c in its own form: headers linked in two rings inside one memory region,
    changed in place. Pointers are addresses; each header field is a map from addresses. */
module MemheapObject {
  import opened Lists
  import opened Ring
  import opened Tiling
  import opened MemheapSpec

  const NULL := 0

  ghost function Addrs(b: seq<Block>): (s: seq<int>)
    ensures |s| == |b| && forall i :: 0 <= i < |b| ==> s[i] == b[i].addr
  {
    seq(|b|, i requires 0 <= i < |b| => b[i].addr)
  }

  ghost predicate UsedBits(used: map<int, bool>, b: seq<Block>) {
    forall i :: 0 <= i < |b| ==> b[i].addr in used && used[b[i].addr] == b[i].used
  }

  /** A free address is that of a free block. */
  lemma FreePos(h: Heap, a: int) returns (k: nat)
    requires Inv(h) && a in h.free
    ensures IsFree(h, k) && h.blocks[k].addr == a
  {
    assert Block(a, false) in h.blocks;
    k :| 0 <= k < |h.blocks| && h.blocks[k] == Block(a, false);
  }

  lemma RemoveListed(next: map<int, int>, prev: map<int, int>, header: int, f: seq<int>, a: int) returns (k: nat)
    requires IsRing(next, prev, [header] + f) && a in f
    ensures k < |f| && f[k] == a && Removed([header] + f, k + 1) == [header] + Without(f, a)
  {
    var s := [header] + f;
    k :| 0 <= k < |f| && f[k] == a;
    assert Distinct(f) by { assert forall i :: 0 <= i < |f| ==> f[i] == s[i + 1]; }
    WithoutAt(f, k);
  }

  lemma AddrsInsert(b: seq<Block>, k: nat, j: nat, w: seq<Block>)
    requires k < j <= |b| && |w| == 2 && j == k + 1 && w[0].addr == b[k].addr
    ensures Addrs(Splice(b, k, j, w)) == Inserted(Addrs(b), k + 1, w[1].addr)
  {}

  class Memheap {
    const start: int
    const poolSize: int
    const freeHeader: int
    var available: int
    var maxUsed: int
    var next: map<int, int>
    var prev: map<int, int>
    var nextFree: map<int, int>
    var prevFree: map<int, int>
    var used: map<int, bool>     // the low bit of magic
    var data: map<int, int>      // the bytes of the pool
    ghost var h: Heap

    ghost predicate Outside(a: int) { a < start || start + poolSize <= a }

    ghost predicate Valid() reads this {
      && 0 < start && Outside(freeHeader)
      && h.start == start && h.pool == poolSize && Inv(h)
      && available == h.avail && maxUsed == h.maxUsed
      && IsRing(next, prev, Addrs(h.blocks))
      && IsRing(nextFree, prevFree, [freeHeader] + h.free)
      && UsedBits(used, h.blocks)
      && forall x :: start <= x < start + poolSize ==> x in data
    }

    // ---- the two rings ----

    /** n->next_free->prev_free = n->prev_free; n->prev_free->next_free = n->next_free */
    method UnlinkFree(a: int, ghost f: seq<int>)
      requires IsRing(nextFree, prevFree, [freeHeader] + f) && a in f
      modifies this`nextFree, this`prevFree
      ensures IsRing(nextFree, prevFree, [freeHeader] + Without(f, a))
    {
      hide IsRing, Without, Removed;
      ghost var s := [freeHeader] + f;
      ghost var k := RemoveListed(nextFree, prevFree, freeHeader, f, a);
      Neighbours(nextFree, prevFree, s, k + 1);
      Unlink(nextFree, prevFree, s, k + 1);
      prevFree := prevFree[nextFree[a] := prevFree[a]];
      nextFree := nextFree[prevFree[a] := nextFree[a]];
    }

    /** Insertion right behind the ring's header. */
    method LinkFree(n: int, ghost f: seq<int>)
      requires IsRing(nextFree, prevFree, [freeHeader] + f) && n != freeHeader && n !in f
      modifies this`nextFree, this`prevFree
      ensures IsRing(nextFree, prevFree, [freeHeader] + ([n] + f))
    {
      ghost var s := [freeHeader] + f;
      Neighbours(nextFree, prevFree, s, 0);
      LinkAfter(nextFree, prevFree, s, 0, n);
      assert Inserted(s, 1, n) == [freeHeader] + ([n] + f);
      nextFree := nextFree[n := nextFree[freeHeader]];
      prevFree := prevFree[n := freeHeader];
      prevFree := prevFree[nextFree[freeHeader] := n];
      nextFree := nextFree[freeHeader := n];
      ghost var r := old(nextFree)[freeHeader];
      assert nextFree == old(nextFree)[n := r][freeHeader := n] && prevFree == old(prevFree)[r := n][n := freeHeader];
    }

    /** Insertion of a new header behind the header `a`. */
    method LinkBlock(a: int, n: int, ghost s: seq<int>, ghost k: nat)
      requires IsRing(next, prev, s) && k < |s| && s[k] == a && n !in s
      modifies this`next, this`prev
      ensures IsRing(next, prev, Inserted(s, k + 1, n))
    {
      Neighbours(next, prev, s, k);
      LinkAfter(next, prev, s, k, n);
      prev := prev[n := a];
      next := next[n := next[a]];
      prev := prev[next[a] := n];
      next := next[a := n];
      ghost var r := old(next)[a];
      assert next == old(next)[n := r][a := n] && prev == old(prev)[r := n][n := a];
    }

    method UnlinkBlock(a: int, ghost s: seq<int>, ghost k: nat)
      requires IsRing(next, prev, s) && k < |s| && s[k] == a && |s| >= 2
      modifies this`next, this`prev
      ensures IsRing(next, prev, Removed(s, k))
    {
      Neighbours(next, prev, s, k);
      Unlink(next, prev, s, k);
      prev := prev[next[a] := prev[a]];
      next := next[prev[a] := next[a]];
    }

    /** A header written at `a`: its bytes are no longer anyone's data. */
    method WriteHeader(a: int)
      modifies this`data
      ensures data.Keys == old(data.Keys)
      ensures forall x :: x in data && !(a <= x < a + HEADER) ==> data[x] == old(data)[x]
    {
      data := map x | x in data :: if a <= x < a + HEADER then 0 else data[x];
    }

    /** MEMITEM_SIZE */
    method ItemSize(a: int, ghost k: nat) returns (size: int)
      requires Valid() && k < |h.blocks| - 1 && h.blocks[k].addr == a
      ensures size == SizeOf(h, k)
    {
      Neighbours(next, prev, Addrs(h.blocks), k);
      size := next[a] - a - HEADER;
    }

    /** The header behind a block, and RT_MEMHEAP_IS_USED of it. */
    method NextItem(a: int, ghost k: nat) returns (n: int, free: bool)
      requires Valid() && k < |h.blocks| - 1 && h.blocks[k].addr == a
      ensures n == h.blocks[k + 1].addr && (free <==> IsFree(h, k + 1))
    {
      LastUsed(h);
      Neighbours(next, prev, Addrs(h.blocks), k);
      n := next[a];
      free := !used[n];
    }

    // ---- rt_memheap_init ----

    constructor (startAddr: int, size: int, header: int, bytes: map<int, int>)
      requires 0 < startAddr && size >= 2 * HEADER && (header < startAddr || startAddr + size <= header)
      requires forall x :: startAddr <= x < startAddr + size ==> x in bytes
      ensures Valid() && start == startAddr && poolSize == size / 4 * 4
      ensures h == InitHeap(startAddr, size / 4 * 4)
    {
      var pool := size / 4 * 4;
      start, poolSize, freeHeader := startAddr, pool, header;
      available := pool - 2 * HEADER;
      maxUsed := pool - (pool - 2 * HEADER);
      var tail := startAddr + (pool - 2 * HEADER) + HEADER;
      next := map[startAddr := tail, tail := startAddr];
      prev := map[startAddr := tail, tail := startAddr];
      nextFree := map[header := startAddr, startAddr := header];
      prevFree := map[header := startAddr, startAddr := header];
      used := map[startAddr := false, tail := true];
      data := bytes;
      h := InitHeap(startAddr, pool);
      new;
      InitInv(start, poolSize);
      assert Addrs(h.blocks) == [start, tail] && [freeHeader] + h.free == [freeHeader, start];
      assert Link(next, prev, [start, tail], 0) && Link(next, prev, [start, tail], 1);
      assert Link(nextFree, prevFree, [freeHeader, start], 0) && Link(nextFree, prevFree, [freeHeader, start], 1);
    }

    // ---- rt_memheap_alloc ----

    /** The search of the free ring: its first block that is large enough. */
    method FindFree(size: int) returns (a: int, freeSize: int, ghost k: nat)
      requires Valid() && size > 0
      ensures freeSize < size ==> forall i :: IsFree(h, i) ==> SizeOf(h, i) < size
      ensures freeSize >= size ==> FirstFit(h, k, size) && a == h.blocks[k].addr && freeSize == SizeOf(h, k)
    {
      ghost var s, j := [freeHeader] + h.free, 0;
      freeSize, k := 0, 0;
      Neighbours(nextFree, prevFree, s, 0);
      a := nextFree[freeHeader];
      while a != freeHeader && freeSize < size
        invariant 0 <= j <= |h.free| && TooSmall(h, j, size)
        invariant a == s[Succ(j, |s|)] && (a == freeHeader <==> j == |h.free|)
        invariant freeSize >= size ==> j < |h.free| && IsFree(h, k) && h.blocks[k].addr == a && SizeOf(h, k) == freeSize
        decreases |h.free| - j, if freeSize < size then 1 else 0
      {
        assert a == h.free[j];
        k := FreePos(h, a);
        freeSize := ItemSize(a, k);
        if freeSize < size {
          OnlyAt(h, k);
          Neighbours(nextFree, prevFree, s, j + 1);
          a := nextFree[a];
          j := j + 1;
        }
      }
      if freeSize < size { AllTooSmall(h, size); }
    }

    method Alloc(size: int) returns (p: int, ghost k: nat)
      requires Valid() && 0 <= size
      modifies this
      ensures Valid()
      ensures p == NULL ==> h == old(h) && data == old(data)
      ensures p == NULL ==> Request(size) >= h.avail || forall i :: IsFree(h, i) ==> SizeOf(h, i) < Request(size)
      ensures p != NULL ==> FirstFit(old(h), k, Request(size)) && Request(size) < old(h).avail
      ensures p != NULL ==> h == AllocAt(old(h), k, Request(size)) && p == old(h).blocks[k].addr + HEADER
      ensures Kept(old(h), old(data), h, data)
    {
      hide Inv, Kept, IsRing, AllocAt;
      k := 0;
      var want := (size + 3) / 4 * 4;
      if want < MIN_ALLOC { want := MIN_ALLOC; }
      if want >= available {
        KeptBecause(h, data, h, data);
        return NULL, 0;
      }
      var a, freeSize, i := FindFree(want);
      if freeSize < want {
        KeptBecause(h, data, h, data);
        return NULL, 0;
      }
      k := i;
      AddrInPool(h, k);
      if freeSize >= want + HEADER + MIN_ALLOC {
        SplitBlock(a, want, k);
      } else {
        WholeBlock(a, freeSize, want, k);
      }
      p := a + HEADER;
    }

    /** The branch of rt_memheap_alloc that cuts a free block behind the bytes taken. */
    method SplitBlock(a: int, size: int, ghost k: nat)
      requires Valid() && size > 0 && IsFree(h, k) && h.blocks[k].addr == a && SizeOf(h, k) >= size + HEADER + MIN_ALLOC
      modifies this
      ensures Valid() && h == AllocAt(old(h), k, size) && Kept(old(h), old(data), h, data)
    {
      hide Inv, Kept, IsRing;
      ghost var b := h.blocks;
      ghost var h' := AllocAt(h, k, size);
      AllocInv(h, k, size);
      FreeIsListed(h, k);
      var n := a + size + HEADER;
      FreshAddress(h, k, n);
      AddrInPool(h, k);
      AddrInPool(h, k + 1);
      AddrsInsert(b, k, k + 1, [Block(a, true), Block(n, false)]);
      NotAnAddr(b, n);
      WriteHeader(n);
      LinkBlock(a, n, Addrs(b), k);
      UnlinkFree(a, h.free);
      WithoutMember(h.free, a) by { FreeDistinct(h); }
      LinkFree(n, Without(h.free, a));
      available := available - size - HEADER;
      if poolSize - available > maxUsed { maxUsed := poolSize - available; }
      used := used[n := false][a := true];
      UsedAfterAlloc(h, k, size, old(used), used);
      assert h'.blocks[k + 1] == Block(n, false);
      h := h';
      KeptBecause(old(h), old(data), h, data);
    }

    /** The branch that hands out a free block as it is. */
    method WholeBlock(a: int, freeSize: int, size: int, ghost k: nat)
      requires Valid() && size > 0 && IsFree(h, k) && h.blocks[k].addr == a
      requires size <= freeSize == SizeOf(h, k) < size + HEADER + MIN_ALLOC
      modifies this
      ensures Valid() && h == AllocAt(old(h), k, size) && Kept(old(h), old(data), h, data)
    {
      hide Inv, Kept, IsRing;
      ghost var h' := AllocAt(h, k, size);
      AllocInv(h, k, size);
      FreeIsListed(h, k);
      available := available - freeSize;
      if poolSize - available > maxUsed { maxUsed := poolSize - available; }
      UnlinkFree(a, h.free);
      assert Addrs(h'.blocks) == Addrs(h.blocks);
      used := used[a := true];
      UsedAfterAlloc(h, k, size, old(used), used);
      h := h';
      KeptBecause(old(h), old(data), h, data);
    }

    // ---- rt_memheap_free ----

    /** Merges a header into the one before it when that one is free. */
    method JoinPrev(a: int, ghost s: seq<int>, ghost k: nat) returns (l: int, joined: bool)
      requires IsRing(next, prev, s) && k < |s| && |s| >= 2 && s[k] == a && s[Pred(k, |s|)] in used
      modifies this`next, this`prev
      ensures joined == !used[s[Pred(k, |s|)]] && l == if joined then s[Pred(k, |s|)] else a
      ensures IsRing(next, prev, if joined then Removed(s, k) else s)
    {
      Neighbours(next, prev, s, k);
      l, joined := a, !used[prev[a]];
      if joined {
        l := prev[a];
        UnlinkBlock(a, s, k);
      }
    }

    /** Absorbs the header after `a`, and takes it off the free ring, when it is free. */
    method JoinNext(a: int, ghost s: seq<int>, ghost k: nat, ghost f: seq<int>) returns (joined: bool)
      requires IsRing(next, prev, s) && k + 1 < |s| && s[k] == a && s[k + 1] in used
      requires IsRing(nextFree, prevFree, [freeHeader] + f) && (!used[s[k + 1]] ==> s[k + 1] in f)
      modifies this`next, this`prev, this`nextFree, this`prevFree
      ensures joined == !used[s[k + 1]]
      ensures IsRing(next, prev, if joined then Removed(s, k + 1) else s)
      ensures IsRing(nextFree, prevFree, [freeHeader] + if joined then Without(f, s[k + 1]) else f)
    {
      Neighbours(next, prev, s, k);
      joined := !used[next[a]];
      if joined {
        var n := next[a];
        UnlinkBlock(n, s, k + 1);
        UnlinkFree(n, f);
      }
    }

    /** The relinking part of rt_memheap_free: merges to the left and right, or a new
        entry in the free ring. Returns the header bytes that became data. */
    method Relink(a: int, ghost k: nat, ghost used0: map<int, bool>) returns (gain: int)
      requires 0 < start && Outside(freeHeader) && h.start == start && h.pool == poolSize && Inv(h)
      requires IsUsed(h, k) && a == h.blocks[k].addr && UsedBits(used0, h.blocks) && used == used0[a := false]
      requires IsRing(next, prev, Addrs(h.blocks)) && IsRing(nextFree, prevFree, [freeHeader] + h.free)
      modifies this`next, this`prev, this`nextFree, this`prevFree
      ensures IsRing(next, prev, Addrs(FreeAt(h, k).blocks))
              && IsRing(nextFree, prevFree, [freeHeader] + FreeAt(h, k).free)
      ensures FreeAt(h, k).avail == h.avail + SizeOf(h, k) + gain
    {
      hide Inv, IsRing, FreeAt, UsedBits, Removed, Without, Distinct, Addrs;
      ghost var s, b := Addrs(h.blocks), h.blocks;
      FreeFields(h, k);
      FreeNeighbours(h, k, used0);
      AddrsAfterFree(h, k);
      gain := 0;
      var l, left := JoinPrev(a, s, k);
      if left { gain := gain + HEADER; }
      ghost var s1, q := if left then Removed(s, k) else s, if left then k - 1 else k;
      var right := JoinNext(l, s1, q, h.free);
      if right { gain := gain + HEADER; }
      ghost var f := if right then Without(h.free, b[k + 1].addr) else h.free;
      if !left {
        NotListed(h, k);
        LinkFree(l, f);
      }
    }

    method Free(p: int, ghost k: nat)
      requires Valid() && (p != NULL ==> IsUsed(h, k) && p == h.blocks[k].addr + HEADER)
      modifies this
      ensures Valid() && data == old(data)
      ensures h == if p == NULL then old(h) else FreeAt(old(h), k)
    {
      hide Inv, IsRing, FreeAt, UsedBits, Distinct, Addrs;
      if p == NULL { return; }
      var a := p - HEADER;
      UsedAfterFree(h, k, used);
      var size := ItemSize(a, k);
      used := used[a := false];
      available := available + size;
      var gain := Relink(a, k, old(used));
      available := available + gain;
      FreeInv(h, k);
      FreeFields(h, k);
      h := FreeAt(h, k);
    }

    // ---- rt_memheap_realloc ----

    /** Moves the free header behind a used block, so that the block has `size` bytes. */
    method MoveFreeHeader(a: int, size: int, ghost k: nat)
      requires 0 < start && Outside(freeHeader) && h.start == start && h.pool == poolSize && Inv(h)
      requires IsUsed(h, k) && IsFree(h, k + 1) && a == h.blocks[k].addr
      requires SizeOf(h, k) < size < SizeOf(h, k) + SizeOf(h, k + 1)
      requires IsRing(next, prev, Addrs(h.blocks)) && IsRing(nextFree, prevFree, [freeHeader] + h.free)
      modifies this`next, this`prev, this`nextFree, this`prevFree, this`data
      ensures IsRing(next, prev, Addrs(GrowAt(h, k, size).blocks))
              && IsRing(nextFree, prevFree, [freeHeader] + GrowAt(h, k, size).free)
      ensures data.Keys == old(data.Keys)
      ensures forall x :: x in data && !(a + HEADER + size <= x < a + 2 * HEADER + size) ==> data[x] == old(data)[x]
    {
      hide Inv, IsRing, Addrs, Distinct, Removed, Inserted;
      ghost var s, old1 := Addrs(h.blocks), h.blocks[k + 1].addr;
      BoundaryFacts(h, k, size);
      Neighbours(next, prev, s, k);
      var n0 := next[a];
      UnlinkFree(n0, h.free);
      UnlinkBlock(n0, s, k + 1);
      var n := a + HEADER + size;
      WriteHeader(n);
      LinkBlock(a, n, Removed(s, k + 1), k);
      LinkFree(n, Without(h.free, old1));
    }

    method Grow(a: int, oldSize: int, size: int, ghost k: nat)
      requires Valid() && CanGrow(h, k, size) && a == h.blocks[k].addr && oldSize == SizeOf(h, k)
      modifies this
      ensures Valid() && h == GrowAt(old(h), k, size) && Kept(old(h), old(data), h, data)
    {
      hide Inv, IsRing, Addrs, Distinct, Kept, Removed, UsedBits;
      GrowInv(h, k, size);
      SizeNat(h, k);
      BoundaryUsed(h, k, k + 2, size, used, GrowAt(h, k, size).blocks);
      available := available - (size - oldSize);
      if poolSize - available > maxUsed { maxUsed := poolSize - available; }
      MoveFreeHeader(a, size, k);
      used := used[a + HEADER + size := false];
      h := GrowAt(h, k, size);
      HeaderOf(h, k + 1);
      KeptBecause(old(h), old(data), h, data);
    }

    /** Puts a free header behind the first `size` bytes of a used block, merged with a free
        block behind. */
    method CutTail(a: int, size: int, ghost k: nat)
      requires 0 < start && Outside(freeHeader) && h.start == start && h.pool == poolSize && Inv(h)
      requires CanShrink(h, k, size) && a == h.blocks[k].addr && UsedBits(used, h.blocks)
      requires IsRing(next, prev, Addrs(h.blocks)) && IsRing(nextFree, prevFree, [freeHeader] + h.free)
      modifies this`next, this`prev, this`nextFree, this`prevFree, this`data, this`available
      ensures IsRing(next, prev, Addrs(ShrinkAt(h, k, size).blocks))
              && IsRing(nextFree, prevFree, [freeHeader] + ShrinkAt(h, k, size).free)
      ensures available - old(available) == ShrinkAt(h, k, size).avail - h.avail
      ensures data.Keys == old(data.Keys)
      ensures forall x :: x in data && !(a + HEADER + size <= x < a + 2 * HEADER + size) ==> data[x] == old(data)[x]
    {
      hide Inv, IsRing, Addrs, Distinct, Removed, Inserted, UsedBits, Splice, Without;
      ghost var s, h' := Addrs(h.blocks), ShrinkAt(h, k, size);
      ghost var merge := !h.blocks[k + 1].used;
      ShrinkFresh(h, k, size, used);
      ShrinkAddrs(h.blocks, k, a + HEADER + size, merge);
      var n := a + HEADER + size;
      WriteHeader(n);
      LinkBlock(a, n, s, k);
      ghost var s1 := Inserted(s, k + 1, n);
      Neighbours(next, prev, s1, k + 1);
      var free := next[n];
      ghost var f := h.free;
      if !used[free] {
        Neighbours(next, prev, s1, k + 2);
        available := available - (next[free] - free - HEADER);
        UnlinkBlock(free, s1, k + 2);
        UnlinkFree(free, f);
        f := Without(f, free);
      }
      LinkFree(n, f);
      Neighbours(next, prev, Addrs(h'.blocks), k + 1);
      available := available + (next[n] - n - HEADER);
    }

    method Shrink(a: int, size: int, ghost k: nat)
      requires Valid() && CanShrink(h, k, size) && a == h.blocks[k].addr
      modifies this
      ensures Valid() && h == ShrinkAt(old(h), k, size) && Kept(old(h), old(data), h, data)
    {
      hide Inv, IsRing, Addrs, Distinct, Kept, UsedBits, Without;
      ghost var merge := !h.blocks[k + 1].used;
      ShrinkInv(h, k, size);
      ShrinkFresh(h, k, size, used);
      if merge { SizeNat(h, k + 1); }
      BoundaryUsed(h, k, if merge then k + 2 else k + 1, size, used, ShrinkAt(h, k, size).blocks);
      CutTail(a, size, k);
      used := used[a + HEADER + size := false];
      h := ShrinkAt(h, k, size);
      HeaderOf(h, k + 1);
      KeptBecause(old(h), old(data), h, data);
    }

    /** rt_memcpy between two disjoint ranges. */
    method Memcpy(dst: int, src: int, n: nat)
      requires forall x :: dst <= x < dst + n || src <= x < src + n ==> x in data
      requires src + n <= dst || dst + n <= src
      modifies this`data
      ensures data.Keys == old(data.Keys)
      ensures forall x :: x in data && !(dst <= x < dst + n) ==> data[x] == old(data)[x]
      ensures Copied(old(data), src, data, dst, n)
    {
      for i := 0 to n
        invariant data.Keys == old(data.Keys)
        invariant forall x :: x in data && !(dst <= x < dst + i) ==> data[x] == old(data)[x]
        invariant Copied(old(data), src, data, dst, i)
      {
        assert src + i in old(data) && dst + i in old(data) && src + i in data.Keys;
        ghost var data1 := data;
        data := data[dst + i := data[src + i]];
        forall j | 0 <= j < i + 1
          ensures SameByte(old(data), src, data, dst, j)
        {
          if j < i { assert SameByte(old(data), src, data1, dst, j); }
        }
      }
    }

    /** The last resort of rt_memheap_realloc: a new block, a copy, and a release. */
    method Relocate(p: int, oldSize: int, size: int, ghost k: nat) returns (q: int, ghost i: int)
      requires Valid() && IsUsed(h, k) && p == h.blocks[k].addr + HEADER && oldSize == SizeOf(h, k) < size
      requires size == Request(size)
      modifies this
      ensures Valid()
      ensures q == NULL ==> h == old(h) && data == old(data)
      ensures q == NULL ==> size >= h.avail || forall i :: IsFree(h, i) ==> SizeOf(h, i) < size
      ensures q != NULL ==> IsUsed(h, i) && q == h.blocks[i].addr + HEADER && SizeOf(h, i) >= size && q != p
      ensures q != NULL ==> Relocated(old(h), k, size, h) && Copied(old(data), p, data, q, oldSize)
      ensures Kept(old(h), old(data), h, data)
    {
      hide Inv, Kept, IsRing, AllocAt, FreeAt;
      ghost var h0, data0 := h, data;
      SizeNat(h, k);
      var p1, j := Alloc(size);
      q, i := p1, 0;
      if p1 != NULL {
        ghost var h1, data1 := h, data;
        ghost var m := AllocKeeps(h0, j, size, k);
        SizeNat(h1, m);
        BlocksApart(h1, j, m);
        PayloadLive(h0, k);
        PayloadLive(h1, m);
        PayloadLive(h1, j);
        hide Live;
        Memcpy(p1, p, oldSize);
        i := FreeKeeps(h1, m, j);
        Free(p, m);
        assert Relocated(h0, k, size, h);
        CopyFacts(h0, data0, h1, data1, data, k, m, p1, oldSize);
        KeptAcross(h0, j, size, m, data0, data1, oldSize, data) by {
          assert h0.blocks[j].addr + HEADER == p1 && IsFree(h0, j) && h1 == AllocAt(h0, j, size) && Inv(h0) && Inv(h1);
        }
      }
    }

    method Realloc(p: int, newsize: int, ghost k: nat) returns (q: int, ghost i: int)
      requires Valid() && 0 <= newsize && (p != NULL ==> IsUsed(h, k) && p == h.blocks[k].addr + HEADER)
      modifies this
      ensures Valid() && Kept(old(h), old(data), h, data)
      ensures newsize == 0 ==> q == NULL && h == if p == NULL then old(h) else FreeAt(old(h), k)
      ensures newsize > 0 && q == NULL ==>
                h == old(h) && data == old(data) && (p != NULL ==> SizeOf(h, k) < Request(newsize))
      ensures newsize > 0 && q == NULL ==>
                Request(newsize) >= h.avail || forall i :: IsFree(h, i) ==> SizeOf(h, i) < Request(newsize)
      ensures newsize > 0 && q != NULL ==> IsUsed(h, i) && q == h.blocks[i].addr + HEADER && SizeOf(h, i) >= newsize
      ensures newsize > 0 && q != NULL && p == NULL ==>
                exists j: nat :: FirstFit(old(h), j, Request(newsize)) && h == AllocAt(old(h), j, Request(newsize))
      ensures newsize > 0 && q != NULL && p != NULL ==> Resized(old(h), k, Request(newsize), h, q == p)
      ensures newsize > 0 && q != NULL && p != NULL ==> Copied(old(data), p, data, q, Min(SizeOf(old(h), k), newsize))
    {
      hide Inv, Kept, IsRing, AllocAt, FreeAt, GrowAt, ShrinkAt, UsedBits, TooSmall, Addrs, Relocated, Copied;
      ghost var h0, data0 := h, data;
      i := k;
      if newsize == 0 {
        Free(p, k);
        KeptSame(h0, h, data);
        return NULL, i;
      }
      var size := (newsize + 3) / 4 * 4;
      if size < MIN_ALLOC { size := MIN_ALLOC; }
      if p == NULL {
        assert Request(size) == size == Request(newsize);
        q, i := Alloc(size);
        if q != NULL { AllocResult(h0, i, size); }
        return;
      }
      var a := p - HEADER;
      var oldSize := ItemSize(a, k);
      if size > oldSize {
        q, i := Extend(p, oldSize, size, k);
        if q != NULL { CopiedPart(data0, p, data, q, oldSize, Min(oldSize, newsize)); }
      } else {
        q := p;
        if size + HEADER + MIN_ALLOC < oldSize {
          Shrink(a, size, k);
          BoundaryKept(h0, k, size, h);
        } else {
          KeptSame(h0, h, data);
        }
        KeptCopied(h0, data0, h, data, k, newsize);
      }
    }

    /** The growing half of rt_memheap_realloc: in place if the block behind is free and large
        enough, else elsewhere. */
    method Extend(p: int, oldSize: int, size: int, ghost k: nat) returns (q: int, ghost i: int)
      requires Valid() && p != NULL && IsUsed(h, k) && p == h.blocks[k].addr + HEADER
               && oldSize == SizeOf(h, k) < size == Request(size)
      modifies this
      ensures Valid() && Kept(old(h), old(data), h, data)
      ensures q == NULL ==> h == old(h) && data == old(data)
      ensures q == NULL ==> size >= h.avail || forall i :: IsFree(h, i) ==> SizeOf(h, i) < size
      ensures q != NULL ==> IsUsed(h, i) && q == h.blocks[i].addr + HEADER && SizeOf(h, i) >= size
      ensures q != NULL ==> Resized(old(h), k, size, h, q == p) && Copied(old(data), p, data, q, oldSize)
    {
      hide Inv, Kept, IsRing, AllocAt, FreeAt, GrowAt, UsedBits, TooSmall, Addrs, Relocated, Copied;
      ghost var h0, data0 := h, data;
      var a := p - HEADER;
      var n, free := NextItem(a, k);
      if free {
        var nextSize := ItemSize(n, k + 1);
        if nextSize + oldSize > size + MIN_ALLOC {
          Grow(a, oldSize, size, k);
          BoundaryKept(h0, k, size, h);
          KeptCopied(h0, data0, h, data, k, oldSize);
          return p, k;
        }
      }
      q, i := Relocate(p, oldSize, size, k);
    }
  }

  ghost predicate SameByte(data: map<int, int>, p: int, data': map<int, int>, q: int, i: int) {
    p + i in data && q + i in data' && data'[q + i] == data[p + i]
  }

  /** The bytes at `p` are found again at `q`. */
  ghost predicate Copied(data: map<int, int>, p: int, data': map<int, int>, q: int, n: int) {
    forall i {:trigger SameByte(data, p, data', q, i)} :: 0 <= i < n ==> SameByte(data, p, data', q, i)
  }

  /** A first-fit allocation followed by the release of block `k`. */
  ghost predicate Relocated(h: Heap, k: int, size: int, h': Heap) {
    exists j: nat, m: nat {:trigger FreeAt(AllocAt(h, j, size), m)} ::
      FirstFit(h, j, size) && var h1 := AllocAt(h, j, size);
      IsUsed(h1, m) && IsUsed(h, k) && h1.blocks[m].addr == h.blocks[k].addr && h' == FreeAt(h1, m)
  }

  function Min(x: int, y: int): int { if x < y then x else y }

  /** Which of its ways rt_memheap_realloc took for block `k` and the rounded size. */
  ghost predicate Resized(h: Heap, k: int, size: int, h': Heap, inPlace: bool)
    requires IsUsed(h, k)
  {
    if CanGrow(h, k, size) then inPlace && h' == GrowAt(h, k, size)
    else if size > SizeOf(h, k) then !inPlace && Relocated(h, k, size, h')
    else inPlace && h' == if CanShrink(h, k, size) then ShrinkAt(h, k, size) else h
  }

  lemma BlocksApart(h: Heap, j: nat, m: nat)
    requires Inv(h) && j < |h.blocks| - 1 && m < |h.blocks| - 1 && j != m
    ensures h.blocks[j].addr + HEADER + SizeOf(h, j) <= h.blocks[m].addr
            || h.blocks[m].addr + HEADER + SizeOf(h, m) <= h.blocks[j].addr
  {
    var b, lo, hi := h.blocks, h.start, h.start + h.pool - HEADER;
    if j + 1 < m { Ordered(b, HEADER, lo, hi, j + 1, m); }
    if m + 1 < j { Ordered(b, HEADER, lo, hi, m + 1, j); }
  }

  lemma PayloadLive(h: Heap, k: nat)
    requires Inv(h) && IsUsed(h, k)
    ensures forall x :: h.blocks[k].addr + HEADER <= x < h.blocks[k].addr + HEADER + SizeOf(h, k) ==>
              Live(h.blocks, HEADER, x)
    ensures h.start <= h.blocks[k].addr && h.blocks[k].addr + HEADER + SizeOf(h, k) < h.start + h.pool
  {
    AddrInPool(h, k);
    AddrInPool(h, k + 1);
  }

  /** The copy moved the bytes that the old block held at the start. */
  lemma CopyFacts(h0: Heap, data0: map<int, int>, h1: Heap, data1: map<int, int>, data: map<int, int>, k: nat,
      m: nat, q: int, n: int)
    requires Inv(h0) && Inv(h1) && IsUsed(h0, k) && IsUsed(h1, m) && h1.blocks[m] == h0.blocks[k]
             && SizeOf(h1, m) == SizeOf(h0, k) == n
    requires Kept(h0, data0, h1, data1) && Copied(data1, h0.blocks[k].addr + HEADER, data, q, n)
    ensures Copied(data0, h0.blocks[k].addr + HEADER, data, q, n)
  {
    hide Inv, Live;
    PayloadLive(h0, k);
    PayloadLive(h1, m);
    var p := h0.blocks[k].addr + HEADER;
    forall i | 0 <= i < n
      ensures SameByte(data0, p, data, q, i)
    {
      assert SameByte(data1, p, data, q, i);
      assert Live(h0.blocks, HEADER, p + i) && Live(h1.blocks, HEADER, p + i);
    }
  }

  /** Data of a free block is not live. */
  lemma FreeNotLive(h: Heap, j: nat, x: int)
    requires Inv(h) && IsFree(h, j) && h.blocks[j].addr <= x < h.blocks[j + 1].addr
    ensures !Live(h.blocks, HEADER, x)
  {
    var b, lo, hi := h.blocks, h.start, h.start + h.pool - HEADER;
    forall i | 0 <= i < |b| - 1 && b[i].used
      ensures !(b[i].addr + HEADER <= x < b[i + 1].addr)
    {
      if i + 1 < j { Ordered(b, HEADER, lo, hi, i + 1, j); }
      if j + 1 < i { Ordered(b, HEADER, lo, hi, j + 1, i); }
    }
  }

  /** A release makes no byte live. */
  lemma FreeLive(h: Heap, m: nat, x: int)
    requires Inv(h) && IsUsed(h, m) && Live(FreeAt(h, m).blocks, HEADER, x)
    ensures Live(h.blocks, HEADER, x)
  {
    var b, b' := h.blocks, FreeAt(h, m).blocks;
    var i :| 0 <= i < |b'| - 1 && b'[i].used && b'[i].addr + HEADER <= x < b'[i + 1].addr;
    SpliceAfterFree(h, m, i);
  }

  /** A used block after a release was there before, with the same extent. */
  lemma SpliceAfterFree(h: Heap, m: nat, i: nat)
    requires Inv(h) && IsUsed(h, m) && IsUsed(FreeAt(h, m), i)
    ensures var b, b' := h.blocks, FreeAt(h, m).blocks;
            var p := if i < m then i else i + |b| - |b'|;
            p < |b| - 1 && b[p] == b'[i] && b[p + 1].addr == b'[i + 1].addr
  {
    hide Inv;
    LastUsed(h);
  }

  lemma KeptAcross(h0: Heap, j: nat, size: int, m: nat, data0: map<int, int>, data1: map<int, int>, n: int,
      data: map<int, int>)
    requires Inv(h0) && IsFree(h0, j) && 0 <= n <= size <= SizeOf(h0, j)
    requires var h1 := AllocAt(h0, j, size); Inv(h1) && IsUsed(h1, m) && Kept(h0, data0, h1, data1)
    requires data.Keys == data1.Keys
    requires var q := h0.blocks[j].addr + HEADER; forall x :: x in data && !(q <= x < q + n) ==> data[x] == data1[x]
    ensures Kept(h0, data0, FreeAt(AllocAt(h0, j, size), m), data)
  {
    hide Inv, AllocAt, FreeAt;
    var h1 := AllocAt(h0, j, size);
    var h2, q := FreeAt(h1, m), h0.blocks[j].addr + HEADER;
    forall x | Live(h0.blocks, HEADER, x) && Live(h2.blocks, HEADER, x)
      ensures x in data0 && x in data && data[x] == data0[x]
    {
      FreeLive(h1, m, x);
      if q <= x < q + n { FreeNotLive(h0, j, x); }
    }
  }

  lemma SizeNat(h: Heap, k: nat)
    requires Inv(h) && k < |h.blocks| - 1
    ensures SizeOf(h, k) >= 0
  {}

  lemma HeaderOf(h: Heap, k: nat)
    requires k < |h.blocks|
    ensures forall x :: h.blocks[k].addr <= x < h.blocks[k].addr + HEADER ==> InHeader(h, x)
  {}

  /** What the boundary move in rt_memheap_realloc needs to know. */
  lemma BoundaryFacts(h: Heap, k: nat, size: int)
    requires Inv(h) && IsUsed(h, k) && IsFree(h, k + 1) && SizeOf(h, k) < size < SizeOf(h, k) + SizeOf(h, k + 1)
    ensures var s, n, a1 := Addrs(h.blocks), h.blocks[k].addr + HEADER + size, h.blocks[k + 1].addr;
            && a1 in h.free && n !in Removed(s, k + 1) && n !in Without(h.free, a1) && h.start <= n < h.start + h.pool
            && k < |Removed(s, k + 1)| && Removed(s, k + 1)[k] == s[k] && |s| >= 2 && Succ(k, |s|) == k + 1
            && Addrs(GrowAt(h, k, size).blocks) == Inserted(Removed(s, k + 1), k + 1, n)
  {
    var b, s, n := h.blocks, Addrs(h.blocks), h.blocks[k].addr + HEADER + size;
    FreeIsListed(h, k + 1);
    FreshAddress(h, k + 1, n);
    NotAnAddr(b, n);
    WithoutMember(h.free, b[k + 1].addr);
    AddrInPool(h, k);
    AddrInPool(h, k + 2);
  }

  lemma BoundaryUsed(h: Heap, k: nat, j: nat, size: int, used: map<int, bool>, b': seq<Block>)
    requires Inv(h) && IsUsed(h, k) && UsedBits(used, h.blocks) && k < j < |h.blocks| && j <= k + 2
    requires size >= 0 && h.blocks[k].addr + HEADER + size < h.blocks[j].addr
    requires b' == Splice(h.blocks, k, j, [h.blocks[k], Block(h.blocks[k].addr + HEADER + size, false)])
    ensures UsedBits(used[h.blocks[k].addr + HEADER + size := false], b')
  {
    var b, lo, hi := h.blocks, h.start, h.start + h.pool - HEADER;
    var n := b[k].addr + HEADER + size;
    forall i | 0 <= i < |b'|
      ensures b'[i].addr in used[n := false] && used[n := false][b'[i].addr] == b'[i].used
    {
      if i <= k {
        assert b'[i] == b[i];
        if i < k { Ordered(b, HEADER, lo, hi, i, k); }
      } else if i > k + 1 {
        var p := i - 2 + (j - k);
        assert b'[i] == b[p];
        if j < p { Ordered(b, HEADER, lo, hi, j, p); }
      }
    }
  }

  /** The new header of a cut block is nobody's, and its successor is known. */
  lemma ShrinkFresh(h: Heap, k: nat, size: int, used: map<int, bool>)
    requires Inv(h) && CanShrink(h, k, size) && UsedBits(used, h.blocks)
    ensures var b, n := h.blocks, h.blocks[k].addr + HEADER + size;
            && n !in Addrs(b) && n !in h.free && n !in Without(h.free, b[k + 1].addr) && h.start <= n < h.start + h.pool
            && b[k + 1].addr in used && used[b[k + 1].addr] == b[k + 1].used
               && (!b[k + 1].used ==> b[k + 1].addr in h.free && k + 2 < |b|)
  {
    hide Without, Addrs;
    var b, n := h.blocks, h.blocks[k].addr + HEADER + size;
    FreshAddress(h, k, n);
    NotAnAddr(b, n);
    AddrInPool(h, k);
    AddrInPool(h, k + 1);
    FreeDistinct(h);
    WithoutMember(h.free, b[k + 1].addr);
    if !b[k + 1].used { FreeIsListed(h, k + 1); }
  }

  /** The addresses after the cut, as the stores make them. */
  lemma ShrinkAddrs(b: seq<Block>, k: nat, n: int, merge: bool)
    requires k + 1 < |b| && (merge ==> k + 2 < |b|)
    ensures var s1 := Inserted(Addrs(b), k + 1, n);
            var b' := Splice(b, k, if merge then k + 2 else k + 1, [b[k], Block(n, false)]);
            && |s1| == |b| + 1 && s1[k + 1] == n && s1[k + 2] == b[k + 1].addr && (merge ==> s1[k + 3] == b[k + 2].addr)
            && Addrs(b') == (if merge then Removed(s1, k + 2) else s1)
            && k + 2 < |b'| && b'[k + 1] == Block(n, false)
               && b'[k + 2].addr == (if merge then b[k + 2].addr else b[k + 1].addr)
  {}

  /** What the released header sees through its links. */
  lemma FreeNeighbours(h: Heap, k: nat, used: map<int, bool>)
    requires Inv(h) && IsUsed(h, k) && UsedBits(used, h.blocks)
    ensures var b, s, used' := h.blocks, Addrs(h.blocks), used[h.blocks[k].addr := false];
            var left, right := k > 0 && !b[k - 1].used, !b[k + 1].used;
            var s1, q := if left then Removed(s, k) else s, if left then k - 1 else k;
            && s[Pred(k, |s|)] in used' && used'[s[Pred(k, |s|)]] == !left
            && s1[q] == (if left then b[k - 1].addr else b[k].addr)
            && q + 1 < |s1| && s1[q + 1] == b[k + 1].addr && s1[q + 1] in used' && used'[s1[q + 1]] == !right
            && (right ==> b[k + 1].addr in h.free)
  {
    OtherAddrs(h, k);
    if !h.blocks[k + 1].used { FreeIsListed(h, k + 1); }
  }

  /** The addresses left by a release: the block itself and then its free successor may go. */
  lemma AddrsAfterFree(h: Heap, k: nat)
    requires Inv(h) && IsUsed(h, k)
    ensures var b, s := h.blocks, Addrs(h.blocks);
            var left, right := k > 0 && !b[k - 1].used, !b[k + 1].used;
            var s1, q := if left then Removed(s, k) else s, if left then k - 1 else k;
            q + 1 < |s1| && Addrs(FreeAt(h, k).blocks) == if right then Removed(s1, q + 1) else s1
  {
    var b, s := h.blocks, Addrs(h.blocks);
    hide Inv, Splice, Removed, Addrs;
    LastUsed(h);
    var left, right := k > 0 && !b[k - 1].used, !b[k + 1].used;
    var i, j := if left then k - 1 else k, if right then k + 2 else k + 1;
    AddrsJoin(b, i, j, Block(b[i].addr, false));
    RemovedTwice(s, k, left, right);
  }

  lemma AddrsJoin(b: seq<Block>, i: nat, j: nat, w: Block)
    requires i < j <= |b| && w.addr == b[i].addr
    ensures Addrs(Splice(b, i, j, [w])) == Addrs(b)[..i + 1] + Addrs(b)[j..]
  {}

  lemma RemovedTwice(s: seq<int>, k: nat, left: bool, right: bool)
    requires k + 1 < |s| && (left ==> k > 0) && (right ==> k + 2 < |s|)
    ensures var s1, q := if left then Removed(s, k) else s, if left then k - 1 else k;
            var i, j := if left then k - 1 else k, if right then k + 2 else k + 1;
            q + 1 < |s1| && s[..i + 1] + s[j..] == if right then Removed(s1, q + 1) else s1
  {}

  lemma UsedAfterFree(h: Heap, k: nat, used: map<int, bool>)
    requires Inv(h) && IsUsed(h, k) && UsedBits(used, h.blocks)
    ensures UsedBits(used[h.blocks[k].addr := false], FreeAt(h, k).blocks)
  {
    var b, b' := h.blocks, FreeAt(h, k).blocks;
    var i0 := if k > 0 && !b[k - 1].used then k - 1 else k;
    var d := |b| - |b'|;
    forall i | 0 <= i < |b'|
      ensures b'[i].addr in used && used[h.blocks[k].addr := false][b'[i].addr] == b'[i].used
    {
      if i != i0 {
        var p := if i < i0 then i else i + d;
        assert b'[i] == b[p];
        if b[p].addr == b[k].addr { SameAddr(b, HEADER, h.start, h.start + h.pool - HEADER, p, k); }
      }
    }
  }

  lemma OtherAddrs(h: Heap, k: nat)
    requires Inv(h) && k < |h.blocks| - 1
    ensures forall i :: 0 <= i < |h.blocks| && i != k ==> h.blocks[i].addr != h.blocks[k].addr
  {
    forall i | 0 <= i < |h.blocks| && h.blocks[i].addr == h.blocks[k].addr
      ensures i == k
    {
      SameAddr(h.blocks, HEADER, h.start, h.start + h.pool - HEADER, i, k);
    }
  }

  lemma OnlyAt(h: Heap, k: nat)
    requires Inv(h) && k < |h.blocks| - 1
    ensures forall i :: IsFree(h, i) && h.blocks[i].addr == h.blocks[k].addr ==> i == k
  {
    OtherAddrs(h, k);
  }

  lemma NotListed(h: Heap, k: nat)
    requires Inv(h) && IsUsed(h, k)
    ensures h.blocks[k].addr !in h.free && h.blocks[k].addr !in Without(h.free, h.blocks[k + 1].addr)
    ensures h.start <= h.blocks[k].addr < h.start + h.pool
  {
    UsedNotFree(h, k);
    WithoutMember(h.free, h.blocks[k + 1].addr);
    AddrInPool(h, k);
  }

  lemma FreeFields(h: Heap, k: nat)
    requires Inv(h) && IsUsed(h, k)
    ensures var left, right := k > 0 && !h.blocks[k - 1].used, !h.blocks[k + 1].used;
            var free := if right then Without(h.free, h.blocks[k + 1].addr) else h.free;
            && FreeAt(h, k).free == (if left then free else [h.blocks[k].addr] + free)
            && FreeAt(h, k).avail == h.avail + SizeOf(h, k) + (if left then HEADER else 0)
               + (if right then HEADER else 0)
            && FreeAt(h, k).maxUsed == h.maxUsed && FreeAt(h, k).start == h.start && FreeAt(h, k).pool == h.pool
  {}

  lemma AddrInPool(h: Heap, k: nat)
    requires Inv(h) && k < |h.blocks|
    ensures h.start <= h.blocks[k].addr <= h.start + h.pool - HEADER
  {
    var b, lo, hi := h.blocks, h.start, h.start + h.pool - HEADER;
    if k > 0 { Ordered(b, HEADER, lo, hi, 0, k); }
    if k < |b| - 1 { Ordered(b, HEADER, lo, hi, k, |b| - 1); }
  }

  lemma FreeIsListed(h: Heap, k: nat)
    requires Inv(h) && IsFree(h, k)
    ensures h.blocks[k].addr in h.free
  {
    assert Block(h.blocks[k].addr, false) in h.blocks;
  }

  lemma FreeDistinct(h: Heap)
    requires Inv(h)
    ensures Distinct(h.free)
  {}

  lemma NotAnAddr(b: seq<Block>, n: int)
    requires forall u :: Block(n, u) !in b
    ensures n !in Addrs(b)
  {
    forall i | 0 <= i < |b|
      ensures b[i].addr != n
    {
      assert b[i] == Block(b[i].addr, b[i].used);
    }
  }

  lemma AllTooSmall(h: Heap, size: int)
    requires Inv(h) && TooSmall(h, |h.free|, size)
    ensures forall k :: IsFree(h, k) ==> SizeOf(h, k) < size
  {
    forall k | IsFree(h, k)
      ensures SizeOf(h, k) < size
    {
      assert Block(h.blocks[k].addr, false) in h.blocks;
      var i :| 0 <= i < |h.free| && h.free[i] == h.blocks[k].addr;
    }
  }

  lemma UsedAfterAlloc(h: Heap, k: nat, size: int, used: map<int, bool>, used': map<int, bool>)
    requires Inv(h) && IsFree(h, k) && SizeOf(h, k) >= size > 0 && UsedBits(used, h.blocks)
    requires var a := h.blocks[k].addr;
             used' == if SizeOf(h, k) >= size + HEADER + MIN_ALLOC then used[a + size + HEADER := false][a := true]
               else used[a := true]
    ensures UsedBits(used', AllocAt(h, k, size).blocks)
  {
    var b, b', a := h.blocks, AllocAt(h, k, size).blocks, h.blocks[k].addr;
    var d := |b'| - |b|;
    if d == 1 { FreshAddress(h, k, a + size + HEADER); }
    forall i | 0 <= i < |b'|
      ensures b'[i].addr in used' && used'[b'[i].addr] == b'[i].used
    {
      if i < k || i > k + d {
        var i0 := if i < k then i else i - d;
        assert b'[i] == b[i0] && b[i0] in b && b[i0] == Block(b[i0].addr, b[i0].used);
        if b[i0].addr == a { SameAddr(b, HEADER, h.start, h.start + h.pool - HEADER, i0, k); }
      }
    }
  }

  /** A byte that is data of a used block before and after an operation keeps its value. */
  ghost predicate Kept(h: Heap, data: map<int, int>, h': Heap, data': map<int, int>) {
    forall x :: Live(h.blocks, HEADER, x) && Live(h'.blocks, HEADER, x) ==>
      x in data && x in data' && data'[x] == data[x]
  }

  /** It is enough that bytes changed only inside headers of the resulting heap. */
  lemma KeptBecause(h: Heap, data: map<int, int>, h': Heap, data': map<int, int>)
    requires Inv(h) && Inv(h') && h.start == h'.start && h.pool == h'.pool
    requires forall x :: h.start <= x < h.start + h.pool ==> x in data && x in data'
    requires forall x :: x in data && x in data' && data'[x] != data[x] ==> InHeader(h', x)
    ensures Kept(h, data, h', data')
  {
    forall x | Live(h.blocks, HEADER, x) && Live(h'.blocks, HEADER, x)
      ensures x in data && x in data' && data'[x] == data[x]
    {
      LiveInPool(h, x);
      if InHeader(h', x) {
        var k :| 0 <= k < |h'.blocks| && h'.blocks[k].addr <= x < h'.blocks[k].addr + HEADER;
        HeaderNotLive(h'.blocks, HEADER, h.start, h.start + h.pool - HEADER, k, x);
      }
    }
  }

  ghost predicate InHeader(h: Heap, x: int) {
    exists k :: 0 <= k < |h.blocks| && h.blocks[k].addr <= x < h.blocks[k].addr + HEADER
  }

  lemma LiveInPool(h: Heap, x: int)
    requires Inv(h) && Live(h.blocks, HEADER, x)
    ensures h.start <= x < h.start + h.pool
  {
    var b, lo, hi := h.blocks, h.start, h.start + h.pool - HEADER;
    var i :| 0 <= i < |b| - 1 && b[i].used && b[i].addr + HEADER <= x < b[i + 1].addr;
    if i > 0 { Ordered(b, HEADER, lo, hi, 0, i); }
    if i + 1 < |b| - 1 { Ordered(b, HEADER, lo, hi, i + 1, |b| - 1); }
  }

  /** The data is the same, so every byte is kept. */
  lemma KeptSame(h: Heap, h': Heap, data: map<int, int>)
    requires Inv(h) && forall x :: h.start <= x < h.start + h.pool ==> x in data
    ensures Kept(h, data, h', data)
  {
    hide Inv, Live;
    forall x | Live(h.blocks, HEADER, x)
      ensures x in data
    {
      LiveInPool(h, x);
    }
  }

  lemma AllocResult(h: Heap, j: nat, size: int)
    requires Inv(h) && IsFree(h, j) && 0 <= size <= SizeOf(h, j)
    ensures var h' := AllocAt(h, j, size);
            IsUsed(h', j) && h'.blocks[j].addr == h.blocks[j].addr && SizeOf(h', j) >= size
  {}

  lemma BoundaryKept(h: Heap, k: nat, size: int, h': Heap)
    requires (CanGrow(h, k, size) && h' == GrowAt(h, k, size)) || (CanShrink(h, k, size) && h' == ShrinkAt(h, k, size))
    ensures IsUsed(h', k) && h'.blocks[k] == h.blocks[k] && SizeOf(h', k) == size
  {}

  /** A block that stays where it is keeps the bytes it has room for before and after. */
  lemma KeptCopied(h: Heap, data: map<int, int>, h': Heap, data': map<int, int>, k: nat, n: int)
    requires Inv(h) && Inv(h') && Kept(h, data, h', data')
    requires IsUsed(h, k) && IsUsed(h', k) && h'.blocks[k] == h.blocks[k] && n <= SizeOf(h, k) && n <= SizeOf(h', k)
    ensures Copied(data, h.blocks[k].addr + HEADER, data', h.blocks[k].addr + HEADER, n)
  {
    hide Inv, Live;
    PayloadLive(h, k);
    PayloadLive(h', k);
    var p := h.blocks[k].addr + HEADER;
    forall i | 0 <= i < n
      ensures SameByte(data, p, data', p, i)
    {
      assert Live(h.blocks, HEADER, p + i) && Live(h'.blocks, HEADER, p + i);
    }
  }

  lemma CopiedPart(data: map<int, int>, p: int, data': map<int, int>, q: int, n: int, m: int)
    requires Copied(data, p, data', q, n) && m <= n
    ensures Copied(data, p, data', q, m)
  {
    forall i | 0 <= i < m
      ensures SameByte(data, p, data', q, i)
    {}
  }
}
