/** The heap of mem.c in its own form: block headers at offsets, linked by next and prev
    and changed in place. */
module MemObject {
  import opened Tiling
  import opened MemSpec

  const NULL := -1

  /** The header at position `i`: its links and its used flag. The prev link of heap_end is
      not kept up to date. */
  ghost predicate At(next: map<int, int>, prev: map<int, int>, used: map<int, bool>, b: seq<Block>, i: int)
    requires 0 <= i < |b|
  {
    var a := b[i].addr;
    && a in next && a in used && a in prev && used[a] == b[i].used
    && next[a] == (if i + 1 < |b| then b[i + 1].addr else a)
    && (i + 1 < |b| ==> prev[a] == if i > 0 then b[i - 1].addr else a)
  }

  ghost predicate Linked(next: map<int, int>, prev: map<int, int>, used: map<int, bool>, b: seq<Block>) {
    forall i {:trigger At(next, prev, used, b, i)} :: 0 <= i < |b| ==> At(next, prev, used, b, i)
  }

  // ---- what the stores do to the chain ----

  lemma FlagLinked(next: map<int, int>, prev: map<int, int>, used: map<int, bool>, b: seq<Block>, end: int, k: nat,
      u: bool)
    requires Linked(next, prev, used, b) && Tiles(b, HEADER, 0, end) && k < |b| - 1
    ensures Linked(next, prev, used[b[k].addr := u], b[k := Block(b[k].addr, u)])
  {
    var used', b' := used[b[k].addr := u], b[k := Block(b[k].addr, u)];
    forall i | 0 <= i < |b'|
      ensures At(next, prev, used', b', i)
    {
      assert At(next, prev, used, b, i);
      if b[i].addr == b[k].addr { SameAddr(b, HEADER, 0, end, i, k); }
    }
  }

  /** A free header put between a used block and its successor. */
  lemma SplitLinked(next: map<int, int>, prev: map<int, int>, used: map<int, bool>, b: seq<Block>, end: int, k: nat,
      n: int)
    requires Linked(next, prev, used, b) && Tiles(b, HEADER, 0, end) && k < |b| - 1
             && b[k].addr + HEADER <= n <= b[k + 1].addr - HEADER
    ensures b[k].addr in next
    ensures var a, c := b[k].addr, next[b[k].addr];
            Linked(next[n := c][a := n],
              if c != end then prev[n := a][c := n] else prev[n := a], used[n := false][a := true],
                   Splice(b, k, k + 1, [Block(a, true), Block(n, false)]))
  {
    assert At(next, prev, used, b, k);
    var a, c := b[k].addr, next[b[k].addr];
    var next', prev' := next[n := c][a := n], if c != end then prev[n := a][c := n] else prev[n := a];
    var used' := used[n := false][a := true];
    var b' := Splice(b, k, k + 1, [Block(a, true), Block(n, false)]);
    forall i | 0 <= i < |b'|
      ensures At(next', prev', used', b', i)
    {
      SplitAt(next, prev, used, b, end, k, n, i);
    }
  }

  lemma SplitAt(next: map<int, int>, prev: map<int, int>, used: map<int, bool>, b: seq<Block>, end: int, k: nat,
      n: int, i: nat)
    requires Linked(next, prev, used, b) && Tiles(b, HEADER, 0, end) && k < |b| - 1
             && b[k].addr + HEADER <= n <= b[k + 1].addr - HEADER
    requires i <= |b| && b[k].addr in next
    ensures var a, c := b[k].addr, next[b[k].addr];
            At(next[n := c][a := n],
              if c != end then prev[n := a][c := n] else prev[n := a], used[n := false][a := true],
               Splice(b, k, k + 1, [Block(a, true), Block(n, false)]), i)
  {
    var b' := Splice(b, k, k + 1, [Block(b[k].addr, true), Block(n, false)]);
    assert At(next, prev, used, b, k);
    if i == k + 1 {
    } else {
      var j := if i <= k then i else i - 1;
      assert b'[i].addr == b[j].addr && At(next, prev, used, b, j);
      Apart3(b, end, k, j);
      if k + 1 < |b| - 1 { Ordered(b, HEADER, 0, end, k + 1, |b| - 1); }
      Apart3(b, end, j, k + 1);
    }
  }

  /** Different positions have different offsets, and none lies inside block `k`. */
  lemma Apart3(b: seq<Block>, end: int, k: nat, j: nat)
    requires Tiles(b, HEADER, 0, end) && k < |b| && j < |b|
    ensures j < k ==> b[j].addr + HEADER <= b[k].addr
    ensures j > k ==> b[k].addr + HEADER <= b[j].addr
    ensures j > k ==> b[k + 1].addr <= b[j].addr
  {
    if j < k { Ordered(b, HEADER, 0, end, j, k); }
    if k < j { Ordered(b, HEADER, 0, end, k, j); }
    if k + 1 < j { Ordered(b, HEADER, 0, end, k + 1, j); }
  }

  /** The header at position `k + 1` taken out of the chain. */
  lemma MergeLinked(next: map<int, int>, prev: map<int, int>, used: map<int, bool>, b: seq<Block>, end: int, k: nat)
    requires Linked(next, prev, used, b) && Tiles(b, HEADER, 0, end) && k + 2 < |b|
    ensures b[k + 1].addr in next
    ensures var a, n := b[k].addr, b[k + 1].addr;
            Linked(next[a := next[n]], prev[next[n] := a], used, Splice(b, k, k + 2, [b[k]]))
  {
    assert At(next, prev, used, b, k + 1);
    var a, n := b[k].addr, b[k + 1].addr;
    var next', prev', b' := next[a := next[n]], prev[next[n] := a], Splice(b, k, k + 2, [b[k]]);
    forall i | 0 <= i < |b'|
      ensures At(next', prev', used, b', i)
    {
      var j := if i <= k then i else i + 1;
      assert b'[i] == b[j] && At(next, prev, used, b, j);
      Apart3(b, end, k, j);
      Apart3(b, end, k + 2, j);
    }
  }

  /** The blocks after plug_holes on the free block at position `k`. */
  ghost function PluggedBlocks(b: seq<Block>, k: nat): seq<Block>
    requires k < |b| - 1
  {
    var b1 := if !b[k + 1].used && k + 2 < |b| then Splice(b, k, k + 2, [b[k]]) else b;
    if k > 0 && !b[k - 1].used then Splice(b1, k - 1, k + 1, [b1[k - 1]]) else b1
  }

  class Heap {
    const size: nat              // mem_size_aligned
    var next: map<int, int>
    var prev: map<int, int>
    var used: map<int, bool>
    var lfree: int
    var usedMem: int
    var maxMem: int
    ghost var h: MemSpec.Heap

    ghost predicate Valid()
      reads this
    {
      && Inv(h) && h.size == size && Linked(next, prev, used, h.blocks)
      && lfree == h.lfree && usedMem == h.usedMem && maxMem == h.maxMem
    }

    /** rt_system_heap_init with room for `bytes` bytes. */
    constructor (bytes: nat)
      ensures Valid() && h == Init(bytes)
    {
      size := bytes;
      var end := bytes + HEADER;
      next, prev, used := map[0 := end, end := end], map[0 := 0, end := end], map[0 := false, end := true];
      lfree, usedMem, maxMem := 0, 0, 0;
      h := Init(bytes);
      new;
      InitInv(bytes);
    }

    /** plug_holes */
    method PlugHoles(mem: int, ghost b: seq<Block>, ghost k: nat)
      requires Linked(next, prev, used, b) && Tiles(b, HEADER, 0, size + HEADER) && k < |b| - 1
               && b[k] == Block(mem, false)
      modifies this`next, this`prev, this`lfree
      ensures Linked(next, prev, used, PluggedBlocks(b, k)) && lfree == Plugged(b, k, old(lfree))
    {
      hide Linked, Tiles, Splice;
      Read(next, prev, used, b, size + HEADER, k);
      var nmem := next[mem];
      ghost var b1 := b;
      if mem != nmem && !used[nmem] && nmem != size + HEADER {
        if lfree == nmem { lfree := mem; }
        MergeLinked(next, prev, used, b, size + HEADER, k);
        MergeTiles(b, size + HEADER, k);
        next := next[mem := next[nmem]];
        prev := prev[next[mem] := mem];
        b1 := Splice(b, k, k + 2, [b[k]]);
      }
      Read(next, prev, used, b1, size + HEADER, k);
      var pmem := prev[mem];
      if pmem != mem && !used[pmem] {
        if lfree == mem { lfree := pmem; }
        MergeLinked(next, prev, used, b1, size + HEADER, k - 1);
        next := next[pmem := next[mem]];
        prev := prev[next[pmem] := pmem];
      }
    }

    // ---- rt_malloc ----

    /** Moves lfree on to the next free block. */
    method AdvanceLfree(ghost b: seq<Block>, ghost k: nat)
      requires Linked(next, prev, used, b) && Tiles(b, HEADER, 0, size + HEADER) && k < |b| && lfree == b[k].addr
      modifies this`lfree
      ensures lfree == NextFree(b, k)
    {
      ghost var i := k;
      while true
        invariant k <= i < |b| && lfree == b[i].addr && NextFree(b, k) == NextFree(b, i)
        decreases |b| - i
      {
        assert At(next, prev, used, b, i);
        if i < |b| - 1 { Ordered(b, HEADER, 0, size + HEADER, i, |b| - 1); }
        if !(used[lfree] && lfree != size + HEADER) { break; }
        lfree := next[lfree];
        i := i + 1;
      }
    }

    /** Marks the free block at `ptr` used, cutting off what is behind the bytes taken. */
    method Carve(ptr: int, n: int, ghost k: nat)
      requires Valid() && IsFree(h, k) && h.blocks[k].addr == ptr && 0 <= n <= SizeOf(h, k)
      modifies this`next, this`prev, this`used, this`usedMem
      ensures Linked(next, prev, used, AllocAt(h, k, n).blocks) && usedMem == AllocAt(h, k, n).usedMem
    {
      hide Inv, Linked, Splice, NextFree;
      ghost var b := h.blocks;
      Shape(h);
      Read(next, prev, used, b, size + HEADER, k);
      if next[ptr] - (ptr + HEADER) >= n + HEADER + MIN_SIZE {
        var ptr2 := ptr + HEADER + n;
        SplitLinked(next, prev, used, b, size + HEADER, k, ptr2);
        used := used[ptr2 := false];
        next := next[ptr2 := next[ptr]];
        prev := prev[ptr2 := ptr];
        next := next[ptr := ptr2];
        used := used[ptr := true];
        if next[ptr2] != size + HEADER { prev := prev[next[ptr2] := ptr2]; }
        usedMem := usedMem + (n + HEADER);
      } else {
        FlagLinked(next, prev, used, b, size + HEADER, k, true);
        FlagSplice(b, k, true);
        used := used[ptr := true];
        usedMem := usedMem + (next[ptr] - ptr);
      }
    }

    /** The body of the search loop once a block fits. */
    method TakeBlock(ptr: int, n: int, ghost k: nat)
      requires Valid() && IsFree(h, k) && h.blocks[k].addr == ptr && 0 <= n <= SizeOf(h, k)
      modifies this
      ensures Valid() && h == AllocAt(old(h), k, n)
    {
      hide Inv, Linked, Splice, NextFree;
      ghost var h' := AllocAt(h, k, n);
      AllocInv(h, k, n);
      Shape(h');
      CarvedAt(h, k, n);
      Carve(ptr, n, k);
      if maxMem < usedMem { maxMem := usedMem; }
      if ptr == lfree { AdvanceLfree(h'.blocks, k); }
      h := h';
    }

    /** The search loop of rt_malloc. */
    method Search(n: int) returns (ptr: int, found: bool, ghost i: int)
      requires Valid() && MIN_SIZE <= n <= size
      ensures found ==> FirstFit(h, i, n) && ptr == h.blocks[i].addr >= 0
      ensures !found ==> forall j :: !Fits(h, j, n)
    {
      hide Inv, Linked;
      ptr, found := lfree, false;
      i := Position(h);
      Shape(h);
      while ptr < size - n
        invariant 0 <= i < |h.blocks| && ptr == h.blocks[i].addr >= h.lfree && forall j :: 0 <= j < i ==> !Fits(h, j, n)
        decreases |h.blocks| - i
      {
        Read(next, prev, used, h.blocks, size + HEADER, i);
        StartsBelow(h, i);
        assert SizeOf(h, i) >= 0;
        if !used[ptr] && next[ptr] - (ptr + HEADER) >= n { return ptr, true, i; }
        ptr := next[ptr];
        i := i + 1;
      }
      NoneAbove(h, i, n);
    }

    method Malloc(bytes: nat) returns (p: int, ghost k: int)
      requires Valid() && (bytes == 0 || Align(bytes) > size || size >= MIN_SIZE)
      modifies this
      ensures Valid()
      ensures p == NULL ==> h == old(h) && (bytes == 0 || forall i :: !Fits(h, i, Request(bytes)))
      ensures p != NULL ==> bytes > 0 && FirstFit(old(h), k, Request(bytes)) && h == AllocAt(old(h), k, Request(bytes))
      ensures p != NULL ==> p == old(h).blocks[k].addr + HEADER
    {
      hide Inv, Linked;
      p, k := NULL, 0;
      if bytes == 0 { return; }
      var n := (bytes + 3) / 4 * 4;
      if n > size { NoneBelow(h, Request(bytes)); return; }
      if n < MIN_SIZE { n := MIN_SIZE; }
      var ptr, found, i := Search(n);
      if found {
        k := i;
        TakeBlock(ptr, n, i);
        p := ptr + HEADER;
      }
    }

    // ---- rt_free ----

    method Free(p: int, ghost k: nat)
      requires Valid() && (p != NULL ==> IsUsed(h, k) && p == h.blocks[k].addr + HEADER)
      modifies this
      ensures Valid() && h == if p == NULL then old(h) else FreeAt(old(h), k)
    {
      hide Inv, Linked, Splice, Tiles;
      if p == NULL { return; }
      var mem := p - HEADER;
      ghost var b := h.blocks;
      FreeInv(h, k);
      Shape(h);
      Read(next, prev, used, b, size + HEADER, k);
      FlagLinked(next, prev, used, b, size + HEADER, k, false);
      FlagTiles(b, size + HEADER, k, false);
      used := used[mem := false];
      if mem < lfree { lfree := mem; }
      usedMem := usedMem - (next[mem] - mem);
      PlugHoles(mem, b[k := Block(mem, false)], k);
      FreeBlocks(h, k);
      h := FreeAt(h, k);
    }

    // ---- rt_realloc ----

    method Shrink(mem: int, n: int, ghost k: nat)
      requires Valid() && CanShrink(h, k, n) && mem == h.blocks[k].addr
      modifies this
      ensures Valid() && h == ShrinkAt(old(h), k, n)
    {
      hide Inv, Linked, Splice, Tiles;
      ghost var b := h.blocks;
      ShrinkInv(h, k, n);
      Shape(h);
      Read(next, prev, used, b, size + HEADER, k);
      var ptr2 := mem + HEADER + n;
      SplitLinked(next, prev, used, b, size + HEADER, k, ptr2);
      assert used[ptr2 := false][mem := true] == used[ptr2 := false];
      usedMem := usedMem - ((next[mem] - mem - HEADER) - n);
      used := used[ptr2 := false];
      next := next[ptr2 := next[mem]];
      prev := prev[ptr2 := mem];
      next := next[mem := ptr2];
      if next[ptr2] != size + HEADER { prev := prev[next[ptr2] := ptr2]; }
      ghost var b1 := Splice(b, k, k + 1, [Block(mem, true), Block(ptr2, false)]);
      SplitTiles(h, k, n);
      PlugHoles(ptr2, b1, k + 1);
      h := ShrinkAt(h, k, n);
    }

    /** rt_realloc; a pointer outside the heap comes back as it is. */
    method Realloc(p: int, bytes: nat, ghost k: nat) returns (q: int)
      requires Valid() && (bytes == 0 || Align(bytes) > size || size >= MIN_SIZE)
      requires 0 <= p < size + HEADER ==> IsUsed(h, k) && p == h.blocks[k].addr + HEADER
      modifies this
      ensures Valid()
      ensures Align(bytes) > size ==> q == NULL && h == old(h)
      ensures Align(bytes) <= size && p == NULL ==> if q == NULL then h == old(h) else
                exists j :: FirstFit(old(h), j, Request(bytes)) && h == AllocAt(old(h), j, Request(bytes))
                  && q == old(h).blocks[j].addr + HEADER
      ensures Align(bytes) <= size && p != NULL && !(0 <= p < size + HEADER) ==> q == p && h == old(h)
      ensures Align(bytes) <= size && 0 <= p < size + HEADER ==>
                if SizeOf(old(h), k) == Align(bytes) then q == p && h == old(h)
                else if CanShrink(old(h), k, Align(bytes)) then q == p && h == ShrinkAt(old(h), k, Align(bytes))
                else if q == NULL then h == old(h) && (bytes == 0 || forall i :: !Fits(h, i, Request(bytes)))
                else Moved(old(h), k, Request(bytes), q, h)
    {
      hide Inv, Linked, AllocAt, FreeAt, ShrinkAt;
      var n := (bytes + 3) / 4 * 4;
      if n > size { return NULL; }
      ghost var h0 := h;
      ghost var j;
      assert Request(n) == Request(bytes) && Align(n) == n == Align(bytes);
      if p == NULL {
        q, j := Malloc(n);
        return;
      }
      if p < 0 || p >= size + HEADER { return p; }
      var mem := p - HEADER;
      Shape(h);
      Read(next, prev, used, h.blocks, size + HEADER, k);
      var was := next[mem] - mem - HEADER;
      if was == n { return p; }
      if n + HEADER + MIN_SIZE < was {
        Shrink(mem, n, k);
        return p;
      }
      q, j := Malloc(n);
      if q != NULL {
        ghost var m := AllocKeeps(h0, j, Request(bytes), k);
        Free(p, m);
        assert Moved(h0, k, Request(bytes), q, h);
      }
    }
  }

  /** What the links and flags around a position say. */
  lemma Read(next: map<int, int>, prev: map<int, int>, used: map<int, bool>, b: seq<Block>, end: int, k: nat)
    requires Linked(next, prev, used, b) && Tiles(b, HEADER, 0, end) && k < |b| - 1
    ensures b[k].addr in next && b[k].addr in prev && b[k].addr in used && used[b[k].addr] == b[k].used
    ensures next[b[k].addr] == b[k + 1].addr != b[k].addr && b[k + 1].addr in used
            && used[b[k + 1].addr] == b[k + 1].used && b[k + 1].addr in next
    ensures prev[b[k].addr] == (if k > 0 then b[k - 1].addr else b[k].addr)
    ensures k > 0 ==>
              && b[k - 1].addr in used && used[b[k - 1].addr] == b[k - 1].used
              && b[k - 1].addr != b[k].addr && b[k - 1].addr in next
    ensures b[k + 1].addr == end <==> k == |b| - 2
    ensures k == |b| - 2 ==> b[k + 1].used
  {
    assert At(next, prev, used, b, k) && At(next, prev, used, b, k + 1);
    Ordered(b, HEADER, 0, end, k, k + 1);
    if k > 0 { assert At(next, prev, used, b, k - 1); Ordered(b, HEADER, 0, end, k - 1, k); }
    if k + 1 < |b| - 1 { Ordered(b, HEADER, 0, end, k + 1, |b| - 1); }
  }

  lemma MergeTiles(b: seq<Block>, end: int, k: nat)
    requires Tiles(b, HEADER, 0, end) && k + 2 < |b|
    ensures var b' := Splice(b, k, k + 2, [b[k]]);
            && Tiles(b', HEADER, 0, end) && |b'| == |b| - 1 && b'[k] == b[k] && (k > 0 ==> b'[k - 1] == b[k - 1])
  {
    assert Size(b, k, HEADER) >= 0 && Size(b, k + 1, HEADER) >= 0;
    assert [b[k]] + [b[k + 2]] == [b[k], b[k + 2]];
    TilesSplice(b, k, k + 2, [b[k]], HEADER, 0, end);
  }

  /** A first-fit allocation followed by the release of block `k`. */
  ghost predicate Moved(h: MemSpec.Heap, k: int, size: int, q: int, h': MemSpec.Heap) {
    exists j: int, m: int {:trigger FreeAt(AllocAt(h, j, size), m)} ::
      FirstFit(h, j, size) && q == h.blocks[j].addr + HEADER && var h1 := AllocAt(h, j, size);
      IsUsed(h1, m) && IsUsed(h, k) && h1.blocks[m] == h.blocks[k] && h' == FreeAt(h1, m)
  }

  lemma Shape(h: MemSpec.Heap)
    requires Inv(h)
    ensures |h.blocks| >= 2 && Tiles(h.blocks, HEADER, 0, h.size + HEADER)
    ensures forall i :: 0 <= i < |h.blocks| - 1 ==> SizeOf(h, i) >= 0
  {}

  /** Where the search starts. */
  lemma Position(h: MemSpec.Heap) returns (i: int)
    requires Inv(h)
    ensures 0 <= i < |h.blocks| && h.blocks[i].addr == h.lfree && forall j :: 0 <= j < i ==> h.blocks[j].addr < h.lfree
  {
    hide Merged, Sum;
    if h.lfree == End(h) {
      i := |h.blocks| - 1;
    } else {
      i :| 0 <= i < |h.blocks| && h.blocks[i] == Block(h.lfree, false);
    }
    forall j | 0 <= j < i
      ensures h.blocks[j].addr < h.lfree
    {
      Ordered(h.blocks, HEADER, 0, End(h), j, i);
    }
  }

  lemma NoneAbove(h: MemSpec.Heap, i: int, size: int)
    requires Inv(h) && 0 <= i < |h.blocks| && h.blocks[i].addr >= h.size - size
    requires forall j :: 0 <= j < i ==> !Fits(h, j, size)
    ensures forall j :: !Fits(h, j, size)
  {
    hide Merged, Sum;
    forall j | i < j < |h.blocks|
      ensures h.blocks[j].addr >= h.size - size
    {
      Ordered(h.blocks, HEADER, 0, End(h), i, j);
    }
  }

  lemma NoneBelow(h: MemSpec.Heap, size: int)
    requires Inv(h) && size > h.size
    ensures forall j :: !Fits(h, j, size)
  {
    hide Merged, Sum;
    forall j | 0 <= j < |h.blocks|
      ensures h.blocks[j].addr >= 0
    {
      if j > 0 { Ordered(h.blocks, HEADER, 0, End(h), 0, j); }
    }
  }

  lemma StartsBelow(h: MemSpec.Heap, i: int)
    requires Inv(h) && 0 <= i < |h.blocks|
    ensures 0 <= h.blocks[i].addr
  {
    if i > 0 { Ordered(h.blocks, HEADER, 0, End(h), 0, i); }
  }

  lemma FlagSplice(b: seq<Block>, k: nat, u: bool)
    requires k < |b|
    ensures b[k := Block(b[k].addr, u)] == Splice(b, k, k + 1, [Block(b[k].addr, u)])
  {}

  lemma FlagTiles(b: seq<Block>, end: int, k: nat, u: bool)
    requires Tiles(b, HEADER, 0, end) && k < |b| - 1
    ensures Tiles(b[k := Block(b[k].addr, u)], HEADER, 0, end)
  {
    var b' := b[k := Block(b[k].addr, u)];
    forall i | 0 <= i < |b'| - 1
      ensures Size(b', i, HEADER) >= 0
    {
      assert Size(b, i, HEADER) >= 0;
    }
  }

  lemma CarvedAt(h: MemSpec.Heap, k: nat, size: int)
    requires IsFree(h, k)
    ensures var b := AllocAt(h, k, size).blocks; k < |b| && b[k].addr == h.blocks[k].addr
  {}

  lemma FreeBlocks(h: MemSpec.Heap, k: nat)
    requires Inv(h) && IsUsed(h, k)
    ensures var b := h.blocks[k := Block(h.blocks[k].addr, false)];
            FreeAt(h, k).blocks == PluggedBlocks(b, k)
              && Plugged(b, k, Min(h.blocks[k].addr, h.lfree)) == FreeAt(h, k).lfree
  {
    var b := h.blocks[k := Block(h.blocks[k].addr, false)];
    hide Inv, Splice;
    assert |h.blocks| >= 2 && (!b[k + 1].used ==> k + 2 < |b|) by { EndUsed(h); }
    JoinSplices(h.blocks, k, k > 0 && !b[k - 1].used, !b[k + 1].used);
  }

  lemma EndUsed(h: MemSpec.Heap)
    requires Inv(h)
    ensures |h.blocks| >= 2 && h.blocks[|h.blocks| - 1].used
  {}

  /** Merging to the right and then to the left is one rewriting. */
  lemma JoinSplices(b0: seq<Block>, k: nat, left: bool, right: bool)
    requires k + 1 < |b0| && (right ==> k + 2 < |b0|) && (left ==> k > 0)
    requires left ==> !b0[k - 1].used
    ensures var b := b0[k := Block(b0[k].addr, false)];
            var i, j := if left then k - 1 else k, if right then k + 2 else k + 1;
            var b1 := if right then Splice(b, k, k + 2, [b[k]]) else b;
            Splice(b0, i, j, [Block(b0[i].addr, false)]) == if left then Splice(b1, k - 1, k + 1, [b1[k - 1]]) else b1
  {
    var b := b0[k := Block(b0[k].addr, false)];
    if right {
      assert Splice(b, k, k + 2, [b[k]]) == b0[..k] + [b[k]] + b0[k + 2..];
    } else {
      assert b == b0[..k] + [b[k]] + b0[k + 1..];
    }
    if left { assert b0[..k] == b0[..k - 1] + [b0[k - 1]] && Block(b0[k - 1].addr, false) == b0[k - 1]; }
  }

  lemma SplitTiles(h: MemSpec.Heap, k: nat, n: int)
    requires Inv(h) && CanShrink(h, k, n)
    ensures var b, ptr2, h' := h.blocks, h.blocks[k].addr + HEADER + n, ShrinkAt(h, k, n);
            var b1 := Splice(b, k, k + 1, [Block(b[k].addr, true), Block(ptr2, false)]);
            && Tiles(b1, HEADER, 0, End(h)) && k + 1 < |b1| - 1 && b1[k + 1] == Block(ptr2, false)
            && h'.blocks == PluggedBlocks(b1, k + 1) && h'.lfree == Plugged(b1, k + 1, h.lfree)
  {
    hide Merged, Sum;
    var b, ptr2 := h.blocks, h.blocks[k].addr + HEADER + n;
    var w := [Block(b[k].addr, true), Block(ptr2, false)];
    assert w + [b[k + 1]] == [w[0], w[1], b[k + 1]];
    TilesSplice(b, k, k + 1, w, HEADER, 0, End(h));
    var b1 := Splice(b, k, k + 1, w);
    assert b1[k] == b[k] && b1[k + 2] == b[k + 1];
    if !b[k + 1].used {
      assert Splice(b1, k + 1, k + 3, [b1[k + 1]]) == Splice(b, k, k + 2, w);
    }
  }
}
