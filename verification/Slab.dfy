/** The slab allocator in the form of slab.c: zone records, their lists and the page usage
    table, changed in place over the page list. */
module SlabObject {
  import opened Lists
  import opened Arith
  import opened SlabPages
  import opened SlabSizes
  import opened SlabZones

  /** What the usage table says of a page: free, the k-th page of a zone, or the first of `n` pages. */
  datatype Usage = FreePage | Small(k: nat) | LargePage(n: nat)

  ghost predicate ZonePages(usage: map<nat, Usage>, a: nat, n: nat) {
    forall x: nat :: a <= x < a + n ==> x in usage && usage[x] == Small(x - a)
  }

  /** The table tells the pages of zones, in use or kept back, and the large blocks. */
  ghost predicate Marked(usage: map<nat, Usage>, s: Slab) {
    && (forall a: nat :: a in s.zones || a in s.freeZones ==> ZonePages(usage, a, s.zoneSize / PAGE))
    && (forall a :: a in s.large ==> a in usage && usage[a] == LargePage(s.large[a]))
  }

  class Allocator {
    const zoneSize: nat
    const zoneLimit: nat
    const pages: PageList
    var zones: map<nat, Zone>
    var arrays: seq<seq<nat>>          // zone_array
    var freeZones: seq<nat>            // zone_free
    var usage: map<nat, Usage>         // memusage
    ghost var s: Slab

    ghost predicate Valid()
      reads this, pages
    {
      && Inv(s) && s.zoneSize == zoneSize && s.zoneLimit == zoneLimit && s.pages == pages.list
      && s.zones == zones && s.arrays == arrays && s.freeZones == freeZones && Marked(usage, s)
    }

    /** rt_system_heap_init over `n` pages, the first of which hold the usage table. */
    constructor (start: nat, n: nat)
      requires n > 0
      ensures Valid() && Initial(s) && fresh(pages)
      ensures forall x :: Free(s.pages, x) <==> start + Up(4 * n, PAGE) / PAGE <= x < start + n
    {
      var size := SizeOfZones(n * PAGE);
      zoneSize := size;
      zoneLimit := if size / 4 > 16384 then 16384 else size / 4;
      pages := new PageList(start, n);
      zones, arrays, freeZones, usage := map[], seq(NZONES, _ => []), [], map[];
      new;
      OneRun(pages.list, start, n, Up(4 * n, PAGE) / PAGE);
      var table := pages.PageAlloc(Up(4 * n, PAGE) / PAGE);
      s := Slab(zoneSize, zoneLimit, pages.list, map[], map[], arrays, [], map[]);
      InitInv(s);
    }

    /** The loop that marks the pages of a new zone. */
    method MarkZone(a: nat)
      modifies this`usage
      ensures ZonePages(usage, a, zoneSize / PAGE)
      ensures forall x :: !(a <= x < a + zoneSize / PAGE) ==>
                (x in usage <==> x in old(usage)) && (x in usage ==> usage[x] == old(usage)[x])
    {
      for off := 0 to zoneSize / PAGE
        invariant forall x: nat :: a <= x < a + off ==> x in usage && usage[x] == Small(x - a)
        invariant forall x :: !(a <= x < a + off) ==>
                    (x in usage <==> x in old(usage)) && (x in usage ==> usage[x] == old(usage)[x])
      {
        usage := usage[a + off := Small(off)];
      }
    }

    /** The loop that unmarks the pages of a zone given back. */
    method UnmarkZone(a: nat)
      modifies this`usage
      ensures forall x :: !(a <= x < a + zoneSize / PAGE) ==>
                (x in usage <==> x in old(usage)) && (x in usage ==> usage[x] == old(usage)[x])
    {
      for off := 0 to zoneSize / PAGE
        invariant forall x :: !(a <= x < a + off) ==>
                    (x in usage <==> x in old(usage)) && (x in usage ==> usage[x] == old(usage)[x])
      {
        usage := usage[a + off := FreePage];
      }
    }

    /** rt_malloc from a zone with chunks left. */
    method FromList(i: nat) returns (b: Block)
      requires Valid() && i < NZONES && arrays[i] != []
      modifies this`zones, this`arrays, this`s
      ensures Valid() && HasFirst(old(s), i) && Got(s, b) == FromZone(old(s), i)
    {
      hide Inv, Free, Canonical, Alloc;
      FromZoneInv(s, i);
      var a := arrays[i][0];
      var z := zones[a];
      z := z.(nfree := z.nfree - 1);
      if z.nfree == 0 { arrays := arrays[i := arrays[i][1..]]; }
      var k;
      if z.uindex + 1 != z.nmax {
        k := z.uindex + 1;
        z := z.(uindex := k);
      } else {
        k := z.freechunk[0];
        z := z.(freechunk := z.freechunk[1..]);
      }
      zones := zones[a := z.(live := z.live + {k})];
      b := Chunk(a, k);
      s := FromZone(s, i).s;
    }

    /** The part of rt_malloc that makes a zone of the pages from `a` on. */
    method MakeZone(a: nat, i: nat, size: nat, ghost s1: Slab) returns (b: Block)
      requires s1.zoneSize == zoneSize && s1.zoneLimit == zoneLimit && s1.pages == pages.list
      requires s1.zones == zones && s1.arrays == arrays && s1.freeZones == freeZones
      requires i < |arrays| && size > 0 && Room(zoneSize, size) >= 1 && Inv(Found(s1, a, i, size).s)
      requires ZonePages(usage, a, zoneSize / PAGE) && Marked(usage, s1)
      modifies this`zones, this`arrays, this`s
      ensures Valid() && Got(s, b) == Found(s1, a, i, size)
    {
      hide Inv;
      var off := if PowerOf2(size) then (ZONE_HEADER + size - 1) / size * size else (ZONE_HEADER + 7) / 8 * 8;
      assert off == Offset(size);
      var nmax := (zoneSize - off) / size;
      zones := zones[a := Zone(i, size, nmax, nmax - 1, 0, [], {0})];
      arrays := arrays[i := [a] + arrays[i]];
      b := Chunk(a, 0);
      s := Found(s1, a, i, size).s;
    }

    /** rt_malloc of a size below zone_limit. */
    method SmallMalloc(n: nat) returns (b: Block)
      requires Valid() && 0 < n < zoneLimit
      modifies this, pages
      ensures Valid() && Got(s, b) == MallocSmall(old(s), n)
    {
      hide Inv, Free, Canonical, Alloc, ZoneIndex, Room;
      ClassKnown(s, n);
      var c := ZoneIndex(n);
      MallocSmallInv(s, n);
      if arrays[c.index] != [] {
        b := FromList(c.index);
        return;
      }
      if freeZones != [] {
        var a := freeZones[0];
        freeZones := freeZones[1..];
        FirstKept(s);
        b := MakeZone(a, c.index, c.size, s.(freeZones := s.freeZones[1..]));
        return;
      }
      PagesKnown(s, zoneSize / PAGE);
      var run := pages.PageAlloc(zoneSize / PAGE);
      if run.None? { return NoBlock; }
      ghost var s1, was := PageAlloc(s, zoneSize / PAGE).0, usage;
      MarkZone(run.value);
      MarkedElsewhere(s, was, usage, run.value, zoneSize / PAGE);
      b := MakeZone(run.value, c.index, c.size, s1);
    }

    /** rt_malloc of a size from zone_limit on. */
    method LargeMalloc(n: nat) returns (b: Block)
      requires Valid() && n > 0
      modifies this`usage, this`s, pages
      ensures Valid() && Got(s, b) == MallocLarge(old(s), n)
    {
      hide Inv, Free, Canonical, Alloc, Up;
      var np := Up(n, PAGE) / PAGE;
      PagesKnown(s, np);
      MallocLargeInv(s, n);
      var run := pages.PageAlloc(np);
      if run.None? { return NoBlock; }
      ghost var was := usage;
      usage := usage[run.value := LargePage(np)];
      MarkedElsewhere(s, was, usage, run.value, np);
      b := Large(run.value);
      s := MallocLarge(s, n).s;
    }

    method Malloc(n: nat) returns (b: Block)
      requires Valid()
      modifies this, pages
      ensures Valid() && Got(s, b) == SlabZones.Malloc(old(s), n)
    {
      hide Inv, MallocSmall, MallocLarge;
      if n == 0 { return NoBlock; }
      if n >= zoneLimit {
        b := LargeMalloc(n);
      } else {
        b := SmallMalloc(n);
      }
    }

    // ---- rt_free ----

    method FreePages(a: nat, np: nat)
      requires Valid() && a in s.large && np == s.large[a]
      modifies this`usage, this`s, pages
      ensures Valid() && Inv(old(s)) && a in old(s).held && s == FreeLarge(old(s), a)
    {
      hide Inv, Free, Canonical, Release;
      FreeLargeInv(s, a);
      RunKnown(s, a);
      ghost var s', was := FreeLarge(s, a), usage;
      usage := usage[a := LargePage(0)];
      pages.PageFree(a, np);
      MarkedElsewhere(s', was, usage, a, 1);
      s := s';
    }

    /** The chunk's part of rt_free: back on the free list of its zone. */
    method GiveBack(a: nat, i: nat)
      requires Valid() && a in zones && i in zones[a].live
      modifies this`zones, this`arrays, this`s
      ensures Valid() && Inv(old(s)) && a in old(s).zones && old(s).zones[a].index < |old(s).arrays|
              && s == Returned(old(s), a, i)
    {
      hide Inv, Free, Canonical;
      ReturnedInv(s, a, i);
      var z := zones[a];
      zones := zones[a := z.(freechunk := [i] + z.freechunk, live := z.live - {i}, nfree := z.nfree + 1)];
      if z.nfree == 0 { arrays := arrays[z.index := [a] + arrays[z.index]]; }
      s := Returned(s, a, i);
    }

    /** The zone's part: off its list, kept back, and perhaps released to the page allocator. */
    method KeepBack(a: nat)
      requires Valid() && a in zones && zones[a].nfree > 0
      modifies this, pages
      ensures Valid() && Inv(old(s)) && a in old(s).zones && old(s).zones[a].index < |old(s).arrays|
              && a in old(s).held && s == KeptBack(old(s), a)
    {
      hide Inv, Free, Canonical, Release, Without;
      KeptBackInv(s, a);
      ghost var s' := KeptBack(s, a);
      RunKnown(s, a);
      InItsList(s, a);
      var i := zones[a].index;
      var q := Unlist(arrays[i], a);
      arrays, zones, freeZones := arrays[i := q], zones - {a}, [a] + freeZones;
      if |freeZones| > 2 {
        freeZones := freeZones[1..];
        ghost var was := usage;
        UnmarkZone(a);
        pages.PageFree(a, zoneSize / PAGE);
        MarkedElsewhere(s', was, usage, a, zoneSize / PAGE);
      }
      s := s';
    }

    method FreeOneChunk(a: nat, i: nat)
      requires Valid() && a in zones && i in zones[a].live
      modifies this, pages
      ensures Valid() && Inv(old(s)) && a in old(s).zones && old(s).zones[a].index < |old(s).arrays| && a in old(s).held
      ensures s == FreeChunk(old(s), a, i)
    {
      hide Inv, KeptBack;
      FreeChunkInv(s, a, i);
      ReturnedInv(s, a, i);
      GiveBack(a, i);
      var z := zones[a];
      if z.nfree == z.nmax && |arrays[z.index]| >= 2 { KeepBack(a); }
    }

    /** rt_free of NULL, which is address 0, or of a block in use, found through its page. */
    method FreeBlock(ptr: nat, ghost b: Block)
      requires Valid()
      requires ptr == 0 ==> b.NoBlock?
      requires ptr != 0 ==> Live(s, b) && (b.Chunk? ==> s.zones[b.zone].size > 0) && ptr == First(s, b)
      modifies this, pages
      ensures Valid() && Inv(old(s)) && (b.NoBlock? ==> s == old(s))
      ensures !b.NoBlock? ==> Enabled(old(s), FreeStep(b)) && s == Do(old(s), FreeStep(b))
    {
      hide Inv, Free, Canonical, Release, Offset;
      if ptr == 0 { return; }
      PageOf(s, usage, b);
      var page := ptr / PAGE;
      if usage[page].LargePage? {
        FreePages(page, usage[page].n);
      } else {
        var a := page - usage[page].k;
        var z := zones[a];
        FreeOneChunk(a, (ptr - a * PAGE - Offset(z.size)) / z.size);
      }
    }
  }

  function FreeStep(b: Block): Step
    requires !b.NoBlock?
  {
    if b.Chunk? then FreeChunkStep(b.zone, b.i) else FreeLargeStep(b.page)
  }

  ghost predicate HasFirst(s: Slab, i: nat) {
    && i < |s.arrays| && s.arrays[i] != [] && s.arrays[i][0] in s.zones
    && var z := s.zones[s.arrays[i][0]]; z.nfree > 0 && (z.uindex + 1 != z.nmax || z.freechunk != [])
  }

  /** zone_size: the least of its three values that is not below half a thousandth of the heap. */
  method SizeOfZones(bytes: nat) returns (size: nat)
    ensures size == 32768 || size == 65536 || size == 131072
    ensures (size == 131072 || size * 2 >= bytes / 1024) && (size == 32768 || size < bytes / 1024)
  {
    size := 32768;
    while size < 131072 && size * 2 < bytes / 1024
      invariant size == 32768 || size == 65536 || size == 131072
      invariant size == 32768 || size < bytes / 1024
      decreases 131072 - size
    {
      size := size * 2;
    }
  }

  /** Allocating from a fresh page list takes its first pages. */
  lemma OneRun(list: seq<Run>, start: nat, n: nat, m: nat)
    requires Canonical(list) && n > 0 && (forall x :: Free(list, x) <==> start <= x < start + n)
             && m == Up(4 * n, PAGE) / PAGE
    ensures forall x :: Free(Alloc(list, m).list, x) <==> start + m <= x < start + n
  {
    assert 0 < m <= n;
    ReleaseFacts([], start, n);
    Unique(list, Release([], start, n));
    assert list == [Run(start, n)];
    AllocFacts(list, m);
  }

  lemma ClassKnown(s: Slab, n: nat)
    requires Inv(s) && 0 < n < s.zoneLimit
    ensures n < 16384 && |s.arrays| == NZONES
    ensures var c := ZoneIndex(n); 0 <= c.index < NZONES && 0 < c.size && Room(s.zoneSize, c.size) >= 2
  {
    ClassFits(s, n);
  }

  lemma FirstKept(s: Slab)
    requires Inv(s) && s.freeZones != []
    ensures s.freeZones[0] in s.freeZones && forall x :: x in s.freeZones[1..] ==> x in s.freeZones
  {}

  /** A run from the page allocator shares no page with those given out before. */
  lemma PagesKnown(s: Slab, n: nat)
    requires Inv(s)
    ensures Canonical(s.pages)
    ensures var t := Alloc(s.pages, n);
            && (t.run.None? ==> t.list == s.pages)
            && (t.run.Some? ==> n > 0 && forall a, x :: Holds(s.held, a, x) ==> !(t.run.value <= x < t.run.value + n))
  {
    AllocFacts(s.pages, n);
  }

  /** Changes to the table for pages that no run in use holds leave it right. */
  lemma MarkedElsewhere(s: Slab, usage: map<nat, Usage>, usage': map<nat, Usage>, a: nat, n: nat)
    requires Inv(s) && Marked(usage, s) && forall b, x :: Holds(s.held, b, x) ==> !(a <= x < a + n)
    requires forall x :: !(a <= x < a + n) ==> (x in usage' <==> x in usage) && (x in usage' ==> usage'[x] == usage[x])
    ensures Marked(usage', s)
  {
    hide ListsOk, Pages, Free, Canonical;
    forall b: nat | b in s.zones || b in s.freeZones
      ensures ZonePages(usage', b, s.zoneSize / PAGE)
    {
      forall x: nat | b <= x < b + s.zoneSize / PAGE
        ensures x in usage' && usage'[x] == Small(x - b)
      {
        assert Holds(s.held, b, x);
      }
    }
    forall b | b in s.large
      ensures b in usage' && usage'[b] == LargePage(s.large[b])
    {
      assert Holds(s.held, b, b);
    }
  }

  /** The loop that takes a zone off its list. */
  method Unlist(list: seq<nat>, a: nat) returns (r: seq<nat>)
    requires a in list
    ensures r == Without(list, a)
  {
    hide Without;
    var k := 0;
    assert list[0..] == list && list[..0] + Without(list, a) == Without(list, a);
    while list[k] != a
      invariant k < |list| && a in list[k..] && Without(list, a) == list[..k] + Without(list[k..], a)
      decreases |list| - k
    {
      WithoutStep(list, k, a);
      k := k + 1;
    }
    WithoutStep(list, k, a);
    r := list[..k] + list[k + 1..];
  }

  lemma WithoutStep(list: seq<nat>, k: nat, a: nat)
    requires k < |list|
    ensures list[k] == a ==> Without(list[k..], a) == list[k + 1..]
    ensures list[k] != a ==> list[..k] + Without(list[k..], a) == list[..k + 1] + Without(list[k + 1..], a)
    ensures list[k] != a && a in list[k..] ==> a in list[k + 1..]
  {
    assert list[k..][1..] == list[k + 1..] && list[..k + 1] == list[..k] + [list[k]];
    assert list[k..] == [list[k]] + list[k + 1..];
  }

  lemma InItsList(s: Slab, a: nat)
    requires Inv(s) && a in s.zones && s.zones[a].nfree > 0
    ensures s.zones[a].index < |s.arrays| && a in s.arrays[s.zones[a].index]
  {
    assert ZoneOk(s.zones[a], s.zoneSize);
    ListOf(s, s.zones[a].index, a);
  }

  /** The pages of a run in use are not free, and no other run holds them. */
  lemma RunKnown(s: Slab, a: nat)
    requires Inv(s) && (a in s.zones || a in s.large)
    ensures a in s.held && Canonical(s.pages) && s.held[a] > 0
    ensures (a in s.zones ==> s.held[a] == s.zoneSize / PAGE) && (a in s.large ==> s.held[a] == s.large[a])
    ensures forall x :: a <= x < a + s.held[a] ==> !Free(s.pages, x)
    ensures forall c, x :: Holds(s.held - {a}, c, x) ==> !(a <= x < a + s.held[a])
  {
    hide ListsOk, Free, Canonical;
    forall x | a <= x < a + s.held[a]
      ensures !Free(s.pages, x)
    {
      assert Holds(s.held, a, x);
    }
    forall c, x | Holds(s.held - {a}, c, x)
      ensures !(a <= x < a + s.held[a])
    {
      assert Holds(s.held, c, x);
      assert a <= x < a + s.held[a] ==> Holds(s.held, a, x);
    }
  }

  /** What the table says of the page where a block in use starts. */
  lemma PageOf(s: Slab, usage: map<nat, Usage>, b: Block)
    requires Inv(s) && Marked(usage, s) && Live(s, b) && (b.Chunk? ==> s.zones[b.zone].size > 0)
    ensures var ptr, page := First(s, b), First(s, b) / PAGE;
            && page in usage
            && (b.Large? ==> page == b.page && usage[page] == LargePage(s.large[page]))
            && (b.Chunk? ==> usage[page].Small? && page - usage[page].k == b.zone)
            && (b.Chunk? ==> (ptr - b.zone * PAGE - Offset(s.zones[b.zone].size)) / s.zones[b.zone].size == b.i)
  {
    hide ListsOk, Pages, Uses, Offset;
    Inside(s, b);
    Known(s, b);
    if b.Chunk? {
      var size := s.zones[b.zone].size;
      InPages(First(s, b), size, b.zone, s.zoneSize / PAGE);
      MultipleOver(b.i, size);
    }
  }

  lemma InPages(ptr: nat, size: nat, a: nat, n: nat)
    requires a * PAGE <= ptr && ptr + size <= (a + n) * PAGE && size > 0
    ensures a <= ptr / PAGE < a + n
  {}

  lemma MultipleOver(i: nat, m: nat)
    requires m > 0
    ensures (i * m) / m == i
  {
    Multiple(i, m);
    var q := (i * m) / m;
    assert i * m == q * m;
    Distribute(i, q, m);
    if i - q >= 1 { AtLeast(i - q, m); }
    if q - i >= 1 { AtLeast(q - i, m); Distribute(q, i, m); }
  }
}
