/** Chunk zones over the page allocator (slab.c): zones cut into chunks of one size, and
    lists of the zones that have chunks left. */
module SlabZones {
  import opened Lists
  import opened Arith
  import opened SlabPages
  import opened SlabSizes

  /** A zone: its class, its counters, the chunks on its free list and those handed out. */
  datatype Zone = Zone(index: nat, size: nat, nmax: nat, nfree: nat, uindex: nat, freechunk: seq<nat>, live: set<nat>)

  /** Zones and large blocks by their first page; `held` are all page runs that the page
      allocator has given out. */
  datatype Slab = Slab(
    zoneSize: nat, zoneLimit: nat, pages: seq<Run>, held: map<nat, nat>,
    zones: map<nat, Zone>, arrays: seq<seq<nat>>, freeZones: seq<nat>, large: map<nat, nat>)

  ghost predicate ChunkOk(z: Zone, i: nat) {
    && (i <= z.uindex <==> i in z.live || i in z.freechunk)
    && !(i in z.live && i in z.freechunk)
  }

  /** Every chunk up to uindex is handed out or on the free list, and not both; the others
      were never used. */
  ghost predicate ZoneOk(z: Zone, zoneSize: nat) {
    && z.index < NZONES && z.size == ClassSize(z.index) && 0 < z.size <= zoneSize / 4
       && z.nmax == Room(zoneSize, z.size)
    && z.uindex < z.nmax && z.nfree == z.nmax - 1 - z.uindex + |z.freechunk|
    && Distinct(z.freechunk) && forall i: nat :: ChunkOk(z, i)
  }

  /** The list of a class holds exactly its zones with chunks left. */
  ghost predicate Listed(s: Slab, i: nat, z: nat)
    requires i < |s.arrays|
  {
    z in s.arrays[i] <==> z in s.zones && s.zones[z].index == i && s.zones[z].nfree > 0
  }

  ghost predicate ListsOk(s: Slab) {
    && |s.arrays| == NZONES && (forall i: nat :: i < NZONES ==> Distinct(s.arrays[i]))
    && forall i: nat, z: nat :: i < NZONES ==> Listed(s, i, z)
  }

  ghost predicate Holds(held: map<nat, nat>, a: nat, x: int) { a in held && a <= x < a + held[a] }

  /** No page is given out twice, or given out and free. */
  ghost predicate Pages(s: Slab) {
    && Canonical(s.pages)
    && (forall a, x :: Holds(s.held, a, x) ==> !Free(s.pages, x))
    && (forall a, b, x :: Holds(s.held, a, x) && Holds(s.held, b, x) ==> a == b)
  }

  /** Every run given out is a zone in use, a zone kept back, or a large block. */
  ghost predicate Uses(s: Slab) {
    && Distinct(s.freeZones) && |s.freeZones| <= 2
    && (forall a :: a in s.held <==> a in s.zones || a in s.freeZones || a in s.large)
    && (forall a :: a in s.zones ==> a !in s.freeZones && a !in s.large && s.held[a] == s.zoneSize / PAGE)
    && (forall a :: a in s.freeZones ==> a !in s.large && s.held[a] == s.zoneSize / PAGE)
    && (forall a :: a in s.large ==> s.held[a] == s.large[a] > 0)
  }

  /** zone_size and zone_limit as rt_system_heap_init computes them. */
  predicate Sizes(s: Slab) {
    && (s.zoneSize == 32768 || s.zoneSize == 65536 || s.zoneSize == 131072)
    && s.zoneLimit == if s.zoneSize / 4 > 16384 then 16384 else s.zoneSize / 4
  }

  ghost predicate Inv(s: Slab) {
    Sizes(s) && ListsOk(s) && Pages(s) && Uses(s) && forall z :: z in s.zones ==> ZoneOk(s.zones[z], s.zoneSize)
  }

  // ---- rt_malloc ----

  datatype Block = NoBlock | Chunk(zone: nat, i: nat) | Large(page: nat)

  datatype Got = Got(s: Slab, block: Block)

  /** The chunk that a zone with chunks left gives out next: a new one first, then the free list. */
  function NextChunk(z: Zone): nat
    requires z.uindex + 1 != z.nmax || z.freechunk != []
  {
    if z.uindex + 1 != z.nmax then z.uindex + 1 else z.freechunk[0]
  }

  function TakeChunk(z: Zone): Zone
    requires z.nfree > 0 && (z.uindex + 1 != z.nmax || z.freechunk != [])
  {
    var z1 := z.(nfree := z.nfree - 1, live := z.live + {NextChunk(z)});
    if z.uindex + 1 != z.nmax then z1.(uindex := z.uindex + 1) else z1.(freechunk := z.freechunk[1..])
  }

  function FromZone(s: Slab, i: nat): Got
    requires i < |s.arrays| && s.arrays[i] != [] && s.arrays[i][0] in s.zones
    requires var z := s.zones[s.arrays[i][0]]; z.nfree > 0 && (z.uindex + 1 != z.nmax || z.freechunk != [])
  {
    var a := s.arrays[i][0];
    var z := s.zones[a];
    Got(s.(zones := s.zones[a := TakeChunk(z)],
           arrays := if z.nfree == 1 then s.arrays[i := s.arrays[i][1..]] else s.arrays),
        Chunk(a, NextChunk(z)))
  }

  function NewZone(zoneSize: nat, i: nat, size: nat): Zone
    requires size > 0 && Room(zoneSize, size) >= 1
  {
    Zone(i, size, Room(zoneSize, size), Room(zoneSize, size) - 1, 0, [], {0})
  }

  /** A run of pages becomes a zone of class `i`, and gives out its first chunk. */
  function Found(s: Slab, a: nat, i: nat, size: nat): Got
    requires i < |s.arrays| && size > 0 && Room(s.zoneSize, size) >= 1
  {
    Got(s.(zones := s.zones[a := NewZone(s.zoneSize, i, size)], arrays := s.arrays[i := [a] + s.arrays[i]]),
      Chunk(a, 0))
  }

  function PageAlloc(s: Slab, n: nat): (Slab, Option<nat>) {
    var t := Alloc(s.pages, n);
    (if t.run.None? then s else s.(pages := t.list, held := s.held[t.run.value := n]), t.run)
  }

  /** rt_malloc of a size below zone_limit. */
  ghost function MallocSmall(s: Slab, n: nat): Got
    requires Inv(s) && 0 < n < s.zoneLimit
  {
    var c := ZoneIndex(n);
    ClassFits(s, n);
    if s.arrays[c.index] != [] then HasChunk(s, c.index); FromZone(s, c.index)
    else if s.freeZones != [] then Found(s.(freeZones := s.freeZones[1..]), s.freeZones[0], c.index, c.size)
    else
      var p := PageAlloc(s, s.zoneSize / PAGE);
      if p.1.None? then Got(s, NoBlock) else Found(p.0, p.1.value, c.index, c.size)
  }

  /** rt_malloc of a size from zone_limit on. */
  function MallocLarge(s: Slab, n: nat): Got {
    var np := Up(n, PAGE) / PAGE;
    var p := PageAlloc(s, np);
    if p.1.None? then Got(s, NoBlock) else Got(p.0.(large := s.large[p.1.value := np]), Large(p.1.value))
  }

  // ---- rt_free ----

  function PageFree(s: Slab, a: nat): Slab
    requires a in s.held
  {
    s.(pages := Release(s.pages, a, s.held[a]), held := s.held - {a})
  }

  function GiveChunk(z: Zone, i: nat): Zone {
    z.(freechunk := [i] + z.freechunk, live := z.live - {i}, nfree := z.nfree + 1)
  }

  /** The chunk goes back to its zone, and the zone to its list if it was not there. */
  function Returned(s: Slab, a: nat, i: nat): Slab
    requires a in s.zones && s.zones[a].index < |s.arrays|
  {
    var z := s.zones[a];
    s.(zones := s.zones[a := GiveChunk(z, i)],
       arrays := if z.nfree == 0 then s.arrays[z.index := [a] + s.arrays[z.index]] else s.arrays)
  }

  /** A zone without chunks in use is kept back for any class. */
  function Retired(s: Slab, a: nat): Slab
    requires a in s.zones && s.zones[a].index < |s.arrays|
  {
    var i := s.zones[a].index;
    s.(zones := s.zones - {a}, arrays := s.arrays[i := Without(s.arrays[i], a)], freeZones := [a] + s.freeZones)
  }

  /** At most two zones are kept back; one more goes to the page allocator. */
  function KeptBack(s: Slab, a: nat): Slab
    requires a in s.zones && s.zones[a].index < |s.arrays| && a in s.held
  {
    var s1 := Retired(s, a);
    if |s1.freeZones| > 2 then PageFree(s1, a).(freeZones := s1.freeZones[1..]) else s1
  }

  /** rt_free of a chunk: an empty zone that is not the only one of its class is kept back. */
  function FreeChunk(s: Slab, a: nat, i: nat): Slab
    requires a in s.zones && s.zones[a].index < |s.arrays| && a in s.held
  {
    var s1 := Returned(s, a, i);
    var z := s1.zones[a];
    if z.nfree == z.nmax && |s1.arrays[z.index]| >= 2 then KeptBack(s1, a) else s1
  }

  function FreeLarge(s: Slab, a: nat): Slab
    requires a in s.held
  {
    PageFree(s, a).(large := s.large - {a})
  }

  // ---- facts about lists, zones and pages ----

  lemma ClassFits(s: Slab, n: nat)
    requires Sizes(s) && 0 < n < s.zoneLimit
    ensures n < 16384
    ensures var c := ZoneIndex(n);
            && 0 <= c.index < NZONES && c.size == ClassSize(c.index) && 0 < n <= c.size <= s.zoneSize / 4
            && Room(s.zoneSize, c.size) >= 2
  {
    BestClass(n, 0);
    RoomForTwo(s.zoneSize, ZoneIndex(n).size);
  }

  /** A zone with chunks left has a new one or one on its free list. */
  lemma HasChunk(s: Slab, i: nat)
    requires Inv(s) && i < NZONES && s.arrays[i] != []
    ensures var a := s.arrays[i][0];
            a in s.zones && s.zones[a].index == i && s.zones[a].nfree > 0
              && (s.zones[a].uindex + 1 != s.zones[a].nmax || s.zones[a].freechunk != [])
  {
    var a := s.arrays[i][0];
    assert a in s.arrays[i] && Listed(s, i, a);
    assert ZoneOk(s.zones[a], s.zoneSize);
  }

  lemma TakeOk(z: Zone, zoneSize: nat)
    requires ZoneOk(z, zoneSize) && z.nfree > 0 && (z.uindex + 1 != z.nmax || z.freechunk != [])
    ensures ZoneOk(TakeChunk(z), zoneSize) && NextChunk(z) !in z.live && NextChunk(z) < z.nmax
  {
    var z', k := TakeChunk(z), NextChunk(z);
    if z.uindex + 1 == z.nmax {
      TailDistinct(z.freechunk);
      assert k in z.freechunk;
    }
    assert ChunkOk(z, k);
    forall i: nat
      ensures ChunkOk(z', i)
    {
      assert ChunkOk(z, i);
    }
  }

  lemma GiveOk(z: Zone, zoneSize: nat, i: nat)
    requires ZoneOk(z, zoneSize) && i in z.live
    ensures ZoneOk(GiveChunk(z, i), zoneSize) && GiveChunk(z, i).nfree <= z.nmax
  {
    var z' := GiveChunk(z, i);
    assert ChunkOk(z, i);
    PrependDistinct(i, z.freechunk);
    forall j: nat
      ensures ChunkOk(z', j)
    {
      assert ChunkOk(z, j);
    }
    DistinctBound(z'.freechunk, z.uindex + 1) by {
      forall j | j in z'.freechunk ensures j < z.uindex + 1 { assert ChunkOk(z', j); }
    }
  }

  /** Distinct numbers below `n` are at most `n`. */
  lemma {:induction false} DistinctBound(q: seq<nat>, n: nat)
    requires Distinct(q) && forall x :: x in q ==> x < n
    ensures |q| <= n
    decreases n
  {
    if q != [] {
      assert q[0] in q;
      var last: nat := n - 1;
      if last in q {
        WithoutMember(q, last);
        WithoutLength(q, last);
        DistinctBound(Without(q, last), last);
      } else {
        DistinctBound(q, last);
      }
    }
  }

  lemma NewOk(zoneSize: nat, i: nat, size: nat)
    requires i < NZONES && size == ClassSize(i) && 0 < size <= zoneSize / 4 && Room(zoneSize, size) >= 2
    ensures ZoneOk(NewZone(zoneSize, i, size), zoneSize) && NewZone(zoneSize, i, size).nfree > 0
  {
    var z := NewZone(zoneSize, i, size);
    assert forall j: nat :: ChunkOk(z, j);
  }

  // ---- every step keeps the invariant ----

  /** One zone and the list of its class change. */
  lemma ListsChange(s: Slab, s': Slab, i: nat, a: nat, q: seq<nat>)
    requires ListsOk(s) && i < NZONES && s'.arrays == s.arrays[i := q] && Distinct(q)
    requires forall z :: z != a ==> (z in s'.zones <==> z in s.zones) && (z in s.zones ==> s'.zones[z] == s.zones[z])
    requires forall z :: z != a ==> (z in q <==> z in s.arrays[i])
    requires (a in s.zones ==> s.zones[a].index == i) && (a in s'.zones ==> s'.zones[a].index == i)
    requires a in q <==> a in s'.zones && s'.zones[a].nfree > 0
    ensures ListsOk(s')
  {
    hide Distinct;
    forall j: nat, z: nat | j < NZONES
      ensures Listed(s', j, z)
    {
      assert Listed(s, j, z);
    }
  }

  lemma ListOf(s: Slab, i: nat, a: nat)
    requires ListsOk(s) && i < NZONES
    ensures |s.arrays| == NZONES && Distinct(s.arrays[i]) && s.arrays[i := s.arrays[i]] == s.arrays
    ensures a in s.arrays[i] <==> a in s.zones && s.zones[a].index == i && s.zones[a].nfree > 0
  {
    assert Listed(s, i, a);
  }

  lemma SameUses(s: Slab, s': Slab)
    requires Uses(s) && Pages(s) && s'.zones.Keys == s.zones.Keys && s'.held == s.held && s'.freeZones == s.freeZones
             && s'.large == s.large
    requires s'.zoneSize == s.zoneSize && s'.pages == s.pages
    ensures Uses(s') && Pages(s')
  {
    hide Distinct, Free, Canonical;
  }

  lemma FromZoneInv(s: Slab, i: nat)
    requires Inv(s) && i < NZONES && s.arrays[i] != []
    ensures |s.arrays| == NZONES && s.arrays[i][0] in s.zones && s.zones[s.arrays[i][0]].nfree > 0
    ensures (var z := s.zones[s.arrays[i][0]]; z.uindex + 1 != z.nmax || z.freechunk != []) && Inv(FromZone(s, i).s)
  {
    HasChunk(s, i);
    var a, s' := s.arrays[i][0], FromZone(s, i).s;
    TakeOk(s.zones[a], s.zoneSize);
    hide ZoneOk, Distinct, Free, Canonical, ListsOk, Uses, Pages;
    ListOf(s, i, a);
    TailDistinct(s.arrays[i]);
    SameUses(s, s');
    ListsChange(s, s', i, a, if s.zones[a].nfree == 1 then s.arrays[i][1..] else s.arrays[i]);
  }

  /** A run that nobody uses yet becomes a zone. */
  lemma FoundInv(s: Slab, a: nat, i: nat, size: nat)
    requires Sizes(s) && ListsOk(s) && Pages(s) && (forall z :: z in s.zones ==> ZoneOk(s.zones[z], s.zoneSize))
    requires i < NZONES && size == ClassSize(i) && 0 < size <= s.zoneSize / 4 && Room(s.zoneSize, size) >= 2
    requires a !in s.zones && Uses(s.(large := s.large[a := s.zoneSize / PAGE])) && a !in s.large && a !in s.freeZones
    ensures Inv(Found(s, a, i, size).s)
  {
    hide ZoneOk, Distinct, Free, Canonical, ListsOk, Room, ClassSize;
    ListOf(s, i, a);
    var s' := Found(s, a, i, size).s;
    NewOk(s.zoneSize, i, size);
    PrependDistinct(a, s.arrays[i]);
    ListsChange(s, s', i, a, [a] + s.arrays[i]);
    FoundUses(s, a, NewZone(s.zoneSize, i, size), s');
  }

  lemma FoundUses(s: Slab, a: nat, z: Zone, s': Slab)
    requires a !in s.zones && Uses(s.(large := s.large[a := s.zoneSize / PAGE])) && a !in s.large && a !in s.freeZones
    requires s'.zones == s.zones[a := z] && s'.held == s.held && s'.freeZones == s.freeZones && s'.large == s.large
             && s'.zoneSize == s.zoneSize
    ensures Uses(s')
  {
    hide Distinct;
    var l := s.large[a := s.zoneSize / PAGE];
    assert forall b :: b in l <==> b == a || b in s.large;
    assert forall b :: b in s.large ==> l[b] == s.large[b];
  }

  lemma PageAllocFacts(s: Slab, n: nat)
    requires Pages(s) && (forall a :: a in s.held ==> s.held[a] > 0)
    ensures var p := PageAlloc(s, n);
            && Pages(p.0) && (p.1.Some? ==> n > 0 && p.1.value !in s.held && p.0.held == s.held[p.1.value := n])
  {
    var p := PageAlloc(s, n);
    AllocFacts(s.pages, n);
    hide Free, Canonical;
    if p.1.Some? {
      var a := p.1.value;
      assert Free(s.pages, a);
      assert !Holds(s.held, a, a);
      forall b, x | Holds(p.0.held, b, x)
        ensures b != a ==> Holds(s.held, b, x) && !(a <= x < a + n)
        ensures !Free(p.0.pages, x)
      {
        if b != a {
          assert Holds(s.held, b, x);
          assert a <= x < a + n ==> Free(s.pages, x);
        }
      }
    }
  }

  lemma PageFreeFacts(s: Slab, a: nat)
    requires Pages(s) && a in s.held && s.held[a] > 0
    ensures Pages(PageFree(s, a))
  {
    var s' := PageFree(s, a);
    forall x | a <= x < a + s.held[a]
      ensures !Free(s.pages, x)
    {
      assert Holds(s.held, a, x);
    }
    ReleaseFacts(s.pages, a, s.held[a]);
    hide Free, Canonical, Release;
    forall b, x | Holds(s'.held, b, x)
      ensures Holds(s.held, b, x) && !Free(s'.pages, x)
    {
      assert Holds(s.held, b, x);
      assert a <= x < a + s.held[a] ==> Holds(s.held, a, x);
    }
  }

  lemma Positive(s: Slab)
    requires Uses(s) && Sizes(s)
    ensures forall a :: a in s.held ==> s.held[a] > 0
  {}

  lemma MallocSmallInv(s: Slab, n: nat)
    requires Inv(s) && 0 < n < s.zoneLimit
    ensures Inv(MallocSmall(s, n).s)
  {
    hide ListsOk, ZoneOk, ZoneIndex, Room, Free, Canonical;
    var c := (ClassFits(s, n); ZoneIndex(n));
    assert |s.arrays| == NZONES by { Arrays(s); }
    if s.arrays[c.index] != [] {
      FromZoneInv(s, c.index);
    } else if s.freeZones != [] {
      assert Distinct(s.freeZones);
      TailDistinct(s.freeZones);
      FreeZoneUses(s);
      var s1 := s.(freeZones := s.freeZones[1..]);
      SameLists(s, s1);
      FoundInv(s1, s.freeZones[0], c.index, c.size);
    } else {
      Positive(s);
      PageAllocFacts(s, s.zoneSize / PAGE);
      var p := PageAlloc(s, s.zoneSize / PAGE);
      if p.1.Some? {
        SameLists(s, p.0);
        FoundInv(p.0, p.1.value, c.index, c.size);
      }
    }
  }

  lemma Arrays(s: Slab)
    requires ListsOk(s)
    ensures |s.arrays| == NZONES
  {}

  lemma SameLists(s: Slab, s': Slab)
    requires ListsOk(s) && s'.arrays == s.arrays && s'.zones == s.zones
    ensures ListsOk(s')
  {
    forall j: nat, z: nat | j < NZONES
      ensures Listed(s', j, z)
    {
      assert Listed(s, j, z);
    }
  }

  lemma FreeZoneUses(s: Slab)
    requires Uses(s) && s.freeZones != [] && s.zoneSize >= PAGE
    ensures var a, s1 := s.freeZones[0], s.(freeZones := s.freeZones[1..]);
            && Uses(s1.(large := s.large[a := s.zoneSize / PAGE])) && a !in s.large && a !in s.zones
               && a !in s1.freeZones
  {
    TailDistinct(s.freeZones);
    assert s.freeZones[0] in s.freeZones;
  }

  lemma MallocLargeInv(s: Slab, n: nat)
    requires Inv(s)
    ensures Inv(MallocLarge(s, n).s)
  {
    hide ListsOk, ZoneOk, Free, Canonical, Up;
    Positive(s);
    PageAllocFacts(s, Up(n, PAGE) / PAGE);
    SameLists(s, MallocLarge(s, n).s);
  }

  lemma FreeLargeInv(s: Slab, a: nat)
    requires Inv(s) && a in s.large
    ensures Inv(FreeLarge(s, a))
  {
    hide ListsOk, ZoneOk, Free, Canonical;
    PageFreeFacts(s, a);
    SameLists(s, FreeLarge(s, a));
  }

  lemma ReturnedInv(s: Slab, a: nat, i: nat)
    requires Inv(s) && a in s.zones && i in s.zones[a].live
    ensures |s.arrays| == NZONES && s.zones[a].index < NZONES && Inv(Returned(s, a, i))
    ensures var z := Returned(s, a, i).zones[a]; 0 < z.nfree <= z.nmax
  {
    assert ZoneOk(s.zones[a], s.zoneSize);
    GiveOk(s.zones[a], s.zoneSize, i);
    hide Distinct, Free, Canonical, ListsOk, ZoneOk, Uses, Pages;
    var k, s' := s.zones[a].index, Returned(s, a, i);
    ListOf(s, k, a);
    SameUses(s, s');
    if s.zones[a].nfree == 0 { PrependDistinct(a, s.arrays[k]); }
    ListsChange(s, s', k, a, if s.zones[a].nfree == 0 then [a] + s.arrays[k] else s.arrays[k]);
  }

  /** A zone taken out of use; `Uses` counts it among the zones kept back. */
  lemma RetiredFacts(s: Slab, a: nat)
    requires Inv(s) && a in s.zones
    ensures |s.arrays| == NZONES && s.zones[a].index < NZONES
    ensures var s' := Retired(s, a);
            && ListsOk(s') && Pages(s') && Sizes(s') && (forall z :: z in s'.zones ==> ZoneOk(s'.zones[z], s.zoneSize))
            && Distinct(s'.freeZones) && |s'.freeZones| == |s.freeZones| + 1 && a in s'.held && s'.held[a] > 0
            && (|s'.freeZones| <= 2 ==> Uses(s'))
            && (|s'.freeZones| > 2 ==> Uses(PageFree(s', a).(freeZones := s'.freeZones[1..])))
  {
    assert ZoneOk(s.zones[a], s.zoneSize);
    hide ZoneOk, Free, Canonical, Distinct, ListsOk, Pages, Uses;
    var k, s' := s.zones[a].index, Retired(s, a);
    ListOf(s, k, a);
    WithoutMember(s.arrays[k], a);
    ListsChange(s, s', k, a, Without(s.arrays[k], a));
    SamePages(s, s');
    RetiredUses(s, a, s');
  }

  lemma RetiredUses(s: Slab, a: nat, s': Slab)
    requires Uses(s) && Sizes(s) && a in s.zones
    requires s'.zones == s.zones - {a} && s'.held == s.held && s'.freeZones == [a] + s.freeZones
             && s'.large == s.large && s'.zoneSize == s.zoneSize
    ensures Distinct(s'.freeZones) && a in s'.held && s'.held[a] > 0
    ensures |s'.freeZones| <= 2 ==> Uses(s')
    ensures |s'.freeZones| > 2 ==> Uses(PageFree(s', a).(freeZones := s'.freeZones[1..]))
  {
    hide Distinct, Release;
    PrependDistinct(a, s.freeZones);
    if |s'.freeZones| > 2 {
      assert s'.freeZones[1..] == s.freeZones;
      ReleasedUses(s, a, PageFree(s', a).(freeZones := s'.freeZones[1..]));
    }
  }

  lemma ReleasedUses(s: Slab, a: nat, s': Slab)
    requires Uses(s) && a in s.zones
    requires s'.zones == s.zones - {a} && s'.held == s.held - {a} && s'.freeZones == s.freeZones
             && s'.large == s.large && s'.zoneSize == s.zoneSize
    ensures Uses(s')
  {
    hide Distinct;
  }

  lemma SamePages(s: Slab, s': Slab)
    requires Pages(s) && s'.pages == s.pages && s'.held == s.held
    ensures Pages(s')
  {}

  lemma KeptBackInv(s: Slab, a: nat)
    requires Inv(s) && a in s.zones
    ensures |s.arrays| == NZONES && s.zones[a].index < NZONES && a in s.held && Inv(KeptBack(s, a))
  {
    hide ListsOk, ZoneOk, Free, Canonical;
    RetiredFacts(s, a);
    var s1 := Retired(s, a);
    PageFreeFacts(s1, a);
    SameLists(s1, PageFree(s1, a).(freeZones := s1.freeZones[1..]));
  }

  lemma FreeChunkInv(s: Slab, a: nat, i: nat)
    requires Inv(s) && a in s.zones && i in s.zones[a].live
    ensures |s.arrays| == NZONES && s.zones[a].index < NZONES && a in s.held && Inv(FreeChunk(s, a, i))
  {
    hide Inv, KeptBack;
    ReturnedInv(s, a, i);
    KeptBackInv(Returned(s, a, i), a);
  }

  // ---- the blocks in use ----

  ghost predicate Live(s: Slab, b: Block) {
    match b
    case NoBlock => false
    case Chunk(a, i) => a in s.zones && i in s.zones[a].live
    case Large(a) => a in s.large
  }

  /** The bytes of a block in use: first address and length. */
  ghost function First(s: Slab, b: Block): nat
    requires Live(s, b) && (b.Chunk? ==> s.zones[b.zone].size > 0)
  {
    if b.Large? then b.page * PAGE else b.zone * PAGE + Offset(s.zones[b.zone].size) + b.i * s.zones[b.zone].size
  }

  ghost function Length(s: Slab, b: Block): nat
    requires Live(s, b)
  {
    if b.Large? then s.large[b.page] * PAGE else s.zones[b.zone].size
  }

  ghost function Owner(b: Block): nat
    requires !b.NoBlock?
  {
    if b.Large? then b.page else b.zone
  }

  lemma Known(s: Slab, b: Block)
    requires Inv(s) && Live(s, b)
    ensures b.Chunk? ==> ZoneOk(s.zones[b.zone], s.zoneSize) && b.i < s.zones[b.zone].nmax
    ensures Owner(b) in s.held && s.held[Owner(b)] > 0
            && s.held[Owner(b)] == if b.Chunk? then s.zoneSize / PAGE else s.large[b.page]
  {
    hide ListsOk, Pages;
    if b.Chunk? {
      assert ZoneOk(s.zones[b.zone], s.zoneSize);
      assert ChunkOk(s.zones[b.zone], b.i);
    }
  }

  /** A block lies in the pages of its run. */
  lemma Inside(s: Slab, b: Block)
    requires Inv(s) && Live(s, b)
    ensures Owner(b) in s.held && (b.Chunk? ==> s.zones[b.zone].size > 0)
    ensures Owner(b) * PAGE <= First(s, b) && First(s, b) + Length(s, b) <= (Owner(b) + s.held[Owner(b)]) * PAGE
  {
    hide ListsOk, Pages, Uses, Offset, Room, ZoneOk;
    Known(s, b);
    if b.Chunk? {
      var z := s.zones[b.zone];
      ZoneLayout(z, s.zoneSize);
      RoomForTwo(s.zoneSize, z.size);
      ChunkInside(b.zone, Offset(z.size), b.i, z.nmax, z.size, s.zoneSize);
    }
  }

  lemma ZoneLayout(z: Zone, zoneSize: nat)
    requires ZoneOk(z, zoneSize)
    ensures 0 < z.size <= zoneSize / 4 && z.nmax == Room(zoneSize, z.size)
  {}

  lemma ChunkInside(a: nat, off: nat, i: nat, n: nat, size: nat, zoneSize: nat)
    requires i < n && off + n * size <= zoneSize && zoneSize / PAGE * PAGE == zoneSize
    ensures a * PAGE + off + i * size + size <= (a + zoneSize / PAGE) * PAGE
  {
    Below(i, n, size);
  }

  lemma {:induction false} Below(i: nat, n: nat, size: nat)
    requires i < n
    ensures i * size + size <= n * size
  {
    Next(n - 1, size);
    if i < n - 1 { Below(i, n - 1, size); }
  }

  lemma Next(k: nat, d: nat)
    ensures (k + 1) * d == k * d + d
  {}

  lemma RunsApart(s: Slab, a: nat, b: nat)
    requires Pages(s) && a in s.held && b in s.held && a < b && s.held[b] > 0
    ensures a + s.held[a] <= b
  {
    hide Free, Canonical;
    assert Holds(s.held, b, b);
    assert b < a + s.held[a] ==> Holds(s.held, a, b);
  }

  /** No two blocks in use overlap. */
  lemma NoOverlap(s: Slab, b: Block, c: Block)
    requires Inv(s) && Live(s, b) && Live(s, c) && b != c
    ensures b.Chunk? ==> s.zones[b.zone].size > 0
    ensures c.Chunk? ==> s.zones[c.zone].size > 0
    ensures First(s, b) + Length(s, b) <= First(s, c) || First(s, c) + Length(s, c) <= First(s, b)
  {
    hide ListsOk, ZoneOk, Offset;
    Inside(s, b);
    Inside(s, c);
    Known(s, b);
    Known(s, c);
    var p, q := Owner(b), Owner(c);
    if p < q {
      RunsApart(s, p, q);
    } else if q < p {
      RunsApart(s, q, p);
    } else {
      assert b.Chunk? && c.Chunk?;
      var size := s.zones[p].size;
      if b.i < c.i { Below(b.i, c.i, size); } else { Below(c.i, b.i, size); }
    }
  }

  /** rt_malloc gives out a block that was not in use and is large enough, and disturbs no other. */
  lemma MallocGives(s: Slab, n: nat, b: Block)
    requires Inv(s) && 0 < n < s.zoneLimit
    ensures var g := MallocSmall(s, n);
            && (Live(g.s, b) <==> Live(s, b) || (b == g.block && !b.NoBlock?))
            && !Live(s, g.block) && (Live(g.s, g.block) ==> Length(g.s, g.block) >= n)
            && (Live(s, b) && Live(g.s, b) ==> Length(g.s, b) == Length(s, b))
  {
    hide Pages, ListsOk, ZoneOk, ZoneIndex, Room, Alloc, Distinct;
    var c := (ClassFits(s, n); ZoneIndex(n));
    Arrays(s);
    if s.arrays[c.index] != [] {
      HasChunk(s, c.index);
      var a := s.arrays[c.index][0];
      assert ZoneOk(s.zones[a], s.zoneSize);
      TakeOk(s.zones[a], s.zoneSize);
      ZoneSize(s.zones[a], s.zoneSize);
    } else if s.freeZones != [] {
      assert s.freeZones[0] in s.freeZones;
    } else {
      Positive(s);
      PageAllocFacts(s, s.zoneSize / PAGE);
    }
  }

  lemma ZoneSize(z: Zone, zoneSize: nat)
    requires ZoneOk(z, zoneSize)
    ensures z.index < NZONES && z.size == ClassSize(z.index)
  {}

  /** A zone all of whose chunks are free has none in use. */
  lemma NoneLive(z: Zone, zoneSize: nat, i: nat)
    requires ZoneOk(z, zoneSize) && z.nfree == z.nmax
    ensures i !in z.live
  {
    assert ChunkOk(z, i);
    if i in z.live {
      var q := [i] + z.freechunk;
      PrependDistinct(i, z.freechunk);
      forall j | j in q
        ensures j < z.uindex + 1
      {
        assert ChunkOk(z, j);
      }
      DistinctBound(q, z.uindex + 1);
    }
  }

  /** rt_free takes exactly the block it is given out of use. */
  lemma FreeTakes(s: Slab, a: nat, i: nat, b: Block)
    requires Inv(s) && a in s.zones && i in s.zones[a].live
    ensures |s.arrays| == NZONES && s.zones[a].index < NZONES && a in s.held
    ensures Live(FreeChunk(s, a, i), b) <==> Live(s, b) && b != Chunk(a, i)
  {
    hide ListsOk, Pages, Uses, ZoneOk, Distinct, Release, Free;
    FreeChunkInv(s, a, i);
    ReturnedInv(s, a, i);
    var s1 := Returned(s, a, i);
    if s1.zones[a].nfree == s1.zones[a].nmax && b.Chunk? && b.zone == a { NoneLive(s1.zones[a], s.zoneSize, b.i); }
  }

  // ---- runs ----

  datatype Step = MallocStep(n: nat) | FreeChunkStep(a: nat, i: nat) | FreeLargeStep(a: nat)

  ghost predicate Enabled(s: Slab, step: Step) {
    match step
    case MallocStep(_) => true
    case FreeChunkStep(a, i) => a in s.zones && i in s.zones[a].live
    case FreeLargeStep(a) => a in s.large
  }

  /** rt_malloc */
  ghost function Malloc(s: Slab, n: nat): Got
    requires Inv(s)
  {
    if n == 0 then Got(s, NoBlock) else if n >= s.zoneLimit then MallocLarge(s, n) else MallocSmall(s, n)
  }

  ghost function Do(s: Slab, step: Step): Slab
    requires Inv(s) && Enabled(s, step)
  {
    match step
    case MallocStep(n) => Malloc(s, n).s
    case FreeChunkStep(a, i) => FreeChunkInv(s, a, i); FreeChunk(s, a, i)
    case FreeLargeStep(a) => FreeLarge(s, a)
  }

  lemma StepInv(s: Slab, step: Step)
    requires Inv(s) && Enabled(s, step)
    ensures Inv(Do(s, step))
  {
    match step
    case MallocStep(n) => MallocInv(s, n);
    case FreeChunkStep(a, i) => FreeChunkInv(s, a, i);
    case FreeLargeStep(a) => FreeLargeInv(s, a);
  }

  lemma MallocInv(s: Slab, n: nat)
    requires Inv(s)
    ensures Inv(Malloc(s, n).s)
  {
    hide Inv, MallocSmall, MallocLarge;
    if n >= s.zoneLimit { MallocLargeInv(s, n); } else if n > 0 { MallocSmallInv(s, n); }
  }

  /** After rt_system_heap_init: free pages and nothing else. */
  ghost predicate Initial(s: Slab) {
    && Sizes(s) && Canonical(s.pages) && s.held == map[] && s.zones == map[] && s.freeZones == [] && s.large == map[]
    && |s.arrays| == NZONES && forall i :: 0 <= i < NZONES ==> s.arrays[i] == []
  }

  ghost predicate Moves(ss: seq<Slab>, steps: seq<Step>, i: int)
    requires |ss| == |steps| + 1 && 0 <= i < |steps|
  {
    Inv(ss[i]) ==> Enabled(ss[i], steps[i]) && ss[i + 1] == Do(ss[i], steps[i])
  }

  ghost predicate IsRun(ss: seq<Slab>, steps: seq<Step>) {
    && |ss| == |steps| + 1 && Initial(ss[0])
    && forall i {:trigger Moves(ss, steps, i)} :: 0 <= i < |steps| ==> Moves(ss, steps, i)
  }

  lemma {:induction false} RunInv(ss: seq<Slab>, steps: seq<Step>, n: nat)
    requires IsRun(ss, steps) && n < |ss|
    ensures Inv(ss[n])
  {
    hide Inv, Do, Enabled;
    if n == 0 {
      InitInv(ss[0]);
    } else {
      RunInv(ss, steps, n - 1);
      assert Moves(ss, steps, n - 1);
      StepInv(ss[n - 1], steps[n - 1]);
    }
  }

  lemma InitInv(s: Slab)
    requires Initial(s)
    ensures Inv(s)
  {
    forall i: nat, z: nat | i < NZONES
      ensures Listed(s, i, z)
    {}
  }

  // ---- alignment ----

  /** A chunk is aligned to its size, and to every divisor of it, exactly when its zone is. */
  lemma ChunkAligned(a: nat, i: nat, size: nat, n: nat)
    requires PowerOf2(size) && n > 0 && size % n == 0
    ensures (a * PAGE + Offset(size) + i * size) % n == a * PAGE % n
  {
    assert size > 0;
    hide Up, PowerOf2;
    UpBounds(ZONE_HEADER, size);
    ShiftAligned(a * PAGE, Offset(size), i, size, n);
  }

  lemma ShiftAligned(x: nat, off: nat, i: nat, size: nat, n: nat)
    requires n > 0 && size > 0 && size % n == 0 && off % size == 0
    ensures (x + off + i * size) % n == x % n
  {
    var k := off / size;
    assert off == k * size;
    SkipMultiple(x, k, size, n);
    SkipMultiple(x + off, i, size, n);
  }

  lemma SkipMultiple(x: nat, i: nat, size: nat, n: nat)
    requires n > 0 && size % n == 0
    ensures (x + i * size) % n == x % n
  {
    var k := size / n;
    Associate(i, k, n);
    AddMultiple(x, i * k, n);
  }

  lemma Associate(a: nat, b: nat, c: nat)
    ensures a * (b * c) == (a * b) * c
  {}

  lemma AddMultiple(x: nat, k: nat, m: nat)
    requires m > 0
    ensures (x + k * m) % m == x % m
  {
    var q, r := x / m, x % m;
    assert x + k * m == (q + k) * m + r by { Distribute(q + k, k, m); }
    DivModUnique(x + k * m, m, q + k, r);
  }

  /** The powers of two that zones serve. */
  lemma {:induction false} SmallPowers(n: nat)
    requires PowerOf2(n) && n < 16384
    ensures n in {1, 2, 4, 8, 16, 32, 64, 128, 256, 512, 1024, 2048, 4096, 8192}
  {
    if n > 1 { SmallPowers(n / 2); }
  }

  /** A power of two is served from chunks of its own size, or of 8 bytes if it is smaller. */
  lemma ClassOfPower(n: nat)
    requires PowerOf2(n) && n < 16384
    ensures var size := ZoneIndex(n).size; PowerOf2(size) && size % n == 0
  {
    SmallPowers(n);
    assert PowerOf2(8);
    assert ZoneIndex(n).size == if n < 8 then 8 else n;
  }

  /** A power of two divides the page size or is a multiple of it. */
  lemma {:induction false} PowerOfPage(n: nat)
    requires PowerOf2(n)
    ensures n > 0 && if n <= PAGE then PAGE % n == 0 else n % PAGE == 0
  {
    if n <= PAGE {
      SmallPowers(n);
      DividePage(n);
    } else {
      var m := n / 2;
      assert n == 2 * m && PowerOf2(m);
      hide PowerOf2;
      if m <= PAGE { SmallPowers(m); } else { PowerOfPage(m); }
      SkipMultiple(0, 2, m, PAGE);
    }
  }

  lemma DividePage(n: nat)
    requires n in {1, 2, 4, 8, 16, 32, 64, 128, 256, 512, 1024, 2048, 4096}
    ensures PAGE % n == 0
  {}

  lemma PageAligned(a: nat, n: nat)
    requires PowerOf2(n)
    ensures a * PAGE % n == 0 <==> n <= PAGE || a % (n / PAGE) == 0
  {
    PowerOfPage(n);
    PageCase(a, n, PAGE);
  }

  lemma PageCase(a: nat, n: nat, page: nat)
    requires page > 0 && n > 0 && if n <= page then page % n == 0 else n % page == 0
    ensures n > page ==> n / page > 0
    ensures a * page % n == 0 <==> n <= page || a % (n / page) == 0
  {
    if n <= page {
      SkipMultiple(0, a, page, n);
    } else {
      var k := n / page;
      assert n == k * page;
      PageOfMany(a, k, page);
    }
  }

  lemma PageOfMany(a: nat, k: nat, page: nat)
    requires k > 0 && page > 0
    ensures k * page > 0 && (a * page % (k * page) == 0 <==> a % k == 0)
  {
    var q, r := a / k, a % k;
    AtLeast(k, page);
    Distribute(k, r, page);
    AtLeast(k - r, page);
    assert a * page == q * (k * page) + r * page by {
      Associate(q, k, page);
      Distribute(a, q * k, page);
    }
    DivModUnique(a * page, k * page, q, r * page);
    if r > 0 { AtLeast(r, page); }
  }

  /** The page rt_malloc will serve a request from: the first zone of the class that has
      chunks left, else a zone kept back, else free pages. */
  ghost function PageFor(s: Slab, n: nat): Option<nat>
    requires Inv(s)
  {
    if n == 0 then None
    else if n >= s.zoneLimit then Alloc(s.pages, Up(n, PAGE) / PAGE).run
    else
      ClassFits(s, n);
      var i := ZoneIndex(n).index;
      if s.arrays[i] != [] then Some(s.arrays[i][0])
      else if s.freeZones != [] then Some(s.freeZones[0])
      else Alloc(s.pages, s.zoneSize / PAGE).run
  }

  /** The block comes from that page, and a chunk is of the class of the request. */
  lemma ServedFrom(s: Slab, n: nat)
    requires Inv(s)
    ensures var g := Malloc(s, n);
            && (g.block.NoBlock? <==> PageFor(s, n).None?)
            && (!g.block.NoBlock? ==> Live(g.s, g.block) && Some(Owner(g.block)) == PageFor(s, n))
            && (g.block.Chunk? ==> 0 < n < 16384 && g.s.zones[g.block.zone].size == ZoneIndex(n).size > 0)
  {
    hide Pages, ListsOk, ZoneOk, ZoneIndex, Room, Alloc, Distinct;
    if 0 < n < s.zoneLimit {
      MallocGives(s, n, MallocSmall(s, n).block);
      ClassFits(s, n);
      Arrays(s);
      var i := ZoneIndex(n).index;
      if s.arrays[i] != [] {
        HasChunk(s, i);
        ZoneSize(s.zones[s.arrays[i][0]], s.zoneSize);
      }
    }
  }

  /** Power-of-two requests: the block is aligned to its size exactly when the page it is
      served from is. That is always so up to the page size. */
  lemma MallocAligned(s: Slab, n: nat)
    requires Inv(s) && PowerOf2(n)
    ensures var g := Malloc(s, n);
            && (g.block.NoBlock? <==> PageFor(s, n).None?)
            && (!g.block.NoBlock? ==>
              && Live(g.s, g.block) && (g.block.Chunk? ==> g.s.zones[g.block.zone].size > 0)
              && (First(g.s, g.block) % n == 0 <==> n <= PAGE || PageFor(s, n).value % (n / PAGE) == 0))
  {
    hide Inv, Malloc, PageFor, ZoneIndex, Offset, PowerOf2;
    ServedFrom(s, n);
    var g := Malloc(s, n);
    if !g.block.NoBlock? { PageAligned(PageFor(s, n).value, n); }
    if g.block.Chunk? {
      ClassOfPower(n);
      ChunkAligned(g.block.zone, g.block.i, ZoneIndex(n).size, n);
    }
  }

  /** A new slab whose free pages start at page `a`. */
  function Fresh(zoneSize: nat, a: nat, n: nat): Slab {
    var limit := if zoneSize / 4 > 16384 then 16384 else zoneSize / 4;
    Slab(zoneSize, limit, [Run(a, n)], map[], map[], seq(NZONES, _ => []), [], map[])
  }

  lemma FreshInv(zoneSize: nat, a: nat, n: nat)
    requires n > 0 && (zoneSize == 32768 || zoneSize == 65536 || zoneSize == 131072)
    ensures Initial(Fresh(zoneSize, a, n)) && Inv(Fresh(zoneSize, a, n))
  {
    InitInv(Fresh(zoneSize, a, n));
  }

  /** With an odd first page, 8192 bytes are not aligned to 8192: as a large block where
      zone_limit is 8192, and as a chunk where it is more. */
  lemma NotAligned(zoneSize: nat)
    requires zoneSize == 32768 || zoneSize == 65536
    ensures var s := OddSlab(zoneSize);
            && Initial(s) && Inv(s)
            && var g := Malloc(s, 8192);
            && !g.block.NoBlock? && Owner(g.block) == 1 && (g.block.Large? <==> zoneSize == 32768)
            && Live(g.s, g.block) && (g.block.Chunk? ==> g.s.zones[g.block.zone].size > 0)
            && First(g.s, g.block) % 8192 != 0
  {
    var s := OddSlab(zoneSize);
    FreshPage(zoneSize);
    Power8192();
    ServedFrom(s, 8192);
    MallocAligned(s, 8192);
    LargeFrom(s, 8192);
    hide *;
    assert PageFor(s, 8192) == Some(1);
    assert 1 % (8192 / PAGE) != 0;
  }

  /** A heap of 40 or of 80 megabytes, for which zone_size is 32768 or 65536. */
  function OddSlab(zoneSize: nat): Slab { Fresh(zoneSize, 1, if zoneSize == 32768 then 10000 else 20000) }

  lemma LargeFrom(s: Slab, n: nat)
    requires Inv(s) && !Malloc(s, n).block.NoBlock?
    ensures Malloc(s, n).block.Large? <==> n >= s.zoneLimit
  {
    hide Inv, Alloc, ZoneIndex, Room;
    if 0 < n < s.zoneLimit { ClassFits(s, n) by { InvSizes(s); } }
  }

  lemma InvSizes(s: Slab)
    requires Inv(s)
    ensures Sizes(s)
  {}

  lemma FreshPage(zoneSize: nat)
    requires zoneSize == 32768 || zoneSize == 65536
    ensures Initial(OddSlab(zoneSize)) && Inv(OddSlab(zoneSize)) && PageFor(OddSlab(zoneSize), 8192) == Some(1)
    ensures 8192 >= OddSlab(zoneSize).zoneLimit <==> zoneSize == 32768
  {
    FreshInv(zoneSize, 1, if zoneSize == 32768 then 10000 else 20000);
    hide Inv, Initial;
    assert ZoneIndex(8192).index == 63;
  }

  lemma Power8192()
    ensures PowerOf2(8192)
  {
    assert PowerOf2(64);
    assert PowerOf2(1024);
  }

  // ---- exactly what a call does ----

  /** A large block has the fewest pages that hold it, and exactly it joins those in use. */
  lemma LargeGives(s: Slab, n: nat, b: Block)
    requires Inv(s) && n >= s.zoneLimit
    ensures var g := Malloc(s, n);
            && !g.block.Chunk? && (Live(g.s, b) <==> Live(s, b) || (b == g.block && !b.NoBlock?))
            && !Live(s, g.block) && (g.block.Large? ==> Live(g.s, g.block) && n <= Length(g.s, g.block) < n + PAGE)
            && (Live(s, b) && Live(g.s, b) ==> Length(g.s, b) == Length(s, b))
  {
    hide ListsOk, ZoneOk, Alloc, Distinct, Up, Pages;
    assert n > 0 by { InvSizes(s); }
    Positive(s);
    PageAllocFacts(s, Up(n, PAGE) / PAGE);
    Quotient(n, PAGE);
  }

  /** rt_free of a large block takes exactly that block out of use. */
  lemma LargeTakes(s: Slab, a: nat, b: Block)
    requires Inv(s) && a in s.large
    ensures a in s.held && (Live(FreeLarge(s, a), b) <==> Live(s, b) && b != Large(a))
  {
    hide ListsOk, ZoneOk, Pages, Distinct, Release;
  }

  /** Chunks that were never used are given out first; after that the chunk that was freed
      last. */
  lemma ChunkOrder(z: Zone, zoneSize: nat, i: nat)
    requires ZoneOk(z, zoneSize) && z.nfree > 0 && (z.uindex + 1 != z.nmax || z.freechunk != [])
    ensures z.uindex + 1 < z.nmax ==> NextChunk(z) == z.uindex + 1 && NextChunk(z) !in z.freechunk
    ensures z.uindex + 1 == z.nmax ==> NextChunk(z) in z.freechunk && NextChunk(GiveChunk(z, i)) == i
  {
    assert ChunkOk(z, z.uindex + 1);
  }

  // ---- no page is lost ----

  /** Page `x` is free or in use. */
  ghost predicate Accounted(s: Slab, x: int) { Free(s.pages, x) || exists a :: Holds(s.held, a, x) }

  lemma AllocAccounted(s: Slab, n: nat, x: int)
    requires Pages(s) && (forall a :: a in s.held ==> s.held[a] > 0)
    ensures Accounted(PageAlloc(s, n).0, x) <==> Accounted(s, x)
  {
    var p := PageAlloc(s, n);
    AllocFacts(s.pages, n);
    PageAllocFacts(s, n);
    hide Free, Canonical, Alloc, Pages;
    if p.1.Some? {
      var a := p.1.value;
      assert Free(p.0.pages, x) <==> Free(s.pages, x) && !(a <= x < a + n);
      assert Holds(p.0.held, a, x) <==> a <= x < a + n;
      assert forall b :: b != a ==> (Holds(p.0.held, b, x) <==> Holds(s.held, b, x));
    }
  }

  lemma FreeAccounted(s: Slab, a: nat, x: int)
    requires Pages(s) && a in s.held && s.held[a] > 0
    ensures Accounted(PageFree(s, a), x) <==> Accounted(s, x)
  {
    var s' := PageFree(s, a);
    forall y | a <= y < a + s.held[a]
      ensures !Free(s.pages, y)
    {
      assert Holds(s.held, a, y);
    }
    ReleaseFacts(s.pages, a, s.held[a]);
    hide Free, Canonical, Release;
    assert Free(s'.pages, x) <==> Free(s.pages, x) || Holds(s.held, a, x);
    assert forall b :: b != a ==> (Holds(s'.held, b, x) <==> Holds(s.held, b, x));
  }

  lemma MallocAccounted(s: Slab, n: nat, x: int)
    requires Inv(s)
    ensures Accounted(Malloc(s, n).s, x) <==> Accounted(s, x)
  {
    hide ListsOk, ZoneOk, Pages, Accounted, Alloc, ZoneIndex, Room, PageAlloc, Up;
    Positive(s);
    if n >= s.zoneLimit {
      AllocAccounted(s, Up(n, PAGE) / PAGE, x);
      SameAccounted(PageAlloc(s, Up(n, PAGE) / PAGE).0, Malloc(s, n).s, x);
    } else if n > 0 {
      ClassFits(s, n);
      Arrays(s);
      AllocAccounted(s, s.zoneSize / PAGE, x);
      if s.arrays[ZoneIndex(n).index] == [] && s.freeZones == [] {
        SameAccounted(PageAlloc(s, s.zoneSize / PAGE).0, Malloc(s, n).s, x);
      } else {
        SameAccounted(s, Malloc(s, n).s, x);
      }
    }
  }

  lemma SameAccounted(s: Slab, s': Slab, x: int)
    ensures s'.pages == s.pages && s'.held == s.held ==> (Accounted(s', x) <==> Accounted(s, x))
  {}

  lemma FreeChunkAccounted(s: Slab, a: nat, i: nat, x: int)
    requires Inv(s) && a in s.zones && i in s.zones[a].live
    ensures |s.arrays| == NZONES && s.zones[a].index < NZONES && a in s.held
    ensures Accounted(FreeChunk(s, a, i), x) <==> Accounted(s, x)
  {
    hide ListsOk, ZoneOk, Accounted, Release, Free, Canonical;
    FreeChunkInv(s, a, i);
    ReturnedInv(s, a, i);
    var s1 := Returned(s, a, i);
    KeptBackInv(s1, a);
    RetiredFacts(s1, a);
    Positive(s1);
    var s2 := Retired(s1, a);
    FreeAccounted(s2, a, x);
    SameAccounted(s, s2, x);
    SameAccounted(s2, KeptBack(s1, a), x);
    SameAccounted(PageFree(s2, a), KeptBack(s1, a), x);
    SameAccounted(s, s1, x);
  }

  /** In every state of every run exactly the pages that were free at first are free or in
      use: none is lost and none appears. */
  lemma {:induction false} RunAccounted(ss: seq<Slab>, steps: seq<Step>, n: nat, x: int)
    requires IsRun(ss, steps) && n < |ss|
    ensures Accounted(ss[n], x) <==> Free(ss[0].pages, x)
  {
    if n > 0 {
      hide Inv, Accounted, Malloc, FreeChunk, FreeLarge;
      RunAccounted(ss, steps, n - 1, x);
      RunInv(ss, steps, n - 1);
      assert Moves(ss, steps, n - 1);
      StepAccounted(ss[n - 1], steps[n - 1], x);
    }
  }

  lemma StepAccounted(s: Slab, step: Step, x: int)
    requires Inv(s) && Enabled(s, step)
    ensures Accounted(Do(s, step), x) <==> Accounted(s, x)
  {
    hide ListsOk, ZoneOk, Accounted, Malloc, Pages, Release;
    match step
    case MallocStep(n) => MallocAccounted(s, n, x);
    case FreeChunkStep(a, i) => FreeChunkAccounted(s, a, i, x);
    case FreeLargeStep(a) =>
      Positive(s);
      FreeAccounted(s, a, x);
      SameAccounted(PageFree(s, a), FreeLarge(s, a), x);
  }

  // ---- empty zones ----

  predicate Empty(s: Slab, a: nat) { a in s.zones && s.zones[a].nfree == s.zones[a].nmax }

  /** At most one zone of a class has no chunk in use. */
  ghost predicate OneSpare(s: Slab) {
    forall a, b :: Empty(s, a) && Empty(s, b) && s.zones[a].index == s.zones[b].index ==> a == b
  }

  lemma FewerEmpty(s: Slab, s': Slab)
    requires OneSpare(s) && forall a :: Empty(s', a) ==> Empty(s, a) && s'.zones[a].index == s.zones[a].index
    ensures OneSpare(s')
  {}

  lemma ZoneBounds(z: Zone, zoneSize: nat)
    requires ZoneOk(z, zoneSize)
    ensures 0 < z.nmax && z.nfree <= z.nmax
  {
    forall j | j in z.freechunk
      ensures j < z.uindex + 1
    {
      assert ChunkOk(z, j);
    }
    DistinctBound(z.freechunk, z.uindex + 1);
  }

  lemma MallocSpare(s: Slab, n: nat)
    requires Inv(s) && OneSpare(s)
    ensures OneSpare(Malloc(s, n).s)
  {
    hide ListsOk, ZoneOk, Pages, Alloc, ZoneIndex, Room, Up, OneSpare;
    var s' := Malloc(s, n).s;
    if 0 < n < s.zoneLimit {
      ClassFits(s, n);
      Arrays(s);
      var i := ZoneIndex(n).index;
      if s.arrays[i] != [] {
        HasChunk(s, i);
        ZoneBounds(s.zones[s.arrays[i][0]], s.zoneSize);
      }
    }
    FewerEmpty(s, s');
  }

  lemma FreeChunkSpare(s: Slab, a: nat, i: nat)
    requires Inv(s) && OneSpare(s) && a in s.zones && i in s.zones[a].live
    ensures |s.arrays| == NZONES && s.zones[a].index < NZONES && a in s.held
    ensures OneSpare(FreeChunk(s, a, i))
  {
    hide ZoneOk, Pages, Uses, Release, Distinct;
    FreeChunkInv(s, a, i);
    ReturnedInv(s, a, i);
    var s1, k := Returned(s, a, i), s.zones[a].index;
    ZoneBounds(s1.zones[a], s.zoneSize);
    if Empty(s1, a) && |s1.arrays[k]| < 2 {
      forall b | Empty(s1, b) && s1.zones[b].index == k
        ensures b == a
      {
        ZoneBounds(s1.zones[b], s.zoneSize);
        assert Listed(s1, k, a) && Listed(s1, k, b);
      }
    }
  }

  /** In every state of every run at most one zone of each class has no chunk in use, and at
      most two more zones are kept back: memory that is freed comes back. */
  lemma {:induction false} RunSpare(ss: seq<Slab>, steps: seq<Step>, n: nat)
    requires IsRun(ss, steps) && n < |ss|
    ensures OneSpare(ss[n]) && |ss[n].freeZones| <= 2
  {
    RunInv(ss, steps, n);
    if n > 0 {
      hide ListsOk, ZoneOk, Pages, OneSpare, Malloc, FreeChunk;
      RunSpare(ss, steps, n - 1);
      RunInv(ss, steps, n - 1);
      assert Moves(ss, steps, n - 1);
      match steps[n - 1]
      case MallocStep(m) => MallocSpare(ss[n - 1], m);
      case FreeChunkStep(a, i) => FreeChunkSpare(ss[n - 1], a, i);
      case FreeLargeStep(_) => FewerEmpty(ss[n - 1], ss[n]);
    }
  }

  /** In no state of any run do two blocks in use overlap. */
  lemma RunNoOverlap(ss: seq<Slab>, steps: seq<Step>, n: nat, b: Block, c: Block)
    requires IsRun(ss, steps) && n < |ss| && Live(ss[n], b) && Live(ss[n], c) && b != c
    ensures b.Chunk? ==> ss[n].zones[b.zone].size > 0
    ensures c.Chunk? ==> ss[n].zones[c.zone].size > 0
    ensures var s := ss[n]; First(s, b) + Length(s, b) <= First(s, c) || First(s, c) + Length(s, c) <= First(s, b)
  {
    RunInv(ss, steps, n);
    NoOverlap(ss[n], b, c);
  }
}
