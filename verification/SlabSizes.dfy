/** The chunk sizes of the slab allocator and the layout of a zone (slab.c). */
module SlabSizes {
  import opened Arith

  const PAGE: nat := 4096
  const ZONE_HEADER: nat := 36     // sizeof(slab_zone)
  const NZONES: nat := 72

  datatype Class = Class(index: int, size: nat)

  function Up(n: nat, m: nat): nat
    requires m > 0
  {
    (n + m - 1) / m * m
  }

  /** zoneindex, for a request it is asked about. */
  function ZoneIndex(n: nat): Class
    requires n < 16384
  {
    if n < 128 then Class(Up(n, 8) / 8 - 1, Up(n, 8))
    else if n < 256 then Class(Up(n, 16) / 16 + 7, Up(n, 16))
    else if n < 512 then Class(Up(n, 32) / 32 + 15, Up(n, 32))
    else if n < 1024 then Class(Up(n, 64) / 64 + 23, Up(n, 64))
    else if n < 2048 then Class(Up(n, 128) / 128 + 31, Up(n, 128))
    else if n < 4096 then Class(Up(n, 256) / 256 + 39, Up(n, 256))
    else if n < 8192 then Class(Up(n, 512) / 512 + 47, Up(n, 512))
    else Class(Up(n, 1024) / 1024 + 55, Up(n, 1024))
  }

  /** The chunk size of a zone index. */
  function ClassSize(i: nat): nat
    requires i < NZONES
  {
    if i < 16 then (i + 1) * 8
    else if i < 24 then (i - 7) * 16
    else if i < 32 then (i - 15) * 32
    else if i < 40 then (i - 23) * 64
    else if i < 48 then (i - 31) * 128
    else if i < 56 then (i - 39) * 256
    else if i < 64 then (i - 47) * 512
    else (i - 55) * 1024
  }

  lemma ClassStep(i: nat)
    requires i + 1 < NZONES
    ensures ClassSize(i) < ClassSize(i + 1)
  {}

  lemma {:induction false} ClassGrows(i: nat, j: nat)
    requires i < j < NZONES
    ensures ClassSize(i) < ClassSize(j)
  {
    ClassStep(j - 1);
    if i < j - 1 { ClassGrows(i, j - 1); }
  }

  /** Class `c` is the smallest whose chunks hold `n` bytes. */
  ghost predicate Best(n: nat, c: Class) {
    0 <= c.index < NZONES && c.size == ClassSize(c.index) && n <= c.size && (c.index > 0 ==> ClassSize(c.index - 1) < n)
  }

  /** Rounding up, by its quotient. */
  lemma Quotient(n: nat, m: nat)
    requires m > 0
    ensures Up(n, m) == (Up(n, m) / m) * m && n <= Up(n, m) < n + m
  {
    UpBounds(n, m);
  }

  lemma Best8And16(n: nat)
    requires 1 <= n < 256
    ensures Best(n, ZoneIndex(n)) && ZoneIndex(n).size <= 256
  {
    hide Up;
    if n < 128 { Quotient(n, 8); } else { Quotient(n, 16); }
  }

  lemma Best32And64(n: nat)
    requires 256 <= n < 1024
    ensures Best(n, ZoneIndex(n)) && ZoneIndex(n).size <= 1024
  {
    hide Up;
    if n < 512 { Quotient(n, 32); } else { Quotient(n, 64); }
  }

  lemma Best128And256(n: nat)
    requires 1024 <= n < 4096
    ensures Best(n, ZoneIndex(n)) && ZoneIndex(n).size <= 4096
  {
    hide Up;
    if n < 2048 { Quotient(n, 128); } else { Quotient(n, 256); }
  }

  lemma Best512And1024(n: nat)
    requires 4096 <= n < 16384
    ensures Best(n, ZoneIndex(n)) && ZoneIndex(n).size <= 16384 && (n < 8192 ==> ZoneIndex(n).size <= 8192)
  {
    hide Up;
    if n < 8192 { Quotient(n, 512); } else { Quotient(n, 1024); }
  }

  /** A request is served from the smallest chunk size that holds it. */
  lemma BestClass(n: nat, j: nat)
    requires 0 < n < 16384 && j < NZONES
    ensures var c := ZoneIndex(n);
            && 0 <= c.index < NZONES && c.size == ClassSize(c.index) && n <= c.size <= 16384
               && (n < 8192 ==> c.size <= 8192)
            && (j < c.index ==> ClassSize(j) < n)
  {
    hide ZoneIndex, ClassSize;
    if n < 256 {
      Best8And16(n);
    } else if n < 1024 {
      Best32And64(n);
    } else if n < 4096 {
      Best128And256(n);
    } else {
      Best512And1024(n);
    }
    var c := ZoneIndex(n);
    if j + 1 < c.index { ClassGrows(j, c.index - 1); }
  }

  // ---- the layout of a zone ----

  predicate PowerOf2(n: nat) { n == 1 || (n > 0 && n % 2 == 0 && PowerOf2(n / 2)) }

  /** Where the chunks start behind the zone's header. */
  function Offset(size: nat): nat
    requires size > 0
  {
    if PowerOf2(size) then Up(ZONE_HEADER, size) else Up(ZONE_HEADER, 8)
  }

  /** z_nmax */
  function Room(zoneSize: nat, size: nat): int
    requires size > 0
  {
    (zoneSize - Offset(size)) / size
  }

  /** A zone has room for two chunks or more of every size it is used for, so a zone that
      has just given its first chunk away has another. */
  lemma RoomForTwo(zoneSize: nat, size: nat)
    requires zoneSize >= 1024 && 0 < size <= zoneSize / 4
    ensures Room(zoneSize, size) >= 2 && Offset(size) >= ZONE_HEADER
    ensures Offset(size) + Room(zoneSize, size) * size <= zoneSize
  {
    UpBounds(ZONE_HEADER, size);
    UpBounds(ZONE_HEADER, 8);
    var off := Offset(size);
    assert off < ZONE_HEADER + size + 8;
    DivAtLeast(zoneSize - off, size);
  }

  /** The chunks of a zone start at the first multiple of their size behind the header, or of
      eight bytes, and as many follow as there is room for. */
  lemma LayoutExact(zoneSize: nat, size: nat)
    requires zoneSize >= 1024 && 0 < size <= zoneSize / 4
    ensures var unit := if PowerOf2(size) then size else 8;
            Offset(size) % unit == 0 && ZONE_HEADER <= Offset(size) < ZONE_HEADER + unit
    ensures var end := Offset(size) + Room(zoneSize, size) * size; end <= zoneSize < end + size
  {
    UpBounds(ZONE_HEADER, size);
    UpBounds(ZONE_HEADER, 8);
    RoomForTwo(zoneSize, size);
    var x := zoneSize - Offset(size);
    assert x == x / size * size + x % size;
  }

  lemma UpBounds(n: nat, m: nat)
    requires m > 0
    ensures n <= Up(n, m) < n + m && Up(n, m) % m == 0
  {
    var q, r := (n + m - 1) / m, (n + m - 1) % m;
    assert n + m - 1 == q * m + r;
    Multiple(q, m);
  }

  lemma Multiple(q: nat, m: nat)
    requires m > 0
    ensures (q * m) % m == 0
  {
    var x := q * m;
    var d, r := x / m, x % m;
    assert x == d * m + r;
    assert (q - d) * m == r by { Distribute(q, d, m); }
    if q - d >= 1 { AtLeast(q - d, m); }
    if q - d <= -1 { AtLeast(d - q, m); Distribute(d, q, m); }
  }

  lemma DivAtLeast(x: int, size: nat)
    requires size > 0 && x >= 2 * size
    ensures x / size >= 2 && (x / size) * size <= x
  {
    var q, r := x / size, x % size;
    assert x == q * size + r;
    Distribute(1, q, size);
    if q <= 1 { AtLeast(2 - q, size); }
  }
}
