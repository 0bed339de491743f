/** The page allocator under the slab allocator (slab.c): a list of free page runs. */
module SlabPages {
  import opened Lists

  /** `pages` free pages from page `start` on. */
  datatype Run = Run(start: nat, pages: nat)

  predicate In(r: Run, x: int) { r.start <= x < r.start + r.pages }

  /** Page `x` is free. */
  predicate Free(list: seq<Run>, x: int) { list != [] && (In(list[0], x) || Free(list[1..], x)) }

  /** Sorted, not empty, disjoint, and with a page between any two: nothing to merge. */
  predicate Canonical(list: seq<Run>) {
    list == [] || (list[0].pages > 0 && Canonical(list[1..])
      && (|list| > 1 ==> list[0].start + list[0].pages < list[1].start))
  }

  /** Every free page is beyond `e`. */
  ghost predicate Beyond(list: seq<Run>, e: int) { forall x :: Free(list, x) ==> e < x }

  datatype Taken = Taken(list: seq<Run>, run: Option<nat>)

  /** rt_page_alloc: the start of the first run that is long enough. */
  function Alloc(list: seq<Run>, n: nat): Taken {
    if n == 0 || list == [] then Taken(list, None)
    else
      var b := list[0];
      if b.pages > n then Taken([Run(b.start + n, b.pages - n)] + list[1..], Some(b.start))
      else if b.pages == n then Taken(list[1..], Some(b.start))
      else var rest := Alloc(list[1..], n); Taken([b] + rest.list, rest.run)
  }

  /** rt_page_free of the pages from `a` on. */
  function Release(list: seq<Run>, a: nat, n: nat): seq<Run> {
    if list == [] then [Run(a, n)]
    else
      var b := list[0];
      if b.start + b.pages == a then
        if |list| > 1 && b.start + b.pages + n == list[1].start then
          [Run(b.start, b.pages + n + list[1].pages)] + list[2..]
        else [Run(b.start, b.pages + n)] + list[1..]
      else if b.start == a + n then [Run(a, b.pages + n)] + list[1..]
      else if b.start > a + n then [Run(a, n)] + list
      else [b] + Release(list[1..], a, n)
  }

  // ---- the list and its pages ----

  lemma FreeCons(b: Run, rest: seq<Run>)
    ensures forall x :: Free([b] + rest, x) <==> In(b, x) || Free(rest, x)
  {
    assert ([b] + rest)[1..] == rest;
  }

  lemma Uncons(list: seq<Run>)
    requires list != []
    ensures list == [list[0]] + list[1..]
  {}

  lemma FreeNil()
    ensures Canonical([]) && forall x :: !Free([], x)
  {}

  /** The first run starts at the lowest free page, and a page follows it that is not free. */
  lemma {:induction false} Starts(p: seq<Run>)
    requires Canonical(p) && p != []
    ensures Beyond(p, p[0].start - 1) && Free(p, p[0].start) && Beyond(p[1..], p[0].start + p[0].pages)
  {
    if |p| > 1 { Starts(p[1..]); }
  }

  lemma CanonicalCons(b: Run, rest: seq<Run>)
    ensures Canonical([b] + rest) <==> b.pages > 0 && Canonical(rest) && Beyond(rest, b.start + b.pages)
  {
    var list := [b] + rest;
    assert list[1..] == rest;
    if Canonical(list) { Starts(list); }
    if Canonical(rest) && rest != [] { Starts(rest); }
  }

  /** The free pages determine the list. */
  lemma {:induction false} Unique(p: seq<Run>, q: seq<Run>)
    requires Canonical(p) && Canonical(q) && forall x :: Free(p, x) <==> Free(q, x)
    ensures p == q
  {
    if p != [] { Starts(p); }
    if q != [] { Starts(q); }
    if p != [] && q != [] {
      SameFirst(p, q);
      forall x
        ensures Free(p[1..], x) <==> Free(q[1..], x)
      {
        assert Free(p, x) <==> Free(q, x);
      }
      Unique(p[1..], q[1..]);
    }
  }

  lemma SameFirst(p: seq<Run>, q: seq<Run>)
    requires Canonical(p) && Canonical(q) && p != [] && q != [] && forall x :: Free(p, x) <==> Free(q, x)
    ensures p[0] == q[0]
  {
    Starts(p);
    Starts(q);
    var e, f := p[0].start + p[0].pages, q[0].start + q[0].pages;
    assert !Free(p, e) && !Free(q, f);
    assert e < f ==> Free(q, e);
    assert f < e ==> Free(p, f);
  }

  // ---- rt_page_alloc and rt_page_free ----

  /** What is allocated was free and is not any more; nothing else changes. */
  lemma {:induction false} AllocFacts(list: seq<Run>, n: nat)
    requires Canonical(list)
    ensures var t := Alloc(list, n);
            && Canonical(t.list)
            && (t.run.None? ==> t.list == list)
            && (t.run.Some? ==> n > 0 && forall x :: t.run.value <= x < t.run.value + n ==> Free(list, x))
            && forall x :: Free(t.list, x) <==> Free(list, x) && !(t.run.Some? && t.run.value <= x < t.run.value + n)
  {
    hide Free, Canonical;
    if n > 0 && list != [] {
      var b, rest := list[0], list[1..];
      Uncons(list);
      CanonicalCons(b, rest);
      FreeCons(b, rest);
      if b.pages > n {
        var c := Run(b.start + n, b.pages - n);
        CanonicalCons(c, rest);
        FreeCons(c, rest);
      } else if b.pages < n {
        AllocFacts(rest, n);
        var t := Alloc(rest, n);
        CanonicalCons(b, t.list);
        FreeCons(b, t.list);
        forall x
          ensures Free([b] + t.list, x) <==> Free(list, x) && !(t.run.Some? && t.run.value <= x < t.run.value + n)
        {
          if t.run.Some? && t.run.value <= x < t.run.value + n { assert Free(rest, x); }
        }
      }
    }
  }

  /** Releasing pages that are not free makes them free, and nothing else. */
  lemma {:induction false} ReleaseFacts(list: seq<Run>, a: nat, n: nat)
    requires Canonical(list) && n > 0 && forall x :: a <= x < a + n ==> !Free(list, x)
    ensures var r := Release(list, a, n);
            Canonical(r) && forall x :: Free(r, x) <==> Free(list, x) || a <= x < a + n
  {
    hide Free, Canonical;
    FreeNil();
    if list == [] {
      assert [Run(a, n)] + [] == [Run(a, n)];
      CanonicalCons(Run(a, n), []);
      FreeCons(Run(a, n), []);
    } else {
      var b, rest := list[0], list[1..];
      Uncons(list);
      CanonicalCons(b, rest);
      FreeCons(b, rest);
      assert Free(list, b.start);
      if b.start + b.pages == a {
        ReleaseBehind(b, rest, n);
      } else if b.start == a + n {
        CanonicalCons(Run(a, b.pages + n), rest);
        FreeCons(Run(a, b.pages + n), rest);
      } else if b.start > a + n {
        CanonicalCons(Run(a, n), list);
        FreeCons(Run(a, n), list);
      } else {
        assert b.start + b.pages < a by {
          var x := if a > b.start then a else b.start;
          assert In(b, x) ==> Free(list, x);
        }
        ReleaseFacts(rest, a, n);
        CanonicalCons(b, Release(rest, a, n));
        FreeCons(b, Release(rest, a, n));
      }
    }
  }

  lemma ReleaseBehind(b: Run, rest: seq<Run>, n: nat)
    requires Canonical([b] + rest) && n > 0
    requires forall x :: b.start + b.pages <= x < b.start + b.pages + n ==> !Free(rest, x)
    ensures var r := Release([b] + rest, b.start + b.pages, n);
            Canonical(r) && forall x :: Free(r, x) <==>
              In(b, x) || Free(rest, x) || b.start + b.pages <= x < b.start + b.pages + n
  {
    hide Free, Canonical;
    var a, c := b.start + b.pages, Run(b.start, b.pages + n);
    CanonicalCons(b, rest);
    FreeNil();
    assert ([b] + rest)[1..] == rest;
    CanonicalCons(c, rest);
    FreeCons(c, rest);
    if rest != [] {
      var more, d := rest[1..], Run(b.start, b.pages + n + rest[0].pages);
      assert ([b] + rest)[2..] == more;
      Starts(rest);
      Uncons(rest);
      CanonicalCons(rest[0], more);
      FreeCons(rest[0], more);
      CanonicalCons(d, more);
      FreeCons(d, more);
    }
  }

  /** Freeing what was just allocated gives back the very same list. */
  lemma RoundTrip(list: seq<Run>, n: nat)
    requires Canonical(list) && Alloc(list, n).run.Some?
    ensures Release(Alloc(list, n).list, Alloc(list, n).run.value, n) == list
  {
    var t := Alloc(list, n);
    AllocFacts(list, n);
    ReleaseFacts(t.list, t.run.value, n);
    Unique(Release(t.list, t.run.value, n), list);
  }

  /** Giving back two sets of pages in either order leaves the same list. */
  lemma Commutes(list: seq<Run>, a: nat, n: nat, b: nat, m: nat)
    requires Canonical(list) && n > 0 && m > 0 && (a + n <= b || b + m <= a)
    requires forall x :: a <= x < a + n || b <= x < b + m ==> !Free(list, x)
    ensures Release(Release(list, a, n), b, m) == Release(Release(list, b, m), a, n)
  {
    ReleaseFacts(list, a, n);
    ReleaseFacts(list, b, m);
    ReleaseFacts(Release(list, a, n), b, m);
    ReleaseFacts(Release(list, b, m), a, n);
    Unique(Release(Release(list, a, n), b, m), Release(Release(list, b, m), a, n));
  }

  /** An allocation fails only if nowhere that many pages in a row are free. */
  lemma {:induction false} Complete(list: seq<Run>, n: nat, a: nat)
    requires Canonical(list) && n > 0 && forall x :: a <= x < a + n ==> Free(list, x)
    ensures Alloc(list, n).run.Some? && Alloc(list, n).run.value <= a
  {
    assert Free(list, a);
    var b, rest := list[0], list[1..];
    Starts(list);
    if b.pages < n {
      assert !Free(list, b.start + b.pages) && Free(list, a + n - 1);
      forall x | a <= x < a + n
        ensures Free(rest, x)
      {
        assert Free(list, x);
      }
      Complete(rest, n, a);
    }
  }

  // ---- the same, walking the list in place ----

  /** An allocation from the rest of a list, with the runs before it. */
  ghost function Behind(before: seq<Run>, t: Taken): Taken { Taken(before + t.list, t.run) }

  lemma AllocNone(list: seq<Run>, n: nat)
    ensures n == 0 ==> Alloc(list, n) == Taken(list, None)
    ensures Behind(list[..0], Alloc(list[0..], n)) == Alloc(list, n)
    ensures Behind(list[..|list|], Alloc(list[|list|..], n)) == Taken(list, None)
  {
    assert list[0..] == list;
  }

  /** One run of the walk. */
  lemma AllocStep(list: seq<Run>, i: nat, n: nat)
    requires i < |list| && n > 0
    ensures var b := list[i];
            Behind(list[..i], Alloc(list[i..], n)) ==
              if b.pages > n then Taken(list[..i] + ([Run(b.start + n, b.pages - n)] + list[i + 1..]), Some(b.start))
              else if b.pages == n then Taken(list[..i] + list[i + 1..], Some(b.start))
              else Behind(list[..i + 1], Alloc(list[i + 1..], n))
  {
    assert list[i..][1..] == list[i + 1..] && list[..i + 1] == list[..i] + [list[i]];
    var t := Alloc(list[i + 1..], n).list;
    assert list[..i] + ([list[i]] + t) == list[..i] + [list[i]] + t;
  }

  lemma ReleaseStep(list: seq<Run>, i: nat, a: nat, n: nat)
    requires i < |list|
    ensures var b, rest := list[i], list[i + 1..];
            Release(list[i..], a, n) ==
              if b.start + b.pages == a then
                if i + 1 < |list| && b.start + b.pages + n == list[i + 1].start then
                  [Run(b.start, b.pages + n + list[i + 1].pages)] + list[i + 2..]
                else [Run(b.start, b.pages + n)] + rest
              else if b.start == a + n then [Run(a, b.pages + n)] + rest
              else if b.start > a + n then [Run(a, n)] + list[i..]
              else [b] + Release(rest, a, n)
  {
    assert list[i..][1..] == list[i + 1..] && (i + 1 < |list| ==> list[i..][2..] == list[i + 2..]);
  }

  class PageList {
    var list: seq<Run>

    /** rt_page_init */
    constructor (a: nat, n: nat)
      requires n > 0
      ensures Canonical(list) && forall x :: Free(list, x) <==> a <= x < a + n
    {
      list := Release([], a, n);
      new;
      ReleaseFacts([], a, n);
    }

    method PageAlloc(n: nat) returns (run: Option<nat>)
      requires Canonical(list)
      modifies this
      ensures Canonical(list) && Taken(list, run) == Alloc(old(list), n)
    {
      hide Free, Canonical, Alloc, Behind;
      AllocFacts(list, n);
      AllocNone(list, n);
      if n == 0 { return None; }
      var i := 0;
      while i < |list|
        invariant i <= |list| && list == old(list) && Alloc(list, n) == Behind(list[..i], Alloc(list[i..], n))
      {
        var b := list[i];
        AllocStep(list, i, n);
        if b.pages > n {
          list := list[..i] + ([Run(b.start + n, b.pages - n)] + list[i + 1..]);
          return Some(b.start);
        }
        if b.pages == n {
          list := list[..i] + list[i + 1..];
          return Some(b.start);
        }
        i := i + 1;
      }
      run := None;
    }

    method PageFree(a: nat, n: nat)
      requires Canonical(list) && n > 0 && forall x :: a <= x < a + n ==> !Free(list, x)
      modifies this
      ensures Canonical(list) && list == Release(old(list), a, n)
    {
      hide Free, Canonical, Release;
      ReleaseFacts(list, a, n);
      var i := 0;
      assert list[0..] == list && list[..0] + Release(list, a, n) == Release(list, a, n);
      while i < |list|
        invariant i <= |list| && list == old(list)
        invariant Release(list, a, n) == list[..i] + Release(list[i..], a, n)
      {
        var b := list[i];
        ReleaseStep(list, i, a, n);
        if b.start + b.pages == a {
          if i + 1 < |list| && b.start + b.pages + n == list[i + 1].start {
            list := list[..i] + ([Run(b.start, b.pages + n + list[i + 1].pages)] + list[i + 2..]);
          } else {
            list := list[..i] + ([Run(b.start, b.pages + n)] + list[i + 1..]);
          }
          return;
        }
        if b.start == a + n {
          list := list[..i] + ([Run(a, b.pages + n)] + list[i + 1..]);
          return;
        }
        if b.start > a + n { break; }
        assert list[..i + 1] + Release(list[i + 1..], a, n) == list[..i] + ([b] + Release(list[i + 1..], a, n));
        i := i + 1;
      }
      ReleaseEnd(list, i, a, n);
      list := list[..i] + ([Run(a, n)] + list[i..]);
    }
  }

  lemma ReleaseEnd(list: seq<Run>, i: nat, a: nat, n: nat)
    requires i <= |list|
    ensures i == |list| ==> Release(list[i..], a, n) == [Run(a, n)] + list[i..]
  {}
}
