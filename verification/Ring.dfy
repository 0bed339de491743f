/** The kernel's doubly linked ring (rt_list_t): link fields at integer addresses,
    and the sequence of nodes that walking `next` from a node visits. */
module Ring {
  import opened Lists

  function Succ(i: int, n: nat): int { if i + 1 == n then 0 else i + 1 }

  /** The node at position `i` and its successor point at each other. */
  ghost predicate Link(next: map<int, int>, prev: map<int, int>, s: seq<int>, i: int)
    requires 0 <= i < |s|
  {
    var a, b := s[i], s[Succ(i, |s|)];
    a in next && b in prev && next[a] == b && prev[b] == a
  }

  /** The nodes of `s`, in this order, form one ring under the two link fields. */
  ghost predicate IsRing(next: map<int, int>, prev: map<int, int>, s: seq<int>) {
    && s != [] && Distinct(s)
    && (forall i {:trigger Link(next, prev, s, i)} :: 0 <= i < |s| ==> Link(next, prev, s, i))
  }

  ghost function Inserted(s: seq<int>, k: nat, n: int): seq<int>
    requires k <= |s|
  {
    s[..k] + [n] + s[k..]
  }

  ghost function Removed(s: seq<int>, k: nat): seq<int>
    requires k < |s|
  {
    s[..k] + s[k + 1..]
  }

  function Pred(i: int, n: nat): int { if i == 0 then n - 1 else i - 1 }

  /** Both neighbours of a node, through its own links. */
  lemma Neighbours(next: map<int, int>, prev: map<int, int>, s: seq<int>, k: nat)
    requires IsRing(next, prev, s) && k < |s|
    ensures s[k] in next && s[k] in prev
    ensures next[s[k]] == s[Succ(k, |s|)] && prev[s[k]] == s[Pred(k, |s|)]
  {
    assert Link(next, prev, s, k) && Link(next, prev, s, Pred(k, |s|));
  }

  /** rt_list_insert_after: four stores put `n` behind the node at position `k`. */
  lemma LinkAfter(next: map<int, int>, prev: map<int, int>, s: seq<int>, k: nat, n: int)
    requires IsRing(next, prev, s) && k < |s| && n !in s
    ensures s[k] in next
    ensures var l, r := s[k], next[s[k]];
            IsRing(next[n := r][l := n], prev[r := n][n := l], Inserted(s, k + 1, n))
  {
    Neighbours(next, prev, s, k);
    var l, r := s[k], next[s[k]];
    var next', prev', s' := next[n := r][l := n], prev[r := n][n := l], Inserted(s, k + 1, n);
    assert forall i :: 0 <= i < |s'| ==> s'[i] == if i <= k then s[i] else if i == k + 1 then n else s[i - 1];
    forall i | 0 <= i < |s'|
      ensures Link(next', prev', s', i)
    {
      if i < k { assert Link(next, prev, s, i); }
      else if i > k + 1 { assert Link(next, prev, s, i - 1); }
    }
  }

  lemma RemovedDistinct(s: seq<int>, k: nat)
    requires Distinct(s) && k < |s|
    ensures Distinct(Removed(s, k))
    ensures forall i :: 0 <= i < |s| - 1 ==> Removed(s, k)[i] == if i < k then s[i] else s[i + 1]
  {
    var r := Removed(s, k);
    assert forall i :: 0 <= i < |r| ==> r[i] == if i < k then s[i] else s[i + 1];
  }

  lemma UnlinkAt(next: map<int, int>, prev: map<int, int>, s: seq<int>, k: nat, i: nat)
    requires IsRing(next, prev, s) && k < |s| && i < |s| - 1 && s[k] in next && s[k] in prev
    ensures Link(next[prev[s[k]] := next[s[k]]], prev[next[s[k]] := prev[s[k]]], Removed(s, k), i)
  {
    Neighbours(next, prev, s, k);
    RemovedDistinct(s, k);
    var j := if i < k then i else i + 1;
    assert Link(next, prev, s, j);
  }

  /** rt_list_remove on a ring of at least two nodes. */
  lemma Unlink(next: map<int, int>, prev: map<int, int>, s: seq<int>, k: nat)
    requires IsRing(next, prev, s) && k < |s| && |s| >= 2
    ensures s[k] in next && s[k] in prev
    ensures var x := s[k];
            IsRing(next[prev[x] := next[x]], prev[next[x] := prev[x]], Removed(s, k))
  {
    Neighbours(next, prev, s, k);
    var x, s' := s[k], Removed(s, k);
    var next', prev' := next[prev[x] := next[x]], prev[next[x] := prev[x]];
    RemovedDistinct(s, k);
    forall i | 0 <= i < |s'|
      ensures Link(next', prev', s', i)
    {
      UnlinkAt(next, prev, s, k, i);
    }
  }

  /** Stores to the links of nodes outside a ring do not disturb it. */
  lemma Frame(next: map<int, int>, prev: map<int, int>, s: seq<int>, next': map<int, int>, prev': map<int, int>)
    requires IsRing(next, prev, s)
    requires forall x :: x in s && x in next ==> x in next' && next'[x] == next[x]
    requires forall x :: x in s && x in prev ==> x in prev' && prev'[x] == prev[x]
    ensures IsRing(next', prev', s)
  {
    forall i | 0 <= i < |s|
      ensures Link(next', prev', s, i)
    {
      assert Link(next, prev, s, i);
      assert s[Succ(i, |s|)] in s;
    }
  }

  /** Two link fields agree on every node that is not in `s`. */
  ghost predicate SameOutside(f: map<int, int>, g: map<int, int>, s: seq<int>) {
    forall x :: x !in s ==> (x in f <==> x in g) && (x in f ==> f[x] == g[x])
  }

  ghost predicate Disjoint(q: seq<int>, s: seq<int>) { forall x :: x in q ==> x !in s }

  lemma StoresCommute(f: map<int, int>, a: int, b: int, x: int, y: int)
    requires a != b
    ensures f[a := x][b := y] == f[b := y][a := x]
  {}

  /** What happens in one ring does not disturb another. */
  lemma OtherRings(next: map<int, int>, prev: map<int, int>, next': map<int, int>, prev': map<int, int>, s: seq<int>)
    requires SameOutside(next, next', s) && SameOutside(prev, prev', s)
    ensures forall q :: IsRing(next, prev, q) && Disjoint(q, s) ==> IsRing(next', prev', q)
  {
    forall q | IsRing(next, prev, q) && Disjoint(q, s)
      ensures IsRing(next', prev', q)
    {
      Frame(next, prev, q, next', prev');
    }
  }

  /** The link fields of all list nodes, changed in place as rtservice.h does. */
  class Links {
    var next: map<int, int>
    var prev: map<int, int>

    constructor ()
    {
      next, prev := map[], map[];
    }

    method Init(l: int)
      modifies this
      ensures IsRing(next, prev, [l])
      ensures next == old(next)[l := l] && prev == old(prev)[l := l]
    {
      next, prev := next[l := l], prev[l := l];
      assert Link(next, prev, [l], 0);
    }

    method IsEmpty(l: int, ghost s: seq<int>) returns (b: bool)
      requires IsRing(next, prev, s) && s[0] == l
      ensures b == (s == [l])
    {
      Neighbours(next, prev, s, 0);
      b := next[l] == l;
    }

    method InsertAfter(l: int, n: int, ghost s: seq<int>, ghost k: nat)
      requires IsRing(next, prev, s) && k < |s| && s[k] == l && n !in s
      modifies this
      ensures IsRing(next, prev, Inserted(s, k + 1, n))
      ensures SameOutside(old(next), next, s + [n]) && SameOutside(old(prev), prev, s + [n])
      ensures forall q :: old(IsRing(next, prev, q)) && Disjoint(q, s + [n]) ==> IsRing(next, prev, q)
    {
      Neighbours(next, prev, s, k);
      LinkAfter(next, prev, s, k, n);
      hide IsRing;
      prev := prev[next[l] := n];
      next := next[n := next[l]];
      next := next[l := n];
      prev := prev[n := l];
      OtherRings(old(next), old(prev), next, prev, s + [n]);
    }

    /** Insertion before the head `s[0]` appends at the tail of the queue it heads. */
    method InsertBefore(l: int, n: int, ghost s: seq<int>, ghost k: nat)
      requires IsRing(next, prev, s) && k < |s| && s[k] == l && n !in s
      modifies this
      ensures IsRing(next, prev, Inserted(s, if k == 0 then |s| else k, n))
      ensures SameOutside(old(next), next, s + [n]) && SameOutside(old(prev), prev, s + [n])
      ensures forall q :: old(IsRing(next, prev, q)) && Disjoint(q, s + [n]) ==> IsRing(next, prev, q)
    {
      ghost var j := Pred(k, |s|);
      Neighbours(next, prev, s, k);
      Neighbours(next, prev, s, j);
      LinkAfter(next, prev, s, j, n);
      hide IsRing, Inserted, Distinct;
      assert s[j] != n && l != n;
      StoresCommute(next, s[j], n, n, l);
      StoresCommute(prev, n, l, s[j], n);
      next := next[prev[l] := n];
      prev := prev[n := prev[l]];
      prev := prev[l := n];
      next := next[n := l];
      OtherRings(old(next), old(prev), next, prev, s + [n]);
    }

    /** A node alone in its ring stays so. */
    method Remove(n: int, ghost s: seq<int>, ghost k: nat)
      requires IsRing(next, prev, s) && k < |s| && s[k] == n
      modifies this
      ensures IsRing(next, prev, [n]) && (|s| >= 2 ==> IsRing(next, prev, Removed(s, k)))
      ensures SameOutside(old(next), next, s) && SameOutside(old(prev), prev, s)
      ensures forall q :: old(IsRing(next, prev, q)) && Disjoint(q, s) ==> IsRing(next, prev, q)
    {
      Neighbours(next, prev, s, k);
      if |s| >= 2 { Unlink(next, prev, s, k); }
      prev := prev[next[n] := prev[n]];
      next := next[prev[n] := next[n]];
      ghost var next1, prev1 := next, prev;
      next, prev := next[n := n], prev[n := n];
      assert Link(next, prev, [n], 0);
      if |s| >= 2 { RemovedApart(s, k); Frame(next1, prev1, Removed(s, k), next, prev); }
      OtherRings(old(next), old(prev), next, prev, s);
    }
  }

  lemma RemovedApart(s: seq<int>, k: nat)
    requires Distinct(s) && k < |s|
    ensures s[k] !in Removed(s, k)
  {}
}
