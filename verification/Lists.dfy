/** Lists as sequences: what the parts of the kernel share. */
module Lists {

  datatype Option<+T> = None | Some(value: T)

  ghost predicate Distinct<T>(s: seq<T>) {
    forall i, j :: 0 <= i < j < |s| ==> s[i] != s[j]
  }

  /** The list without the first occurrence of `a`. */
  function Without<T(==)>(s: seq<T>, a: T): seq<T> {
    if s == [] then [] else if s[0] == a then s[1..] else [s[0]] + Without(s[1..], a)
  }

  lemma PrependDistinct<T>(x: T, s: seq<T>)
    requires Distinct(s) && x !in s
    ensures Distinct([x] + s) && forall y :: y in [x] + s <==> y == x || y in s
  {}

  lemma AppendDistinct<T>(s: seq<T>, x: T)
    requires Distinct(s) && x !in s
    ensures Distinct(s + [x]) && forall y :: y in s + [x] <==> y == x || y in s
  {}

  lemma TailDistinct<T>(s: seq<T>)
    requires Distinct(s) && s != []
    ensures Distinct(s[1..]) && forall x :: x in s[1..] <==> x in s && x != s[0]
  {
    assert s == [s[0]] + s[1..];
  }

  lemma {:induction false} WithoutMember<T>(s: seq<T>, a: T)
    requires Distinct(s)
    ensures Distinct(Without(s, a)) && forall x :: x in Without(s, a) <==> x in s && x != a
  {
    if s != [] {
      WithoutMember(s[1..], a);
      TailDistinct(s);
      if s[0] != a { PrependDistinct(s[0], Without(s[1..], a)); }
    }
  }

  lemma {:induction false} WithoutLength<T>(s: seq<T>, a: T)
    requires a in s
    ensures |Without(s, a)| == |s| - 1
  {
    if s[0] != a { WithoutLength(s[1..], a); }
  }
}
