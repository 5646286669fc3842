// Concatenation, sequences that hold the same elements in different orders, and sums over them.
module Permutations {
  lemma Associate<T>(x: seq<T>, y: seq<T>, z: seq<T>)
    ensures x + y + z == x + (y + z)
  {
  }

  lemma SameMembers<T>(a: seq<T>, b: seq<T>)
    requires multiset(a) == multiset(b)
    ensures forall x :: x in a <==> x in b
  {
    forall x ensures x in a <==> x in b {
      assert x in a <==> x in multiset(a);
      assert x in b <==> x in multiset(b);
    }
  }

  lemma Without<T>(s: seq<T>, i: nat)
    requires i < |s|
    ensures s == s[..i] + [s[i]] + s[i + 1..]
    ensures multiset(s[..i] + s[i + 1..]) == multiset(s) - multiset{s[i]}
  {
    assert s == s[..i] + [s[i]] + s[i + 1..];
  }

  /** The multisets f makes of the elements, added up. */
  ghost function SumOver<T, U>(s: seq<T>, f: T -> multiset<U>): multiset<U> {
    if s == [] then multiset{} else SumOver(s[..|s| - 1], f) + f(s[|s| - 1])
  }

  lemma {:induction false} SumConcat<T, U>(a: seq<T>, b: seq<T>, f: T -> multiset<U>)
    ensures SumOver(a + b, f) == SumOver(a, f) + SumOver(b, f)
  {
    if b == [] {
      assert a + b == a;
    } else {
      SumConcat(a, b[..|b| - 1], f);
      assert (a + b)[..|a + b| - 1] == a + b[..|b| - 1];
    }
  }

  lemma SumWithout<T, U>(s: seq<T>, i: nat, f: T -> multiset<U>)
    requires i < |s|
    ensures SumOver(s, f) == SumOver(s[..i] + s[i + 1..], f) + f(s[i])
  {
    var a, mid, b := s[..i], [s[i]], s[i + 1..];
    Without(s, i);
    SumConcat(a + mid, b, f);
    SumConcat(a, mid, f);
    SumConcat(a, b, f);
    assert mid[..0] == [] && SumOver(mid, f) == f(s[i]);
  }

  /** Where the last element of one ordering stands in another, and what is left without it. */
  lemma LastElsewhere<T>(a: seq<T>, b: seq<T>) returns (i: nat)
    requires a != [] && multiset(a) == multiset(b)
    ensures i < |b| && b[i] == a[|a| - 1]
    ensures multiset(a[..|a| - 1]) == multiset(b[..i] + b[i + 1..])
  {
    var k := |a| - 1;
    SameMembers(a, b);
    assert a[k] in b;
    i :| 0 <= i < |b| && b[i] == a[k];
    Without(a, k);
    Without(b, i);
    assert a[..k] + a[k + 1..] == a[..k];
  }

  /** A sum does not depend on the order of the elements. */
  lemma {:induction false} SumPermuted<T, U>(a: seq<T>, b: seq<T>, f: T -> multiset<U>)
    requires multiset(a) == multiset(b)
    ensures SumOver(a, f) == SumOver(b, f)
  {
    if a == [] {
      assert |multiset(b)| == 0;
    } else {
      var i := LastElsewhere(a, b);
      SumPermuted(a[..|a| - 1], b[..i] + b[i + 1..], f);
      SumWithout(b, i, f);
    }
  }

  /** Functions that agree on the elements have the same sum. */
  lemma {:induction false} SumAgrees<T, U>(s: seq<T>, f: T -> multiset<U>, g: T -> multiset<U>)
    requires forall x | x in s :: f(x) == g(x)
    ensures SumOver(s, f) == SumOver(s, g)
  {
    if s != [] {
      assert s[|s| - 1] in s;
      SumAgrees(s[..|s| - 1], f, g);
    }
  }
}
