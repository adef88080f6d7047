/**
 Cardinality facts the search argument rests on: an injective image has as many elements
 as its source, and a set of naturals below n has at most n elements, exactly n only when
 it is all of them.
 */
module Counting {

  /** The naturals below n: n of them. */
  function Range(n: nat): (r: set<int>)
    ensures forall x :: x in r <==> 0 <= x < n
    ensures |r| == n
    decreases n
  {
    if n == 0 then {}
    else
      var r := Range(n - 1);
      assert n - 1 !in r;
      r + {n - 1}
  }

  /** A subset has at most as many elements as the whole. */
  lemma SubsetCard<T>(a: set<T>, b: set<T>)
    requires a <= b
    ensures |a| <= |b|
  {
    assert b == a + (b - a);
  }

  /** The image of a set under f. */
  function Image<T>(a: set<T>, f: T -> int): set<int>
  {
    set x | x in a :: f(x)
  }

  /** Distinct elements have distinct images: the image is as large as the source. */
  lemma {:induction false} InjectiveImageCard<T>(a: set<T>, f: T -> int)
    requires forall x, y :: x in a && y in a && f(x) == f(y) ==> x == y
    ensures |Image(a, f)| == |a|
    decreases |a|
  {
    if a != {} {
      var x :| x in a;
      var rest := a - {x};
      InjectiveImageCard(rest, f);
      assert Image(a, f) == Image(rest, f) + {f(x)};
      assert f(x) !in Image(rest, f);
    }
  }

  /** A set of naturals below n has at most n elements. */
  lemma SubsetOfRangeCard(a: set<int>, n: nat)
    requires forall x :: x in a ==> 0 <= x < n
    ensures |a| <= n
  {
    SubsetCard(a, Range(n));
  }

  /** A set of at least n naturals below n holds every one of them. */
  lemma FullSubsetOfRange(a: set<int>, n: nat)
    requires forall x :: x in a ==> 0 <= x < n
    requires |a| >= n
    ensures forall x :: 0 <= x < n ==> x in a
  {
    forall x | 0 <= x < n ensures x in a {
      if x !in a {
        SubsetCard(a, Range(n) - {x});
      }
    }
  }
}
