/** Sizes of sets of threads. */
module Counting {

  ghost function One(b: bool): nat { if b then 1 else 0 }

  lemma SizesDifferBy<A>(a: set<A>, b: set<A>, x: A)
    requires forall u | u != x :: u in a <==> u in b
    ensures |b| + One(x in a) == |a| + One(x in b)
  {
    assert a - {x} == b - {x};
    SizeWithout(a, x);
    SizeWithout(b, x);
  }

  lemma SizeWithout<A>(a: set<A>, x: A)
    ensures |a| == |a - {x}| + One(x in a)
  {
    if x in a { assert a == (a - {x}) + {x}; } else { assert a == a - {x}; }
  }

  lemma SubsetSize<A>(a: set<A>, b: set<A>)
    requires a <= b
    ensures |a| <= |b|
  {
    assert b == a + (b - a);
  }
}
