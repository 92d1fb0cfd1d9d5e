/** What `list(set(xs))` yields: the distinct elements of `xs`, each once, in
    an order that depends on string hashing. The model never fixes that
    order; it takes the list as given and only demands that it enumerate
    the set. */
module PySets {

  predicate Distinct(xs: seq<string>)
  {
    forall i, j :: 0 <= i < j < |xs| ==> xs[i] != xs[j]
  }

  /** `order` lists every element of `xs` exactly once and nothing else. */
  predicate IsEnumeration(order: seq<string>, xs: seq<string>)
  {
    Distinct(order) && (forall x :: x in order ==> x in xs) && (forall x :: x in xs ==> x in order)
  }

  /** A distinct list has as many elements as its set. */
  lemma {:induction false} DistinctCard(xs: seq<string>)
    requires Distinct(xs)
    ensures |set x | x in xs| == |xs|
  {
    if xs != [] {
      var rest := xs[1..];
      DistinctCard(rest);
      assert (set x | x in xs) == (set x | x in rest) + {xs[0]};
      assert xs[0] !in (set x | x in rest);
    }
  }

  /** Any two enumerations of the same list are permutations of each other
      and have the number of distinct elements as length. */
  lemma EnumerationLength(order: seq<string>, xs: seq<string>)
    requires IsEnumeration(order, xs)
    ensures |order| == |set x | x in xs|
  {
    DistinctCard(order);
    assert (set x | x in order) == (set x | x in xs);
  }

  lemma EnumerationsPermute(a: seq<string>, b: seq<string>, xs: seq<string>)
    requires IsEnumeration(a, xs) && IsEnumeration(b, xs)
    ensures multiset(a) == multiset(b)
  {
    DistinctMultiset(a);
    DistinctMultiset(b);
    assert (set x | x in a) == (set x | x in b);
  }

  lemma {:induction false} DistinctMultiset(xs: seq<string>)
    requires Distinct(xs)
    ensures multiset(xs) == multiset(set x | x in xs)
  {
    if xs != [] {
      DistinctMultiset(xs[1..]);
      assert xs == [xs[0]] + xs[1..];
      assert (set x | x in xs) == (set x | x in xs[1..]) + {xs[0]};
      assert xs[0] !in (set x | x in xs[1..]);
    }
  }
}
