// Multisets of block numbers in which no number occurs twice.
module Bags {
  ghost predicate Unique<T(!new)>(m: multiset<T>) {
    forall x :: m[x] <= 1
  }

  lemma UniqueApart<T(!new)>(a: multiset<T>, b: multiset<T>, x: T)
    requires Unique(a + b) && x in a
    ensures x !in b
  {
    assert (a + b)[x] <= 1;
  }

  lemma UniquePart<T(!new)>(a: multiset<T>, b: multiset<T>)
    requires Unique(a) && b <= a
    ensures Unique(b)
  {
    forall x
      ensures b[x] <= 1
    {
      assert a[x] <= 1;
    }
  }
}
