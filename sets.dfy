/** Facts about finite sets shared by both learners. */
module Sets {

  /** A subset is no larger than its superset. */
  lemma SubsetSize<T>(a: set<T>, b: set<T>)
    requires a <= b
    ensures |a| <= |b|
  {
    assert b == a + (b - a);
  }

  /** A proper subset is strictly smaller than its superset. */
  lemma ProperSubsetSize<T>(a: set<T>, b: set<T>)
    requires a < b
    ensures |a| < |b|
  {
    assert b == a + (b - a);
  }

  /** Some element of a non-empty set. */
  lemma Element<T>(s: set<T>) returns (x: T)
    requires s != {}
    ensures x in s
  {
    x :| x in s;
  }

  /** A set with one element is that element's singleton. */
  lemma Singleton<T>(s: set<T>) returns (x: T)
    requires |s| == 1
    ensures s == {x}
  {
    x := Element(s);
    assert |s - {x}| == 0;
  }

  /** Removing an element makes a set one smaller. */
  lemma RemoveOne<T>(s: set<T>, x: T)
    requires x in s
    ensures |s - {x}| == |s| - 1
  {
    assert s == (s - {x}) + {x};
  }

  /** A set has subsets of every size up to its own. */
  lemma SubsetOfSize<T>(s: set<T>, n: nat) returns (u: set<T>)
    requires n <= |s|
    ensures u <= s && |u| == n
    decreases |s|
  {
    if n == |s| {
      u := s;
    } else {
      var x := Element(s);
      RemoveOne(s, x);
      u := SubsetOfSize(s - {x}, n);
    }
  }
}
