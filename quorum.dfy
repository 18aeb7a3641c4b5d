/** The majority size the cluster uses everywhere: `n / 2 + 1` of `n` voting members. */
module Quorum {
  function Majority(n: nat): (m: nat)
    ensures n >= 1 ==> 1 <= m <= n
    ensures 2 * m > n
    ensures 2 * (m - 1) <= n
  {
    n / 2 + 1
  }

  /** Any two majorities of the same set of members share a member. */
  lemma {:induction false} MajoritiesIntersect<T>(members: set<T>, a: set<T>, b: set<T>)
    requires a <= members && b <= members
    requires |a| >= Majority(|members|) && |b| >= Majority(|members|)
    ensures a * b != {}
  {
    var both := a * b;
    assert |a + b| <= |members| by { SubsetCardinality(a + b, members); }
    assert |a + b| == |a| + |b| - |both|;
  }

  lemma SubsetCardinality<T>(small: set<T>, big: set<T>)
    requires small <= big
    ensures |small| <= |big|
  {
    assert big == small + (big - small);
  }
}
