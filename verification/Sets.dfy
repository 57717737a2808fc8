/** A fact about finite sets. */
module Sets {
  lemma SmallerSet<T>(a: set<T>, b: set<T>)
    requires a < b
    ensures |a| < |b|
  {
    var x :| x in b && x !in a;
    assert b == a + (b - a);
    assert x in b - a;
    assert |b| == |a| + |b - a|;
  }
}
