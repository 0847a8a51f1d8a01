/** The fact about finite sets that the worklists end by. */
module Sets {

  lemma SmallerSet<T>(a: set<T>, b: set<T>)
    requires a < b
    ensures |a| < |b|
  {
    assert b == a + (b - a) && |b - a| > 0;
  }

  /** The more are held, the fewer are left. */
  lemma FewerLeft<T>(all: set<T>, held: set<T>, more: set<T>)
    requires held < more <= all
    ensures |all - more| < |all - held|
  {
    var x :| x in more && x !in held;
    assert x in all - held && x !in all - more;
    SmallerSet(all - more, all - held);
  }
}
