/** Counting finite sets. */
module Collections {

  /** A set that gains one element, or none. */
  lemma GrowsBy(before: set<nat>, after: set<nat>, n: nat, grows: bool)
    requires n !in before && forall g :: g in after <==> g in before || (g == n && grows)
    ensures |after| == |before| + if grows then 1 else 0
  {
    if grows {
      assert after == before + {n};
    } else {
      assert after == before;
    }
  }

  /** A set missing one element of another that contains it is smaller. */
  lemma FewerThan(a: set<nat>, b: set<nat>, p: nat)
    requires a <= b && p in b && p !in a
    ensures |a| < |b|
  {
    assert b == a + (b - a);
    assert |b - a| > 0 by { assert p in b - a; }
  }
}
