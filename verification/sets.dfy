/** Facts about finite sets shared by the models. */
module Sets {

  /** A subset is no larger than its superset. */
  lemma {:induction false} SubsetCard<T>(b: set<T>, a: set<T>)
    requires b <= a
    ensures |b| <= |a|
  {
    assert a == b + (a - b);
  }

  /** A subset of `a` as large as `a` is `a` itself. */
  lemma {:induction false} FullSubsetIsAll<T>(a: set<T>, b: set<T>)
    requires b <= a && |b| == |a|
    ensures b == a
  {
    if b != a {
      assert exists y :: y in a && y !in b;
      var x :| x in a && x !in b;
      assert b <= a - {x};
      SubsetCard(b, a - {x});
    }
  }
}
