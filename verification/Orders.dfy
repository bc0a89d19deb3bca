/** Least members of finite sets under a strict total order. */
module Orders {

  ghost predicate TotalOn<K(!new)>(s: set<K>, less: (K, K) -> bool) {
    && (forall a, b :: a in s && b in s ==> a == b || less(a, b) || less(b, a))
    && forall a, b, c :: a in s && b in s && c in s && less(a, b) && less(b, c) ==> less(a, c)
  }

  ghost predicate IsLeast<K(!new)>(s: set<K>, less: (K, K) -> bool, k: K) {
    k in s && forall x :: x in s && x != k ==> less(k, x)
  }

  lemma {:induction false} LeastExists<K(!new)>(s: set<K>, less: (K, K) -> bool)
    requires s != {} && TotalOn(s, less)
    ensures exists k :: IsLeast(s, less, k)
    decreases s
  {
    var k :| k in s;
    if s == {k} {
      assert IsLeast(s, less, k);
    } else {
      assert s - {k} != {};
      LeastExists(s - {k}, less);
      var r :| IsLeast(s - {k}, less, r);
      var best := if less(k, r) then k else r;
      forall x | x in s && x != best ensures less(best, x) {
        assert x != k && x != r ==> x in s - {k} && less(r, x);
      }
      assert IsLeast(s, less, best);
    }
  }
}
