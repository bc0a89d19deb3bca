/** Sums of an integer-valued function over a finite set. */
module Sums {

  ghost function Sum<K(!new)>(s: set<K>, f: K -> int): int {
    if s == {} then 0 else
      var k :| k in s;
      f(k) + Sum(s - {k}, f)
  }

  /** A sum may be started at any of its members. */
  lemma {:induction false} Remove<K(!new)>(s: set<K>, f: K -> int, k: K)
    requires k in s
    ensures Sum(s, f) == f(k) + Sum(s - {k}, f)
    decreases s
  {
    var m :| m in s && Sum(s, f) == f(m) + Sum(s - {m}, f);
    if m != k {
      Remove(s - {m}, f, k);
      Remove(s - {k}, f, m);
      assert s - {m} - {k} == s - {k} - {m};
    }
  }

  lemma {:induction false} Insert<K(!new)>(s: set<K>, f: K -> int, k: K)
    requires k !in s
    ensures Sum(s + {k}, f) == f(k) + Sum(s, f)
  {
    Remove(s + {k}, f, k);
    assert s + {k} - {k} == s;
  }

  lemma {:induction false} LessEq<K(!new)>(s: set<K>, f: K -> int, g: K -> int)
    requires forall k :: k in s ==> f(k) <= g(k)
    ensures Sum(s, f) <= Sum(s, g)
    decreases s
  {
    if s != {} {
      var k :| k in s;
      Remove(s, f, k);
      Remove(s, g, k);
      LessEq(s - {k}, f, g);
    }
  }

  lemma {:induction false} Congruent<K(!new)>(s: set<K>, f: K -> int, g: K -> int)
    requires forall k :: k in s ==> f(k) == g(k)
    ensures Sum(s, f) == Sum(s, g)
  {
    LessEq(s, f, g);
    LessEq(s, g, f);
  }

  lemma {:induction false} Disjoint<K(!new)>(s: set<K>, t: set<K>, f: K -> int)
    requires s !! t
    ensures Sum(s + t, f) == Sum(s, f) + Sum(t, f)
    decreases s
  {
    if s == {} {
      assert s + t == t;
    } else {
      var k :| k in s;
      Remove(s, f, k);
      Remove(s + t, f, k);
      assert s + t - {k} == (s - {k}) + t;
      Disjoint(s - {k}, t, f);
    }
  }

  lemma {:induction false} Zero<K(!new)>(s: set<K>)
    ensures Sum(s, _ => 0) == 0
    decreases s
  {
    if s != {} {
      var k :| k in s;
      Remove(s, _ => 0, k);
      Zero(s - {k});
    }
  }

  lemma {:induction false} NonNegative<K(!new)>(s: set<K>, f: K -> int)
    requires forall k :: k in s ==> f(k) >= 0
    ensures Sum(s, f) >= 0
  {
    LessEq(s, _ => 0, f);
    Zero(s);
  }

  /** With non-negative terms a sum over fewer members is no larger. */
  lemma {:induction false} Subset<K(!new)>(s: set<K>, t: set<K>, f: K -> int)
    requires s <= t
    requires forall k :: k in t ==> f(k) >= 0
    ensures 0 <= Sum(s, f) <= Sum(t, f)
  {
    assert t == s + (t - s);
    Disjoint(s, t - s, f);
    NonNegative(t - s, f);
    NonNegative(s, f);
  }
}
