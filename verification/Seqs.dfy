/** Lists read as sets. */
module Seqs {

  ghost function Members<T>(xs: seq<T>): set<T> {
    set x | x in xs
  }

  ghost predicate Distinct<T>(xs: seq<T>) {
    forall i, j :: 0 <= i < j < |xs| ==> xs[i] != xs[j]
  }

  lemma {:induction false} DistinctCount<T>(xs: seq<T>)
    requires Distinct(xs)
    ensures |Members(xs)| == |xs|
    decreases |xs|
  {
    if xs == [] {
      assert Members(xs) == {};
    } else {
      var front, last := xs[..|xs| - 1], xs[|xs| - 1];
      DistinctCount(front);
      assert last !in front;
      assert Members(xs) == Members(front) + {last};
    }
  }

  lemma MembersOfTail<T>(xs: seq<T>)
    requires xs != []
    ensures xs[0] in Members(xs) && Members(xs) - {xs[0]} <= Members(xs[1..]) <= Members(xs)
    ensures Distinct(xs) ==> Members(xs[1..]) == Members(xs) - {xs[0]}
  {
    forall x | x in xs && x != xs[0] ensures x in xs[1..] {
      var i :| 0 <= i < |xs| && xs[i] == x;
      assert xs[1..][i - 1] == x;
    }
  }

  lemma MembersOfCons<T>(x: T, xs: seq<T>)
    ensures Members([x] + xs) == {x} + Members(xs)
  {
  }

  lemma MembersOfSnoc<T>(xs: seq<T>, x: T)
    ensures Members(xs + [x]) == Members(xs) + {x}
  {
  }
}
