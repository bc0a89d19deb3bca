/** The GHOST head and the ranked frontier behind it. */
module ForkChoice {
  import opened Prelude
  import opened Dag
  import opened Scores
  import Orders

  // ---- Ranking: score descending, hash ascending ----

  predicate Before(scores: ScoreMap, a: Hash, b: Hash) {
    Get(scores, a) > Get(scores, b) || (Get(scores, a) == Get(scores, b) && a < b)
  }

  ghost predicate Sorted(scores: ScoreMap, xs: seq<Hash>) {
    forall i, j :: 0 <= i < j < |xs| ==> Before(scores, xs[i], xs[j])
  }

  ghost predicate Lists(xs: seq<Hash>, s: set<Hash>) {
    forall x :: x in xs <==> x in s
  }

  lemma BestExists(scores: ScoreMap, s: set<Hash>)
    requires s != {}
    ensures exists r :: r in s && forall x :: x in s && x != r ==> Before(scores, r, x)
  {
    Orders.LeastExists(s, (a, b) => Before(scores, a, b));
    var r :| Orders.IsLeast(s, (a, b) => Before(scores, a, b), r);
    assert r in s && forall x :: x in s && x != r ==> Before(scores, r, x);
  }

  function Best(scores: ScoreMap, s: set<Hash>): (r: Hash)
    requires s != {}
    ensures r in s
    ensures forall x :: x in s && x != r ==> Before(scores, r, x)
    ensures forall x :: x in s ==> Get(scores, x) < Get(scores, r) || (Get(scores, x) == Get(scores, r) && r <= x)
  {
    BestExists(scores, s);
    var r :| r in s && forall x :: x in s && x != r ==> Before(scores, r, x);
    r
  }

  /** The result of sorting the members of `s`. */
  function Ranked(scores: ScoreMap, s: set<Hash>): (r: seq<Hash>)
    ensures Sorted(scores, r)
    ensures Lists(r, s)
    ensures |r| == |s|
    decreases s
  {
    if s == {} then []
    else
      var best := Best(scores, s);
      [best] + Ranked(scores, s - {best})
  }

  lemma {:induction false} RankedUnfolds(scores: ScoreMap, s: set<Hash>)
    requires s != {}
    ensures Ranked(scores, s) == [Best(scores, s)] + Ranked(scores, s - {Best(scores, s)})
  {
  }

  lemma HeadAndTail(xs: seq<Hash>)
    requires xs != []
    ensures xs == [xs[0]] + xs[1..]
  {
  }

  lemma SortedStartsWithBest(scores: ScoreMap, s: set<Hash>, xs: seq<Hash>)
    requires Sorted(scores, xs) && xs != []
    requires Lists(xs, s)
    ensures s != {} && xs[0] == Best(scores, s)
    ensures Lists(xs[1..], s - {xs[0]}) && Sorted(scores, xs[1..])
  {
    assert xs[0] in s;
    var best := Best(scores, s);
    var i :| 0 <= i < |xs| && xs[i] == best;
    forall x | x in xs[1..] ensures x in s - {xs[0]} {
      var j :| 0 <= j < |xs[1..]| && xs[1..][j] == x;
      assert Before(scores, xs[0], xs[j + 1]);
    }
  }

  /** Sorting leaves no choice: any sorted listing of a set is `Ranked`. */
  lemma {:induction false} RankedIsUnique(scores: ScoreMap, s: set<Hash>, xs: seq<Hash>)
    requires Sorted(scores, xs)
    requires Lists(xs, s)
    ensures xs == Ranked(scores, s)
    decreases xs
  {
    if xs == [] {
      assert s == {};
    } else {
      SortedStartsWithBest(scores, s, xs);
      RankedIsUnique(scores, s - {xs[0]}, xs[1..]);
      RankedUnfolds(scores, s);
      HeadAndTail(xs);
    }
  }

  /** Ranked lists the set by falling score and, among equal scores, rising hash. */
  lemma {:induction false} RankedOrder(scores: ScoreMap, s: set<Hash>, i: nat, j: nat)
    requires i < j < |Ranked(scores, s)|
    ensures var r := Ranked(scores, s);
            && r[i] in s && r[j] in s
            && (Get(scores, r[i]) > Get(scores, r[j]) || (Get(scores, r[i]) == Get(scores, r[j]) && r[i] < r[j]))
  {
    var r := Ranked(scores, s);
    assert r[i] in r && r[j] in r && Before(scores, r[i], r[j]);
  }

  // ---- The descent ----

  /** Scored blocks whose main parent is `b`. */
  function ScoredMainChildren(dag: Blocks, scores: ScoreMap, b: Hash): set<Hash> {
    set c | c in scores && MainParent(dag, c) == Some(b)
  }

  /** Scored blocks above `h`: what is left for a descent that reached it. */
  ghost function Upper(dag: Blocks, scores: ScoreMap, h: Hash): set<Hash> {
    set c | c in scores && c in dag && (h in dag ==> dag[c].number > dag[h].number)
  }

  lemma ChildrenAreUpper(dag: Blocks, scores: ScoreMap, h: Hash, c: Hash)
    requires HeightsFall(dag)
    requires c in ScoredMainChildren(dag, scores, h)
    ensures Upper(dag, scores, c) < Upper(dag, scores, h)
  {
    assert dag[c].parents[0] == h;
    assert c in Upper(dag, scores, h);
  }

  /** The blocks a heaviest-child descent from `h` commits to, `h` first. */
  function Descent(dag: Blocks, scores: ScoreMap, h: Hash): (r: seq<Hash>)
    requires HeightsFall(dag)
    ensures r != [] && r[0] == h
    decreases Upper(dag, scores, h)
  {
    var children := ScoredMainChildren(dag, scores, h);
    if children == {} then [h]
    else
      var best := Best(scores, children);
      ChildrenAreUpper(dag, scores, h, best);
      [h] + Descent(dag, scores, best)
  }

  function Last<T>(s: seq<T>): T
    requires s != []
  {
    s[|s| - 1]
  }

  function Head(dag: Blocks, scores: ScoreMap, lca: Hash): Hash
    requires HeightsFall(dag)
  {
    Last(Descent(dag, scores, lca))
  }

  /** Latest messages other than the head with no scored main-parent child. */
  function Frontier(dag: Blocks, scores: ScoreMap, latest: LatestMessages, head: Hash): set<Hash> {
    set v | v in latest && latest[v] != head && ScoredMainChildren(dag, scores, latest[v]) == {} :: latest[v]
  }

  function Tips(dag: Blocks, scores: ScoreMap, latest: LatestMessages, lca: Hash): seq<Hash>
    requires HeightsFall(dag)
  {
    var head := Head(dag, scores, lca);
    [head] + Ranked(scores, Frontier(dag, scores, latest, head))
  }

  method FindHead(dag: Blocks, scores: ScoreMap, lca: Hash) returns (head: Hash)
    requires HeightsFall(dag)
    ensures head == Head(dag, scores, lca)
  {
    head := lca;
    while ScoredMainChildren(dag, scores, head) != {}
      invariant Last(Descent(dag, scores, head)) == Head(dag, scores, lca)
      decreases Upper(dag, scores, head)
    {
      var sorted := Ranked(scores, ScoredMainChildren(dag, scores, head));
      ChildrenAreUpper(dag, scores, head, sorted[0]);
      head := sorted[0];
    }
    assert Descent(dag, scores, head) == [head];
  }

  lemma FrontierGrows(dag: Blocks, scores: ScoreMap, latest: LatestMessages, head: Hash, v: Validator, h: Hash)
    requires v !in latest
    ensures Frontier(dag, scores, latest[v := h], head)
         == Frontier(dag, scores, latest, head)
            + if h != head && ScoredMainChildren(dag, scores, h) == {} then {h} else {}
  {
    var grown := latest[v := h];
    forall x | x in Frontier(dag, scores, latest, head) ensures x in Frontier(dag, scores, grown, head) {
      var u :| u in latest && latest[u] == x && x != head && ScoredMainChildren(dag, scores, latest[u]) == {};
      assert grown[u] == x;
    }
    assert grown[v] == h;
  }

  /** `rank_forkchoices`: whatever order the latest messages come in. */
  method RankForkchoices(dag: Blocks, lca: Hash, latest: LatestMessages, scores: ScoreMap)
    returns (tips: seq<Hash>)
    requires HeightsFall(dag)
    ensures tips == Tips(dag, scores, latest, lca)
  {
    var head := FindHead(dag, scores, lca);
    var frontier: set<Hash> := {};
    var todo := latest.Keys;
    ghost var done: LatestMessages := map[];
    while todo != {}
      invariant todo <= latest.Keys
      invariant done == Restrict(latest, latest.Keys - todo)
      invariant frontier == Frontier(dag, scores, done, head)
      decreases todo
    {
      var v :| v in todo;
      todo := todo - {v};
      FrontierGrows(dag, scores, done, head, v, latest[v]);
      if latest[v] != head && ScoredMainChildren(dag, scores, latest[v]) == {} {
        frontier := frontier + {latest[v]};
      }
      done := done[v := latest[v]];
    }
    assert done == latest;
    return [head] + Ranked(scores, frontier);
  }
}
