/** What the fork choice means: a block's score is its subtree's support, a
    majority branch holds the head, and the tips are an antichain of latest
    messages. */
module Ghost {
  import opened Prelude
  import opened Dag
  import opened Scores
  import opened ForkChoice
  import Sums

  // ---- The shape of one validator's walk ----

  /** Blocks above the walk do not change it. */
  lemma {:induction false} WalkFrame(dag: Blocks, h: Hash, floor: int, visited: set<Hash>, extra: set<Hash>)
    requires HeightsFall(dag)
    requires forall x :: x in extra ==> x in dag && (h in dag ==> dag[x].number > dag[h].number)
    ensures Walk(dag, h, floor, visited).Err? ==> Walk(dag, h, floor, visited + extra) == Walk(dag, h, floor, visited)
    ensures Walk(dag, h, floor, visited).Ok? ==>
              Walk(dag, h, floor, visited + extra) == Ok(Walk(dag, h, floor, visited).value + extra)
    decreases dag.Keys - visited
  {
    if h !in visited && WeightGap(dag, h).None? {
      assert visited + extra + {h} == visited + {h} + extra;
      if NextHops(dag, h, floor) != [] {
        assert h in dag.Keys - visited;
        WalkFrame(dag, dag[h].parents[0], floor, visited + {h}, extra);
      }
    }
  }

  /** One step of a walk: the block, then its main parent's walk. */
  lemma {:induction false} SupportUnfolds(dag: Blocks, h: Hash, floor: int)
    requires HeightsFall(dag)
    requires Walk(dag, h, floor, {}).Ok?
    ensures h in dag && WeightGap(dag, h).None?
    ensures NextHops(dag, h, floor) == [] ==> Support(dag, h, floor) == {h}
    ensures NextHops(dag, h, floor) != [] ==>
              var p := dag[h].parents[0];
              && Walk(dag, p, floor, {}).Ok?
              && Support(dag, h, floor) == {h} + Support(dag, p, floor)
              && p in dag && dag[p].number < dag[h].number && Lower(dag, p) < Lower(dag, h)
  {
    assert {} + {h} == {h};
    if NextHops(dag, h, floor) != [] {
      WalkFrame(dag, dag[h].parents[0], floor, {}, {h});
      ParentsAreLower(dag, h, 0);
    }
  }

  /** A walk holds readable blocks, none above its start, and goes on wherever
      the next hop leads. */
  lemma {:induction false} SupportMember(dag: Blocks, h: Hash, floor: int, b: Hash)
    requires HeightsFall(dag)
    requires Walk(dag, h, floor, {}).Ok? && b in Support(dag, h, floor)
    ensures h in dag && b in dag && dag[b].number <= dag[h].number
    ensures NextHops(dag, b, floor) != [] ==> dag[b].parents[0] in dag && dag[b].parents[0] in Support(dag, h, floor)
    decreases if h in dag then Lower(dag, h) else {}
  {
    SupportUnfolds(dag, h, floor);
    if b == h {
      if NextHops(dag, h, floor) != [] {
        SupportUnfolds(dag, dag[h].parents[0], floor);
      }
    } else {
      SupportMember(dag, dag[h].parents[0], floor, b);
    }
  }

  /** Every block of a walk but the first was reached from a walked child. */
  lemma {:induction false} SupportChild(dag: Blocks, h: Hash, floor: int, b: Hash) returns (c: Hash)
    requires HeightsFall(dag)
    requires Walk(dag, h, floor, {}).Ok? && b in Support(dag, h, floor) && b != h
    ensures c in Support(dag, h, floor) && c in dag && NextHops(dag, c, floor) == [b]
    decreases if h in dag then Lower(dag, h) else {}
  {
    SupportUnfolds(dag, h, floor);
    var p := dag[h].parents[0];
    if b == p {
      c := h;
    } else {
      c := SupportChild(dag, p, floor, b);
    }
  }

  /** A walk passes through at most one child of any block: siblings at one
      height are never supported by the same validator. */
  lemma {:induction false} SupportChildIsUnique(dag: Blocks, h: Hash, floor: int, c: Hash, d: Hash)
    requires HeightsFall(dag)
    requires Walk(dag, h, floor, {}).Ok?
    requires c in Support(dag, h, floor) && d in Support(dag, h, floor) && c in dag && d in dag
    requires NextHops(dag, c, floor) == NextHops(dag, d, floor) != []
    ensures c == d
    decreases if h in dag then Lower(dag, h) else {}
  {
    SupportUnfolds(dag, h, floor);
    if c != d {
      var p := dag[h].parents[0];
      if c != h && d != h {
        SupportChildIsUnique(dag, p, floor, c, d);
      } else {
        SupportMember(dag, p, floor, if c == h then d else c);
      }
    }
  }

  // ---- Scores are subtree support ----

  /** All walks end, and start from the blocks the node holds. */
  ghost predicate WalksEnd(dag: Blocks, latest: LatestMessages, floor: int) {
    forall v :: v in latest ==> Walk(dag, latest[v], floor, {}).Ok?
  }

  ghost predicate IsMainChild(dag: Blocks, c: Hash, b: Hash) {
    c in dag && b in dag && MainParent(dag, c) == Some(b)
  }

  /** Validators sitting on `b` itself. */
  ghost function Sitting(latest: LatestMessages, b: Hash): set<Validator> {
    set v | v in latest && latest[v] == b
  }

  /** Validators supporting one of `cs`. */
  ghost function SupportersOfAny(dag: Blocks, latest: LatestMessages, floor: int, cs: set<Hash>): set<Validator> {
    set v, c | v in latest && c in cs && c in Support(dag, latest[v], floor) :: v
  }

  /** The weight, read at `b`, of the validators supporting `c`. */
  ghost function WeightAt(dag: Blocks, latest: LatestMessages, floor: int, c: Hash, b: Hash): int {
    Sums.Sum(Supporters(dag, latest, floor, c), v => Weight(dag, b, v))
  }

  /** Above the floor, supporting a child and supporting its main parent from
      further up is the same thing. */
  lemma ChildSupportsParent(dag: Blocks, latest: LatestMessages, floor: int, v: Validator, c: Hash, b: Hash)
    requires HeightsFall(dag) && WalksEnd(dag, latest, floor) && v in latest
    requires IsMainChild(dag, c, b) && dag[b].number >= floor
    requires c in Support(dag, latest[v], floor)
    ensures b in Support(dag, latest[v], floor) && b != latest[v]
  {
    assert dag[c].parents[0] == b;
    SupportMember(dag, latest[v], floor, c);
    assert NextHops(dag, c, floor) == [b];
  }

  lemma SiblingsExclude(dag: Blocks, latest: LatestMessages, floor: int, v: Validator, c: Hash, d: Hash, b: Hash)
    requires HeightsFall(dag) && WalksEnd(dag, latest, floor) && v in latest
    requires IsMainChild(dag, c, b) && IsMainChild(dag, d, b) && dag[b].number >= floor
    requires c in Support(dag, latest[v], floor) && d in Support(dag, latest[v], floor)
    ensures c == d
  {
    assert dag[c].parents[0] == b && dag[d].parents[0] == b;
    SupportChildIsUnique(dag, latest[v], floor, c, d);
  }

  /** A supporter sits on the block or supports one scored main child. */
  lemma SupportersSplit(dag: Blocks, latest: LatestMessages, floor: int, b: Hash)
    requires HeightsFall(dag) && WalksEnd(dag, latest, floor)
    requires b in dag && dag[b].number >= floor
    ensures var cs := ScoredMainChildren(dag, TrueScores(dag, latest, floor), b);
            && Supporters(dag, latest, floor, b) == Sitting(latest, b) + SupportersOfAny(dag, latest, floor, cs)
            && Sitting(latest, b) !! SupportersOfAny(dag, latest, floor, cs)
  {
    var cs := ScoredMainChildren(dag, TrueScores(dag, latest, floor), b);
    forall v | v in Supporters(dag, latest, floor, b) && latest[v] != b
      ensures v in SupportersOfAny(dag, latest, floor, cs)
    {
      var c := SupportChild(dag, latest[v], floor, b);
      assert c in Scored(dag, latest, floor);
      assert c in cs;
    }
    forall v | v in SupportersOfAny(dag, latest, floor, cs)
      ensures v in Supporters(dag, latest, floor, b) && latest[v] != b
    {
      var c :| c in cs && c in Support(dag, latest[v], floor);
      ChildSupportsParent(dag, latest, floor, v, c, b);
    }
    forall v | v in Sitting(latest, b) ensures v in Supporters(dag, latest, floor, b) {
      WalkGrows(dag, latest[v], floor, {});
    }
  }

  lemma AnySplits(dag: Blocks, latest: LatestMessages, floor: int, cs: set<Hash>, c: Hash)
    requires c in cs
    ensures SupportersOfAny(dag, latest, floor, cs)
         == Supporters(dag, latest, floor, c) + SupportersOfAny(dag, latest, floor, cs - {c})
  {
    forall v | v in SupportersOfAny(dag, latest, floor, cs)
      ensures v in Supporters(dag, latest, floor, c) || v in SupportersOfAny(dag, latest, floor, cs - {c})
    {
      var d :| d in cs && d in Support(dag, latest[v], floor);
      assert d != c ==> d in cs - {c};
    }
    forall v | v in SupportersOfAny(dag, latest, floor, cs - {c}) ensures v in SupportersOfAny(dag, latest, floor, cs) {
      var d :| d in cs - {c} && d in Support(dag, latest[v], floor);
      assert d in cs;
    }
  }

  lemma {:induction false} ChildrenAddUp(dag: Blocks, latest: LatestMessages, floor: int, b: Hash, cs: set<Hash>)
    requires HeightsFall(dag) && WalksEnd(dag, latest, floor)
    requires b in dag && dag[b].number >= floor
    requires forall c :: c in cs ==> IsMainChild(dag, c, b)
    ensures Sums.Sum(SupportersOfAny(dag, latest, floor, cs), v => Weight(dag, b, v))
         == Sums.Sum(cs, c => WeightAt(dag, latest, floor, c, b))
    decreases cs
  {
    if cs == {} {
      assert SupportersOfAny(dag, latest, floor, cs) == {};
    } else {
      var c :| c in cs;
      var rest := cs - {c};
      ChildrenAddUp(dag, latest, floor, b, rest);
      var mine, others := Supporters(dag, latest, floor, c), SupportersOfAny(dag, latest, floor, rest);
      AnySplits(dag, latest, floor, cs, c);
      forall v | v in mine && v in others ensures false {
        var d :| d in rest && d in Support(dag, latest[v], floor);
        SiblingsExclude(dag, latest, floor, v, c, d, b);
      }
      Sums.Disjoint(mine, others, v => Weight(dag, b, v));
      Sums.Remove(cs, c => WeightAt(dag, latest, floor, c, b), c);
    }
  }

  /** Weight read at `b` splits into the messages sitting on it and its
      scored main children's supporters. */
  lemma TotalSplits(dag: Blocks, latest: LatestMessages, floor: int, b: Hash)
    requires HeightsFall(dag) && WalksEnd(dag, latest, floor)
    requires b in dag && dag[b].number >= floor
    ensures Total(dag, latest, floor, b)
         == Sums.Sum(Sitting(latest, b), v => Weight(dag, b, v))
            + Sums.Sum(ScoredMainChildren(dag, TrueScores(dag, latest, floor), b),
                       c => WeightAt(dag, latest, floor, c, b))
  {
    var cs := ScoredMainChildren(dag, TrueScores(dag, latest, floor), b);
    forall c | c in cs ensures IsMainChild(dag, c, b) {
    }
    SupportersSplit(dag, latest, floor, b);
    ChildrenAddUp(dag, latest, floor, b, cs);
    Sums.Disjoint(Sitting(latest, b), SupportersOfAny(dag, latest, floor, cs), v => Weight(dag, b, v));
  }

  /** On the scored region a validator weighs the same everywhere. */
  ghost predicate WeightsConstant(dag: Blocks, latest: LatestMessages, floor: int) {
    forall v, c, b :: (v in latest && c in Support(dag, latest[v], floor) && IsMainChild(dag, c, b)
                       && dag[b].number >= floor) ==> Weight(dag, c, v) == Weight(dag, b, v)
  }

  /** On the scored region no validator weighs more on a child than on its
      main parent: bonds may be slashed away but not raised. */
  ghost predicate WeightsNeverRise(dag: Blocks, latest: LatestMessages, floor: int) {
    forall v, c, b :: (v in latest && c in Support(dag, latest[v], floor) && IsMainChild(dag, c, b)
                       && dag[b].number >= floor) ==> Weight(dag, c, v) <= Weight(dag, b, v)
  }

  /** With constant weights a score is the weight sitting on the block plus the
      scores of its scored main-parent children. */
  lemma ScoreIsSubtreeSupport(dag: Blocks, latest: LatestMessages, floor: int, b: Hash)
    requires HeightsFall(dag) && WalksEnd(dag, latest, floor) && WeightsConstant(dag, latest, floor)
    requires b in dag && dag[b].number >= floor
    ensures var scores := TrueScores(dag, latest, floor);
            Get(scores, b) == Sums.Sum(Sitting(latest, b), v => Weight(dag, b, v))
                              + Sums.Sum(ScoredMainChildren(dag, scores, b), c => Get(scores, c))
  {
    var scores := TrueScores(dag, latest, floor);
    var cs := ScoredMainChildren(dag, scores, b);
    TotalSplits(dag, latest, floor, b);
    GetIsTotal(dag, latest, floor, b);
    forall c | c in cs ensures WeightAt(dag, latest, floor, c, b) == Get(scores, c) {
      GetIsTotal(dag, latest, floor, c);
      assert IsMainChild(dag, c, b);
      Sums.Congruent(Supporters(dag, latest, floor, c), v => Weight(dag, b, v), v => Weight(dag, c, v));
    }
    Sums.Congruent(cs, c => WeightAt(dag, latest, floor, c, b), c => Get(scores, c));
  }

  /** Distinct scored main children share their parent's score between them. */
  lemma {:induction false} ChildrenShareScore(dag: Blocks, latest: LatestMessages, floor: int, b: Hash, cs: set<Hash>)
    requires HeightsFall(dag) && WeightsNonNegative(dag) && WalksEnd(dag, latest, floor)
    requires WeightsNeverRise(dag, latest, floor)
    requires b in dag && dag[b].number >= floor
    requires cs <= ScoredMainChildren(dag, TrueScores(dag, latest, floor), b)
    ensures Sums.Sum(cs, c => Total(dag, latest, floor, c)) <= Total(dag, latest, floor, b)
  {
    var all := ScoredMainChildren(dag, TrueScores(dag, latest, floor), b);
    TotalSplits(dag, latest, floor, b);
    forall v ensures Weight(dag, b, v) >= 0 { WeightIsNonNegative(dag, b, v); }
    Sums.NonNegative(Sitting(latest, b), v => Weight(dag, b, v));
    forall c | c in all
      ensures 0 <= Total(dag, latest, floor, c) <= WeightAt(dag, latest, floor, c, b)
    {
      assert IsMainChild(dag, c, b);
      TotalIsMonotone(dag, latest, latest, floor, c);
      Sums.LessEq(Supporters(dag, latest, floor, c), v => Weight(dag, c, v), v => Weight(dag, b, v));
    }
    Sums.Subset(cs, all, c => Total(dag, latest, floor, c));
    Sums.LessEq(all, c => Total(dag, latest, floor, c), c => WeightAt(dag, latest, floor, c, b));
  }

  lemma SiblingsShareScore(dag: Blocks, latest: LatestMessages, floor: int, b: Hash, c: Hash, d: Hash)
    requires HeightsFall(dag) && WeightsNonNegative(dag) && WalksEnd(dag, latest, floor)
    requires WeightsNeverRise(dag, latest, floor)
    requires b in dag && dag[b].number >= floor
    requires c in ScoredMainChildren(dag, TrueScores(dag, latest, floor), b)
    requires d in ScoredMainChildren(dag, TrueScores(dag, latest, floor), b) && c != d
    ensures Total(dag, latest, floor, c) + Total(dag, latest, floor, d) <= Total(dag, latest, floor, b)
  {
    ChildrenShareScore(dag, latest, floor, b, {c, d});
    Sums.Remove({c, d}, x => Total(dag, latest, floor, x), c);
    assert {c, d} - {c} == {d};
    Sums.Remove({d}, x => Total(dag, latest, floor, x), d);
    assert {d} - {d} == {};
  }

  // ---- The majority branch ----

  /** A chain of main-parent edges, oldest block first. */
  ghost predicate MainPath(dag: Blocks, path: seq<Hash>) {
    && path != []
    && (forall i :: 0 <= i < |path| ==> path[i] in dag)
    && forall i {:trigger path[i]} :: 0 < i < |path| ==> MainParent(dag, path[i]) == Some(path[i - 1])
  }

  lemma ChildScoresLess(dag: Blocks, latest: LatestMessages, floor: int, b: Hash, c: Hash)
    requires HeightsFall(dag) && WeightsNonNegative(dag) && WalksEnd(dag, latest, floor)
    requires WeightsNeverRise(dag, latest, floor)
    requires IsMainChild(dag, c, b) && dag[b].number >= floor
    ensures Total(dag, latest, floor, c) <= Total(dag, latest, floor, b)
  {
    TotalIsMonotone(dag, latest, latest, floor, b);
    if c in Scored(dag, latest, floor) {
      ChildrenShareScore(dag, latest, floor, b, {c});
      Sums.Remove({c}, x => Total(dag, latest, floor, x), c);
      assert {c} - {c} == {};
    } else {
      UnsupportedScoresZero(dag, latest, floor, c);
    }
  }

  lemma PathStep(dag: Blocks, path: seq<Hash>)
    requires HeightsFall(dag) && MainPath(dag, path) && |path| > 1
    ensures IsMainChild(dag, path[1], path[0]) && dag[path[0]].number < dag[path[1]].number
    ensures MainPath(dag, path[1..]) && Last(path[1..]) == Last(path)
  {
    assert MainParent(dag, path[1]) == Some(path[0]);
    assert dag[path[1]].parents[0] == path[0];
  }

  /** Scores fall along a main path that starts at or above the floor. */
  lemma {:induction false} PathScoresFall(dag: Blocks, latest: LatestMessages, floor: int, path: seq<Hash>)
    requires HeightsFall(dag) && WeightsNonNegative(dag) && WalksEnd(dag, latest, floor)
    requires WeightsNeverRise(dag, latest, floor)
    requires MainPath(dag, path) && dag[path[0]].number >= floor
    ensures Total(dag, latest, floor, Last(path)) <= Total(dag, latest, floor, path[0])
    decreases |path|
  {
    if |path| > 1 {
      PathStep(dag, path);
      ChildScoresLess(dag, latest, floor, path[0], path[1]);
      PathScoresFall(dag, latest, floor, path[1..]);
    }
  }

  /** The descent commits to a child that outweighs all its siblings together. */
  lemma {:induction false} DescentTakes(dag: Blocks, latest: LatestMessages, floor: int, b: Hash, c: Hash)
    requires HeightsFall(dag) && WeightsNonNegative(dag) && WalksEnd(dag, latest, floor)
    requires WeightsNeverRise(dag, latest, floor)
    requires IsMainChild(dag, c, b) && dag[b].number >= floor
    requires 2 * Total(dag, latest, floor, c) > Total(dag, latest, floor, b)
    ensures var scores := TrueScores(dag, latest, floor);
            Descent(dag, scores, b) == [b] + Descent(dag, scores, c)
  {
    var scores := TrueScores(dag, latest, floor);
    TotalIsMonotone(dag, latest, latest, floor, b);
    if c !in Scored(dag, latest, floor) {
      UnsupportedScoresZero(dag, latest, floor, c);
    }
    var cs := ScoredMainChildren(dag, scores, b);
    assert c in cs;
    var best := Best(scores, cs);
    if best != c {
      SiblingsShareScore(dag, latest, floor, b, c, best);
      GetIsTotal(dag, latest, floor, c);
      GetIsTotal(dag, latest, floor, best);
    }
  }

  lemma {:induction false} DescentFollows(dag: Blocks, latest: LatestMessages, floor: int, path: seq<Hash>, bound: int)
    requires HeightsFall(dag) && WeightsNonNegative(dag) && WalksEnd(dag, latest, floor)
    requires WeightsNeverRise(dag, latest, floor)
    requires MainPath(dag, path) && dag[path[0]].number >= floor
    requires Total(dag, latest, floor, path[0]) <= bound < 2 * Total(dag, latest, floor, Last(path))
    ensures path <= Descent(dag, TrueScores(dag, latest, floor), path[0])
    decreases |path|
  {
    if |path| > 1 {
      PathStep(dag, path);
      PathScoresFall(dag, latest, floor, path[1..]);
      ChildScoresLess(dag, latest, floor, path[0], path[1]);
      DescentTakes(dag, latest, floor, path[0], path[1]);
      DescentFollows(dag, latest, floor, path[1..], bound);
      assert path == [path[0]] + path[1..];
    }
  }

  /** A block main-descended from the LCA that scores more than half of what
      the LCA scores is on the descent, and so is every block between: the head
      is that block or main-descends from it. */
  lemma {:induction false} MajorityBranchWins(dag: Blocks, latest: LatestMessages, lca: Hash, path: seq<Hash>)
    requires HeightsFall(dag) && WeightsNonNegative(dag)
    requires lca in dag && WalksEnd(dag, latest, dag[lca].number)
    requires WeightsNeverRise(dag, latest, dag[lca].number)
    requires MainPath(dag, path) && path[0] == lca
    requires var scores := TrueScores(dag, latest, dag[lca].number);
             2 * Get(scores, Last(path)) > Get(scores, lca)
    ensures path <= Descent(dag, TrueScores(dag, latest, dag[lca].number), lca)
  {
    var floor := dag[lca].number;
    GetIsTotal(dag, latest, floor, lca);
    GetIsTotal(dag, latest, floor, Last(path));
    DescentFollows(dag, latest, floor, path, Total(dag, latest, floor, lca));
  }

  /** The descent is itself a chain of main-parent edges. */
  lemma {:induction false} DescentIsMainPath(dag: Blocks, scores: ScoreMap, h: Hash)
    requires HeightsFall(dag) && h in dag
    ensures MainPath(dag, Descent(dag, scores, h))
    decreases Upper(dag, scores, h)
  {
    var cs := ScoredMainChildren(dag, scores, h);
    if cs != {} {
      var best := Best(scores, cs);
      ChildrenAreUpper(dag, scores, h, best);
      DescentIsMainPath(dag, scores, best);
      var rest := Descent(dag, scores, best);
      var path := [h] + rest;
      forall i | 0 < i < |path| ensures MainParent(dag, path[i]) == Some(path[i - 1]) {
        assert i > 1 ==> path[i] == rest[i - 1] && path[i - 1] == rest[i - 2];
      }
    }
  }

  // ---- The shape of the tips ----

  lemma {:induction false} DescentEnds(dag: Blocks, scores: ScoreMap, h: Hash)
    requires HeightsFall(dag)
    ensures var head := Last(Descent(dag, scores, h));
            && ScoredMainChildren(dag, scores, head) == {}
            && (head == h || head in scores)
    decreases Upper(dag, scores, h)
  {
    var cs := ScoredMainChildren(dag, scores, h);
    if cs != {} {
      var best := Best(scores, cs);
      ChildrenAreUpper(dag, scores, h, best);
      DescentEnds(dag, scores, best);
    }
  }

  lemma WalkedAboveHasChild(dag: Blocks, latest: LatestMessages, floor: int, v: Validator, b: Hash)
    requires HeightsFall(dag) && WalksEnd(dag, latest, floor)
    requires v in latest && b in Support(dag, latest[v], floor) && latest[v] != b
    ensures ScoredMainChildren(dag, TrueScores(dag, latest, floor), b) != {}
  {
    var c := SupportChild(dag, latest[v], floor, b);
    assert c in Scored(dag, latest, floor);
    assert c in ScoredMainChildren(dag, TrueScores(dag, latest, floor), b);
  }

  /** A scored block without scored main children is a latest message. */
  lemma LeafIsLatest(dag: Blocks, latest: LatestMessages, floor: int, b: Hash)
    requires HeightsFall(dag) && WalksEnd(dag, latest, floor)
    requires b in Scored(dag, latest, floor)
    requires ScoredMainChildren(dag, TrueScores(dag, latest, floor), b) == {}
    ensures b in latest.Values
  {
    var v :| v in latest && b in Support(dag, latest[v], floor);
    if latest[v] != b {
      WalkedAboveHasChild(dag, latest, floor, v, b);
    }
  }

  /** No tip repeats, all but the head are latest messages, and every tip is the end
      of its own scored chain. */
  ghost predicate WellShaped(dag: Blocks, scores: ScoreMap, latest: LatestMessages, tips: seq<Hash>) {
    && (forall i, j :: 0 <= i < j < |tips| ==> tips[i] != tips[j])
    && (forall i :: 0 < i < |tips| ==> tips[i] in latest.Values)
    && (forall i :: 0 <= i < |tips| ==> ScoredMainChildren(dag, scores, tips[i]) == {})
  }

  lemma RankedFrontier(dag: Blocks, scores: ScoreMap, latest: LatestMessages, head: Hash, rest: seq<Hash>)
    requires ScoredMainChildren(dag, scores, head) == {}
    requires Sorted(scores, rest) && Lists(rest, Frontier(dag, scores, latest, head))
    ensures WellShaped(dag, scores, latest, [head] + rest)
  {
    forall i | 0 <= i < |rest|
      ensures rest[i] in latest.Values && rest[i] != head && ScoredMainChildren(dag, scores, rest[i]) == {}
    {
      assert rest[i] in rest;
    }
    forall i, j | 0 <= i < j < |rest| ensures rest[i] != rest[j] {
      assert Before(scores, rest[i], rest[j]);
    }
  }

  /** The head leads, being the LCA or a latest message, and the tips are well
      shaped. */
  lemma TipsAreLatestMessages(dag: Blocks, latest: LatestMessages, lca: Hash)
    requires HeightsFall(dag) && lca in dag && WalksEnd(dag, latest, dag[lca].number)
    ensures var scores := TrueScores(dag, latest, dag[lca].number);
            var tips := Tips(dag, scores, latest, lca);
            && tips[0] == Head(dag, scores, lca)
            && (tips[0] == lca || tips[0] in latest.Values)
            && WellShaped(dag, scores, latest, tips)
  {
    var scores := TrueScores(dag, latest, dag[lca].number);
    var head := Head(dag, scores, lca);
    DescentEnds(dag, scores, lca);
    if head != lca {
      LeafIsLatest(dag, latest, dag[lca].number, head);
    }
    RankedFrontier(dag, scores, latest, head, Ranked(scores, Frontier(dag, scores, latest, head)));
  }

  /** A walk from a latest message passes through all its main ancestors down
      to the floor. */
  lemma {:induction false} SupportCoversPath(
      dag: Blocks, latest: LatestMessages, floor: int, v: Validator, path: seq<Hash>)
    requires HeightsFall(dag) && WalksEnd(dag, latest, floor) && v in latest
    requires MainPath(dag, path) && Last(path) == latest[v] && dag[path[0]].number >= floor
    ensures path[0] in Support(dag, latest[v], floor)
    decreases |path|
  {
    if |path| == 1 {
      WalkGrows(dag, latest[v], floor, {});
    } else {
      PathStep(dag, path);
      SupportCoversPath(dag, latest, floor, v, path[1..]);
      SupportMember(dag, latest[v], floor, path[1]);
      assert NextHops(dag, path[1], floor) == [path[0]];
    }
  }

  lemma AncestorHasScoredChild(dag: Blocks, latest: LatestMessages, floor: int, path: seq<Hash>)
    requires HeightsFall(dag) && WalksEnd(dag, latest, floor)
    requires MainPath(dag, path) && |path| > 1 && dag[path[0]].number >= floor
    requires Last(path) in latest.Values
    ensures path[1] in ScoredMainChildren(dag, TrueScores(dag, latest, floor), path[0])
  {
    var v :| v in latest && latest[v] == Last(path);
    PathStep(dag, path);
    SupportCoversPath(dag, latest, floor, v, path[1..]);
    assert path[1] in Scored(dag, latest, floor);
  }

  lemma {:induction false} HeightsRise(dag: Blocks, path: seq<Hash>)
    requires HeightsFall(dag) && MainPath(dag, path) && |path| > 1
    ensures dag[Last(path)].number > dag[path[0]].number
    decreases |path|
  {
    PathStep(dag, path);
    if |path| > 2 {
      HeightsRise(dag, path[1..]);
    }
  }

  /** Among tips at or above the LCA's height none is a main-parent ancestor of
      another. */
  lemma TipsAreAnAntichain(dag: Blocks, latest: LatestMessages, lca: Hash, path: seq<Hash>)
    requires HeightsFall(dag) && lca in dag && WalksEnd(dag, latest, dag[lca].number)
    requires MainPath(dag, path) && |path| > 1 && dag[path[0]].number >= dag[lca].number
    ensures var tips := Tips(dag, TrueScores(dag, latest, dag[lca].number), latest, lca);
            !(path[0] in tips && Last(path) in tips)
  {
    var floor := dag[lca].number;
    var scores := TrueScores(dag, latest, floor);
    var tips := Tips(dag, scores, latest, lca);
    if path[0] in tips && Last(path) in tips {
      TipsAreLatestMessages(dag, latest, lca);
      HeightsRise(dag, path);
      AncestorHasScoredChild(dag, latest, floor, path);
    }
  }

  // ---- No latest message is left out ----

  lemma {:induction false} SupportPath(dag: Blocks, h: Hash, floor: int, b: Hash) returns (path: seq<Hash>)
    requires HeightsFall(dag) && Walk(dag, h, floor, {}).Ok? && b in Support(dag, h, floor)
    ensures MainPath(dag, path) && path[0] == b && Last(path) == h
    decreases if h in dag then Lower(dag, h) else {}
  {
    SupportUnfolds(dag, h, floor);
    if b == h {
      path := [h];
    } else {
      var front := SupportPath(dag, dag[h].parents[0], floor, b);
      path := front + [h];
      assert Last(path) == h;
    }
  }

  lemma PathsJoin(dag: Blocks, a: seq<Hash>, b: seq<Hash>, c: seq<Hash>)
    requires MainPath(dag, a) && MainPath(dag, b) && Last(a) == b[0] && c == a + b[1..]
    ensures MainPath(dag, c) && c[0] == a[0] && Last(c) == Last(b)
  {
    forall i | 0 < i < |c| ensures MainParent(dag, c[i]) == Some(c[i - 1]) {
      if i < |a| {
        assert c[i] == a[i] && c[i - 1] == a[i - 1];
      } else {
        var k := i - |a| + 1;
        assert c[i] == b[k] && c[i - 1] == b[k - 1];
      }
    }
  }

  lemma PathCons(dag: Blocks, h: Hash, up: seq<Hash>, path: seq<Hash>)
    requires h in dag && MainPath(dag, up) && MainParent(dag, up[0]) == Some(h) && path == [h] + up
    ensures MainPath(dag, path) && path[0] == h && Last(path) == Last(up)
  {
    forall i | 0 < i < |path| ensures MainParent(dag, path[i]) == Some(path[i - 1]) {
      assert path[i] == up[i - 1];
      if i > 1 {
        assert path[i - 1] == up[i - 2];
      }
    }
  }

  /** A latest message with a scored main-parent child lies below another one. */
  lemma NextLatest(dag: Blocks, latest: LatestMessages, floor: int, v: Validator)
    returns (u: Validator, path: seq<Hash>)
    requires HeightsFall(dag) && WalksEnd(dag, latest, floor) && v in latest
    requires ScoredMainChildren(dag, TrueScores(dag, latest, floor), latest[v]) != {}
    ensures u in latest && MainPath(dag, path) && path[0] == latest[v] && Last(path) == latest[u]
    ensures latest[u] in dag && latest[v] in dag && dag[latest[v]].number < dag[latest[u]].number
  {
    var h := latest[v];
    var c :| c in ScoredMainChildren(dag, TrueScores(dag, latest, floor), h);
    u :| u in latest && c in Support(dag, latest[u], floor);
    SupportUnfolds(dag, h, floor);
    SupportMember(dag, latest[u], floor, c);
    assert dag[c].parents[0] == h;
    var up := SupportPath(dag, latest[u], floor, c);
    path := [h] + up;
    PathCons(dag, h, up, path);
  }

  lemma LeafIsTip(dag: Blocks, scores: ScoreMap, latest: LatestMessages, lca: Hash, v: Validator)
    requires HeightsFall(dag) && v in latest && ScoredMainChildren(dag, scores, latest[v]) == {}
    ensures latest[v] in Tips(dag, scores, latest, lca)
  {
    var head := Head(dag, scores, lca);
    if latest[v] != head {
      assert latest[v] in Frontier(dag, scores, latest, head);
      assert latest[v] in Ranked(scores, Frontier(dag, scores, latest, head));
    }
  }

  ghost function Higher(dag: Blocks, h: Hash): set<Hash> {
    set x | x in dag && (h in dag ==> dag[x].number > dag[h].number)
  }

  /** Every latest message is a tip or a main-parent ancestor of one. */
  lemma {:induction false} LatestLeadsToTip(dag: Blocks, latest: LatestMessages, lca: Hash, v: Validator)
    returns (path: seq<Hash>)
    requires HeightsFall(dag) && lca in dag && WalksEnd(dag, latest, dag[lca].number) && v in latest
    ensures MainPath(dag, path) && path[0] == latest[v]
    ensures Last(path) in Tips(dag, TrueScores(dag, latest, dag[lca].number), latest, lca)
    decreases Higher(dag, latest[v])
  {
    var scores := TrueScores(dag, latest, dag[lca].number);
    SupportUnfolds(dag, latest[v], dag[lca].number);
    if ScoredMainChildren(dag, scores, latest[v]) == {} {
      path := [latest[v]];
      LeafIsTip(dag, scores, latest, lca, v);
    } else {
      var u, up := NextLatest(dag, latest, dag[lca].number, v);
      assert latest[u] in Higher(dag, latest[v]) && latest[u] !in Higher(dag, latest[u]);
      var on := LatestLeadsToTip(dag, latest, lca, u);
      path := up + on[1..];
      PathsJoin(dag, up, on, path);
    }
  }

  // ---- Bonds that rise ----

  /** Block 1 on genesis 0 raises the bond of validator 2 from 5 to 100; blocks 2 and
      3, on 1, are the latest messages of validators 1 and 2. */
  const RISING: Blocks := map[
    0 := Meta([], 0, 0, 0, false, [], map[1 := 10, 2 := 5]),
    1 := Meta([0], 1, 0, 1, false, [], map[1 := 10, 2 := 100]),
    2 := Meta([1], 1, 1, 2, false, [], map[]),
    3 := Meta([1], 2, 0, 2, false, [], map[])]

  const SPLIT: LatestMessages := map[1 := 2, 2 := 3]

  lemma {:induction false} RisingSupport(h: Hash)
    requires h == 2 || h == 3
    ensures Walk(RISING, h, 1, {}) == Ok({0, 1, h})
  {
    assert Walk(RISING, 0, 1, {h, 1}) == Ok({h, 1} + {0});
    assert Walk(RISING, 1, 1, {h}) == Walk(RISING, 0, 1, {h} + {1});
    assert {h} + {1} == {h, 1};
    assert Walk(RISING, h, 1, {}) == Walk(RISING, 1, 1, {} + {h});
    assert {} + {h} == {h} && {h, 1} + {0} == {0, 1, h};
  }

  lemma RisingTotals()
    ensures Scored(RISING, SPLIT, 1) == {0, 1, 2, 3}
    ensures Total(RISING, SPLIT, 1, 1) == 15
    ensures Total(RISING, SPLIT, 1, 2) == 10
    ensures Total(RISING, SPLIT, 1, 3) == 100
  {
    RisingSupport(2);
    RisingSupport(3);
    assert SPLIT[1] == 2 && SPLIT[2] == 3;
    assert Supporters(RISING, SPLIT, 1, 1) == {} + {1} + {2};
    assert Supporters(RISING, SPLIT, 1, 2) == {} + {1};
    assert Supporters(RISING, SPLIT, 1, 3) == {} + {2};
    Sums.Insert({}, v => Weight(RISING, 1, v), 1);
    Sums.Insert({} + {1}, v => Weight(RISING, 1, v), 2);
    Sums.Insert({}, v => Weight(RISING, 2, v), 1);
    Sums.Insert({}, v => Weight(RISING, 3, v), 2);
  }

  lemma RisingDagIsSound()
    ensures HeightsFall(RISING) && WeightsNonNegative(RISING) && WalksEnd(RISING, SPLIT, 1)
    ensures MainPath(RISING, [1, 2])
  {
    RisingSupport(2);
    RisingSupport(3);
  }

  lemma RisingChildren(scores: ScoreMap)
    requires scores.Keys == {0, 1, 2, 3}
    ensures ScoredMainChildren(RISING, scores, 1) == {2, 3} && ScoredMainChildren(RISING, scores, 3) == {}
  {
    assert forall c: Hash :: c in scores ==> c == 0 || c == 1 || c == 2 || c == 3;
    assert MainParent(RISING, 0) == None && MainParent(RISING, 1) == Some(0);
    assert MainParent(RISING, 2) == Some(1) && MainParent(RISING, 3) == Some(1);
    assert 2 in scores && 3 in scores;
  }

  lemma {:induction false} HeavierLeafIsTaken(dag: Blocks, scores: ScoreMap, b: Hash, light: Hash, heavy: Hash)
    requires HeightsFall(dag) && ScoredMainChildren(dag, scores, b) == {light, heavy}
    requires Get(scores, light) < Get(scores, heavy) && ScoredMainChildren(dag, scores, heavy) == {}
    ensures Descent(dag, scores, b) == [b, heavy]
  {
    assert Best(scores, {light, heavy}) == heavy;
    assert Descent(dag, scores, heavy) == [heavy];
  }

  /** Weights may not rise: block 2 scores 10 of the 15 of its parent, the LCA, and
      the descent still takes block 3, which scores 100. */
  lemma RisingBondsExample()
    ensures HeightsFall(RISING) && WeightsNonNegative(RISING) && WalksEnd(RISING, SPLIT, 1)
    ensures MainPath(RISING, [1, 2])
    ensures var scores := TrueScores(RISING, SPLIT, 1);
            2 * Get(scores, 2) > Get(scores, 1) && Descent(RISING, scores, 1) == [1, 3]
  {
    RisingDagIsSound();
    RisingTotals();
    RisingChildren(TrueScores(RISING, SPLIT, 1));
    GetIsTotal(RISING, SPLIT, 1, 1);
    GetIsTotal(RISING, SPLIT, 1, 2);
    GetIsTotal(RISING, SPLIT, 1, 3);
    HeavierLeafIsTaken(RISING, TrueScores(RISING, SPLIT, 1), 1, 2, 3);
  }
}
