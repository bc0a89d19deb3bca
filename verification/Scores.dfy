/** LMD-GHOST scores: every validator's weight is credited to one main-parent
    chain, from its latest message down to the LCA's height. */
module Scores {
  import opened Prelude
  import opened Dag
  import opened Paths
  import Sums

  datatype ScoreError = Missing(hash: Hash) | Overflow

  type ScoreMap = map<Hash, int>
  type LatestMessages = map<Validator, Hash>

  function Get<K>(m: map<K, int>, k: K): int {
    if k in m then m[k] else 0
  }

  /** The first hash missing when a validator's weight is read at `h`: the
      block itself, or the main parent whose weight map decides. */
  function WeightGap(dag: Blocks, h: Hash): Option<Hash> {
    if h !in dag then Some(h)
    else if dag[h].parents != [] && dag[h].parents[0] !in dag then Some(dag[h].parents[0])
    else None
  }

  /** `weight_from_validator_by_dag`: the main parent's bonds decide, and a
      parentless block is judged by its own. Unreadable blocks weigh nothing. */
  function Weight(dag: Blocks, h: Hash, v: Validator): int {
    if WeightGap(dag, h).Some? then 0
    else Get(dag[if dag[h].parents == [] then h else dag[h].parents[0]].weights, v)
  }

  ghost predicate WeightsNonNegative(dag: Blocks) {
    forall h, v :: h in dag && v in dag[h].weights ==> dag[h].weights[v] >= 0
  }

  /** `hash_parents`: where the walk goes next. */
  function NextHops(dag: Blocks, h: Hash, floor: int): seq<Hash>
    requires h in dag
  {
    if dag[h].number < floor || dag[h].parents == [] then [] else [dag[h].parents[0]]
  }

  /** The blocks visited by a walk that starts at `h` with `visited` behind it,
      or the first hash that stops it. Defined on cyclic main-parent maps too. */
  function Walk(dag: Blocks, h: Hash, floor: int, visited: set<Hash>): (r: Result<set<Hash>, Hash>)
    decreases dag.Keys - visited
  {
    if h in visited then Ok(visited)
    else if WeightGap(dag, h).Some? then Err(WeightGap(dag, h).value)
    else if NextHops(dag, h, floor) == [] then Ok(visited + {h})
    else
      assert h in dag.Keys - visited;
      Walk(dag, NextHops(dag, h, floor)[0], floor, visited + {h})
  }

  /** The blocks one latest message supports; none when the walk fails. */
  function Support(dag: Blocks, h: Hash, floor: int): set<Hash> {
    match Walk(dag, h, floor, {})
    case Ok(s) => s
    case Err(_) => {}
  }

  /** `scores` after `v`'s weight is added to every block of `s`. */
  function Credit(dag: Blocks, scores: ScoreMap, s: set<Hash>, v: Validator): ScoreMap {
    map b | b in scores.Keys + s :: Get(scores, b) + if b in s then Weight(dag, b, v) else 0
  }

  ghost predicate AllFit(scores: ScoreMap) {
    forall b :: b in scores ==> FitsI64(scores[b])
  }

  lemma {:induction false} WalkGrows(dag: Blocks, h: Hash, floor: int, visited: set<Hash>)
    ensures Walk(dag, h, floor, visited).Ok? ==>
              visited <= Walk(dag, h, floor, visited).value && h in Walk(dag, h, floor, visited).value
    decreases dag.Keys - visited
  {
    if h !in visited && WeightGap(dag, h).None? && NextHops(dag, h, floor) != [] {
      assert h in dag.Keys - visited;
      WalkGrows(dag, NextHops(dag, h, floor)[0], floor, visited + {h});
    }
  }

  // ---- What a walk visits ----

  /** The main-parent step from a block at or above the floor. */
  function ChainEdge(dag: Blocks, floor: int): (Hash, Hash) -> bool {
    (b: Hash, p: Hash) => b in dag && dag[b].number >= floor && dag[b].parents != [] && p == dag[b].parents[0]
  }

  /** What the walk reads of a block: itself, and the main parent with its bonds. */
  predicate ChainHeld(dag: Blocks, b: Hash) {
    b in dag && (dag[b].parents == [] || dag[b].parents[0] in dag)
  }

  lemma {:induction false} WalkVisits(dag: Blocks, start: Hash, h: Hash, floor: int, visited: set<Hash>)
    requires Reached(ChainEdge(dag, floor), {start}, h)
    requires forall b :: b in visited ==> Reached(ChainEdge(dag, floor), {start}, b) && ChainHeld(dag, b)
    requires Closed(ChainEdge(dag, floor), visited, visited + {h})
    ensures var walk := Walk(dag, h, floor, visited);
            && (walk.Ok? ==> h in walk.value && visited <= walk.value
                             && Closed(ChainEdge(dag, floor), walk.value, walk.value)
                             && forall b :: b in walk.value ==>
                                              Reached(ChainEdge(dag, floor), {start}, b) && ChainHeld(dag, b))
            && (walk.Err? ==> exists b :: Reached(ChainEdge(dag, floor), {start}, b) && !ChainHeld(dag, b))
    decreases dag.Keys - visited
  {
    var edge := ChainEdge(dag, floor);
    if h in visited {
      assert visited + {h} == visited;
    } else if WeightGap(dag, h).None? {
      var more := visited + {h};
      assert h in dag.Keys - visited;
      if NextHops(dag, h, floor) == [] {
        forall b | b in more ensures StepsWithin(edge, b, more) {
          if b in visited {
            assert StepsWithin(edge, b, visited + {h});
          }
        }
      } else {
        var p := dag[h].parents[0];
        StepIsReached(edge, {start}, h, p);
        forall b | b in more ensures StepsWithin(edge, b, more + {p}) {
          if b in visited {
            assert StepsWithin(edge, b, visited + {h});
          }
        }
        WalkVisits(dag, start, p, floor, more);
      }
    }
  }

  /** A latest message supports exactly the blocks on its main-parent chain down to the
      first below the floor, and its walk fails exactly when one of them or its main
      parent is not held. */
  lemma {:induction false} SupportIsTheChain(dag: Blocks, h: Hash, floor: int, b: Hash)
    ensures Walk(dag, h, floor, {}).Ok? <==>
            forall x :: Reached(ChainEdge(dag, floor), {h}, x) ==> ChainHeld(dag, x)
    ensures Walk(dag, h, floor, {}).Ok? ==>
              (b in Support(dag, h, floor) <==> Reached(ChainEdge(dag, floor), {h}, b))
  {
    var edge := ChainEdge(dag, floor);
    StartIsReached(edge, {h}, h);
    WalkVisits(dag, h, h, floor, {});
    var walk := Walk(dag, h, floor, {});
    if walk.Ok? {
      forall x | Reached(edge, {h}, x) ensures x in walk.value {
        ClosedHoldsReached(edge, {h}, walk.value, x);
      }
    }
  }

  lemma WeightIsNonNegative(dag: Blocks, h: Hash, v: Validator)
    requires WeightsNonNegative(dag)
    ensures Weight(dag, h, v) >= 0
  {
  }

  lemma CreditOne(dag: Blocks, scores: ScoreMap, s: set<Hash>, v: Validator, h: Hash)
    requires h !in s
    ensures Get(Credit(dag, scores, s, v), h) == Get(scores, h)
    ensures Credit(dag, scores, s, v)[h := Get(scores, h) + Weight(dag, h, v)] == Credit(dag, scores, s + {h}, v)
  {
  }

  /** `add_validator_weight_down_supporting_chain`. */
  method AddValidatorWeight(dag: Blocks, scores: ScoreMap, v: Validator, latest: Hash, lca: Hash)
    returns (r: Result<ScoreMap, ScoreError>)
    requires AllFit(scores)
    ensures lca !in dag ==> r == Err(Missing(lca))
    ensures lca in dag && r.Ok? ==>
              var walk := Walk(dag, latest, dag[lca].number, {});
              walk.Ok? && r.value == Credit(dag, scores, walk.value, v) && AllFit(r.value)
    ensures lca in dag && r.Err? && r.error.Missing? ==>
              Walk(dag, latest, dag[lca].number, {}) == Err(r.error.hash)
    ensures lca in dag && r == Err(Overflow) ==>
              var walk := Walk(dag, latest, dag[lca].number, {});
              walk.Ok? ==> exists b :: b in walk.value && !FitsI64(Get(scores, b) + Weight(dag, b, v))
  {
    if lca !in dag {
      return Err(Missing(lca));
    }
    var floor := dag[lca].number;
    var result := scores;
    var queue := [latest];
    var visited: set<Hash> := {};
    ghost var goal := Walk(dag, latest, floor, {});
    while queue != []
      invariant |queue| <= 1
      invariant visited <= dag.Keys
      invariant goal == if queue == [] then Ok(visited) else Walk(dag, queue[0], floor, visited)
      invariant result == Credit(dag, scores, visited, v)
      invariant AllFit(result)
      decreases dag.Keys - visited, |queue|
    {
      var hash := queue[0];
      queue := queue[1..];
      if hash in visited {
        continue;
      }
      if WeightGap(dag, hash).Some? {
        return Err(Missing(WeightGap(dag, hash).value));
      }
      WalkGrows(dag, hash, floor, visited);
      CreditOne(dag, scores, visited, v, hash);
      assert hash in dag.Keys - visited;
      var sum := Get(result, hash) + Weight(dag, hash, v);
      if !FitsI64(sum) {
        return Err(Overflow);
      }
      visited := visited + {hash};
      result := result[hash := sum];
      var hops := NextHops(dag, hash, floor);
      if hops != [] && hops[0] !in visited {
        queue := queue + hops;
      }
    }
    return Ok(result);
  }

  /** The validators whose latest message supports `b`. */
  ghost function Supporters(dag: Blocks, latest: LatestMessages, floor: int, b: Hash): set<Validator> {
    set v | v in latest && b in Support(dag, latest[v], floor)
  }

  /** What a block's score means: the weight of its supporters. */
  ghost function Total(dag: Blocks, latest: LatestMessages, floor: int, b: Hash): int {
    Sums.Sum(Supporters(dag, latest, floor, b), v => Weight(dag, b, v))
  }

  ghost function Scored(dag: Blocks, latest: LatestMessages, floor: int): set<Hash> {
    set v, b | v in latest && b in Support(dag, latest[v], floor) :: b
  }

  ghost function TrueScores(dag: Blocks, latest: LatestMessages, floor: int): ScoreMap {
    map b | b in Scored(dag, latest, floor) :: Total(dag, latest, floor, b)
  }

  /** Every block any of the walks reads is held. */
  ghost predicate AllHeld(dag: Blocks, latest: LatestMessages, lca: Hash) {
    latest != map[] ==> lca in dag && forall v :: v in latest ==> Walk(dag, latest[v], dag[lca].number, {}).Ok?
  }

  lemma SupportersGrow(dag: Blocks, latest: LatestMessages, floor: int, v: Validator, h: Hash, b: Hash)
    requires v !in latest
    ensures Supporters(dag, latest[v := h], floor, b)
         == Supporters(dag, latest, floor, b) + if b in Support(dag, h, floor) then {v} else {}
  {
  }

  lemma TotalGrows(dag: Blocks, latest: LatestMessages, floor: int, v: Validator, h: Hash, b: Hash)
    requires v !in latest
    ensures Total(dag, latest[v := h], floor, b)
         == Total(dag, latest, floor, b) + if b in Support(dag, h, floor) then Weight(dag, b, v) else 0
  {
    SupportersGrow(dag, latest, floor, v, h, b);
    if b in Support(dag, h, floor) {
      Sums.Insert(Supporters(dag, latest, floor, b), v => Weight(dag, b, v), v);
    } else {
      assert Supporters(dag, latest[v := h], floor, b) == Supporters(dag, latest, floor, b);
    }
  }

  lemma UnsupportedScoresZero(dag: Blocks, latest: LatestMessages, floor: int, b: Hash)
    requires b !in Scored(dag, latest, floor)
    ensures Total(dag, latest, floor, b) == 0
  {
    assert Supporters(dag, latest, floor, b) == {};
  }

  lemma GetIsTotal(dag: Blocks, latest: LatestMessages, floor: int, b: Hash)
    ensures Get(TrueScores(dag, latest, floor), b) == Total(dag, latest, floor, b)
  {
    if b !in Scored(dag, latest, floor) {
      UnsupportedScoresZero(dag, latest, floor, b);
    }
  }

  lemma ScoredGrows(dag: Blocks, latest: LatestMessages, floor: int, v: Validator, h: Hash)
    requires v !in latest
    ensures Scored(dag, latest[v := h], floor) == Scored(dag, latest, floor) + Support(dag, h, floor)
  {
    var grown, more := latest[v := h], Support(dag, h, floor);
    forall b | b in Scored(dag, latest, floor) + more ensures b in Scored(dag, grown, floor) {
      if b in more {
        assert grown[v] == h;
      } else {
        var u :| u in latest && b in Support(dag, latest[u], floor);
        assert grown[u] == latest[u];
      }
    }
  }

  lemma ScoreGrowsAt(dag: Blocks, latest: LatestMessages, floor: int, v: Validator, h: Hash, b: Hash)
    requires v !in latest
    ensures Get(TrueScores(dag, latest[v := h], floor), b)
         == Get(Credit(dag, TrueScores(dag, latest, floor), Support(dag, h, floor), v), b)
  {
    ScoredGrows(dag, latest, floor, v, h);
    TotalGrows(dag, latest, floor, v, h, b);
    GetIsTotal(dag, latest, floor, b);
    GetIsTotal(dag, latest[v := h], floor, b);
  }

  lemma SameScores(s: ScoreMap, t: ScoreMap)
    requires s.Keys == t.Keys
    requires forall b :: Get(s, b) == Get(t, b)
    ensures s == t
  {
    forall b | b in s ensures s[b] == t[b] {
      assert Get(s, b) == Get(t, b);
    }
  }

  lemma ScoresGrow(dag: Blocks, latest: LatestMessages, floor: int, v: Validator, h: Hash)
    requires v !in latest
    ensures TrueScores(dag, latest[v := h], floor)
         == Credit(dag, TrueScores(dag, latest, floor), Support(dag, h, floor), v)
  {
    ScoredGrows(dag, latest, floor, v, h);
    forall b
      ensures Get(TrueScores(dag, latest[v := h], floor), b)
           == Get(Credit(dag, TrueScores(dag, latest, floor), Support(dag, h, floor), v), b)
    {
      ScoreGrowsAt(dag, latest, floor, v, h, b);
    }
    SameScores(TrueScores(dag, latest[v := h], floor),
               Credit(dag, TrueScores(dag, latest, floor), Support(dag, h, floor), v));
  }

  /** Fewer latest messages never raise a score. */
  lemma TotalIsMonotone(dag: Blocks, few: LatestMessages, many: LatestMessages, floor: int, b: Hash)
    requires WeightsNonNegative(dag)
    requires forall v :: v in few ==> v in many && many[v] == few[v]
    ensures 0 <= Total(dag, few, floor, b) <= Total(dag, many, floor, b)
  {
    forall v ensures Weight(dag, b, v) >= 0 { WeightIsNonNegative(dag, b, v); }
    Sums.Subset(Supporters(dag, few, floor, b), Supporters(dag, many, floor, b), v => Weight(dag, b, v));
  }

  function Restrict(latest: LatestMessages, vs: set<Validator>): LatestMessages {
    map v | v in vs && v in latest :: latest[v]
  }

  lemma OverflowShows(dag: Blocks, done: LatestMessages, latest: LatestMessages, floor: int, v: Validator)
    requires WeightsNonNegative(dag)
    requires v in latest && v !in done
    requires forall u :: u in done ==> u in latest && latest[u] == done[u]
    requires exists b :: b in Support(dag, latest[v], floor)
                         && !FitsI64(Get(TrueScores(dag, done, floor), b) + Weight(dag, b, v))
    ensures exists b :: b in Scored(dag, latest, floor) && Total(dag, latest, floor, b) > I64_MAX
  {
    var b :| b in Support(dag, latest[v], floor)
             && !FitsI64(Get(TrueScores(dag, done, floor), b) + Weight(dag, b, v));
    GetIsTotal(dag, done, floor, b);
    TotalGrows(dag, done, floor, v, latest[v], b);
    TotalIsMonotone(dag, done[v := latest[v]], latest, floor, b);
    assert b in Scored(dag, latest, floor);
  }

  /** `build_scores_map`. The validators are taken in any order at all: the
      result is the same score map, and with every walked block held and no bond
      negative the call fails exactly when some block's true total exceeds an i64. */
  method BuildScoresMap(dag: Blocks, latest: LatestMessages, lca: Hash)
    returns (r: Result<ScoreMap, ScoreError>)
    ensures latest == map[] ==> r == Ok(map[])
    ensures latest != map[] && lca !in dag ==> r == Err(Missing(lca))
    ensures r.Ok? ==> AllHeld(dag, latest, lca)
    ensures r.Ok? && latest != map[] ==> r.value == TrueScores(dag, latest, dag[lca].number) && AllFit(r.value)
    ensures r.Err? && r.error.Missing? ==> !AllHeld(dag, latest, lca)
    ensures r == Err(Overflow) && AllHeld(dag, latest, lca) && WeightsNonNegative(dag) ==>
              exists b :: b in Scored(dag, latest, dag[lca].number)
                          && Total(dag, latest, dag[lca].number, b) > I64_MAX
  {
    var scores: ScoreMap := map[];
    var todo := latest.Keys;
    ghost var done: LatestMessages := map[];
    if latest != map[] && lca !in dag {
      var v :| v in todo;
      var added := AddValidatorWeight(dag, scores, v, latest[v], lca);
      return added;
    }
    if latest == map[] {
      return Ok(map[]);
    }
    ghost var floor := dag[lca].number;
    assert Scored(dag, map[], floor) == {};
    assert scores == TrueScores(dag, map[], floor);
    while todo != {}
      invariant todo <= latest.Keys
      invariant done == Restrict(latest, latest.Keys - todo)
      invariant forall v :: v in done ==> Walk(dag, latest[v], floor, {}).Ok?
      invariant scores == TrueScores(dag, done, floor)
      invariant AllFit(scores)
      decreases todo
    {
      var v :| v in todo;
      todo := todo - {v};
      var added := AddValidatorWeight(dag, scores, v, latest[v], lca);
      ScoresGrow(dag, done, floor, v, latest[v]);
      match added {
        case Err(e) =>
          if e.Overflow? && AllHeld(dag, latest, lca) && WeightsNonNegative(dag) {
            OverflowShows(dag, done, latest, floor, v);
          }
          return Err(e);
        case Ok(s) =>
          scores := s;
      }
      done := done[v := latest[v]];
      assert done == Restrict(latest, latest.Keys - todo);
    }
    assert done == latest;
    return Ok(scores);
  }
}
