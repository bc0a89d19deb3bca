/** The whole fork-choice run: filter, score, rank, truncate. */
module Estimator {
  import opened Prelude
  import opened Dag
  import opened Scores
  import opened ForkChoice
  import Ghost
  import Sums

  const UNLIMITED_PARENTS: int := 0x7FFF_FFFF

  datatype Choice = Choice(tips: seq<Hash>, scores: ScoreMap, lca: Hash)

  /** Latest messages that may be scored: held and not flagged invalid. */
  function Countable(dag: Blocks, latest: LatestMessages): LatestMessages {
    map v | v in latest && latest[v] in dag && !dag[latest[v]].invalid :: latest[v]
  }

  /** The score map a run settles on when it does not fail. */
  ghost function SettledScores(dag: Blocks, latest: LatestMessages, lca: Hash): ScoreMap {
    if latest == map[] || lca !in dag then map[] else TrueScores(dag, latest, dag[lca].number)
  }

  // ---- Who counts ----

  /** The validator's latest message is not held, or flagged invalid. */
  predicate Abstains(dag: Blocks, latest: LatestMessages, v: Validator) {
    v in latest && (latest[v] !in dag || dag[latest[v]].invalid)
  }

  /** The validators that count and whose latest message has `b` on its chain. */
  ghost function Backers(dag: Blocks, latest: LatestMessages, floor: int, b: Hash): set<Validator> {
    set v | v in latest && !Abstains(dag, latest, v) && b in Support(dag, latest[v], floor)
  }

  /** What the latest message of an abstaining validator is, or whether there is one,
      makes no difference to what is scored. */
  lemma AbstainersDoNotCount(dag: Blocks, latest: LatestMessages, other: LatestMessages)
    requires forall v :: v in latest && !Abstains(dag, latest, v) ==> v in other && other[v] == latest[v]
    requires forall v :: v in other && !Abstains(dag, other, v) ==> v in latest && latest[v] == other[v]
    ensures Countable(dag, latest) == Countable(dag, other)
  {
    assert Countable(dag, latest).Keys == Countable(dag, other).Keys;
  }

  /** A block scores the weight of its backers: the validators whose latest messages
      are held and valid, and no others. */
  lemma ScoreIsBacking(dag: Blocks, latest: LatestMessages, lca: Hash, b: Hash)
    requires lca in dag
    ensures Get(SettledScores(dag, Countable(dag, latest), lca), b)
         == Sums.Sum(Backers(dag, latest, dag[lca].number, b), v => Weight(dag, b, v))
  {
    var good, floor := Countable(dag, latest), dag[lca].number;
    assert Supporters(dag, good, floor, b) == Backers(dag, latest, floor, b);
    if good == map[] {
      assert Backers(dag, latest, floor, b) == {};
    } else {
      GetIsTotal(dag, good, floor, b);
    }
  }

  ghost predicate Counts(dag: Blocks, latest: LatestMessages, h: Hash) {
    exists v :: v in latest && !Abstains(dag, latest, v) && latest[v] == h
  }

  lemma CountsIffCountable(dag: Blocks, latest: LatestMessages, h: Hash)
    ensures Counts(dag, latest, h) <==> h in Countable(dag, latest).Values
  {
    if Counts(dag, latest, h) {
      var v :| v in latest && !Abstains(dag, latest, v) && latest[v] == h;
      assert Countable(dag, latest)[v] == h;
    }
  }

  /** Every message that counts is scored. */
  lemma CountedAreScored(dag: Blocks, latest: LatestMessages, lca: Hash, h: Hash)
    requires lca in dag && AllHeld(dag, Countable(dag, latest), lca) && Counts(dag, latest, h)
    ensures h in SettledScores(dag, Countable(dag, latest), lca)
  {
    var v :| v in latest && !Abstains(dag, latest, v) && latest[v] == h;
    var good := Countable(dag, latest);
    assert v in good && good[v] == h;
    WalkGrows(dag, h, dag[lca].number, {});
    assert h in Support(dag, good[v], dag[lca].number);
  }

  lemma TipsAreTheFrontier(dag: Blocks, scores: ScoreMap, latest: LatestMessages, lca: Hash, h: Hash)
    requires HeightsFall(dag)
    ensures h in Tips(dag, scores, latest, lca) <==>
            h == Head(dag, scores, lca) || (h in latest.Values && ScoredMainChildren(dag, scores, h) == {})
  {
    var head := Head(dag, scores, lca);
    var rest := Ranked(scores, Frontier(dag, scores, latest, head));
    assert Tips(dag, scores, latest, lca) == [head] + rest;
    assert h in rest <==> h in Frontier(dag, scores, latest, head);
  }

  /** The tips are the head and the messages that count and have no scored main-parent
      child; the head is the LCA or one that counts. */
  lemma TipsCount(dag: Blocks, latest: LatestMessages, lca: Hash, h: Hash)
    requires HeightsFall(dag) && lca in dag && AllHeld(dag, Countable(dag, latest), lca)
    ensures var good := Countable(dag, latest);
            var scores := SettledScores(dag, good, lca);
            var head := Head(dag, scores, lca);
            && (head == lca || Counts(dag, latest, head))
            && (h in Tips(dag, scores, good, lca) <==>
                h == head || (Counts(dag, latest, h) && ScoredMainChildren(dag, scores, h) == {}))
  {
    var good := Countable(dag, latest);
    var scores := SettledScores(dag, good, lca);
    var head := Head(dag, scores, lca);
    CountsIffCountable(dag, latest, h);
    CountsIffCountable(dag, latest, head);
    if good != map[] {
      Ghost.TipsAreLatestMessages(dag, good, lca);
    }
    TipsAreTheFrontier(dag, scores, good, lca, h);
  }

  // ---- Truncation ----

  /** Secondary parents no more than `depth` below the main one. */
  function Shallow(dag: Blocks, top: int, hs: seq<Hash>, depth: int): (r: seq<Hash>)
    requires forall h :: h in hs ==> h in dag
    ensures forall h :: h in r <==> h in hs && top - dag[h].number <= depth
  {
    if hs == [] then []
    else
      var rest := Shallow(dag, top, hs[1..], depth);
      if top - dag[hs[0]].number <= depth then [hs[0]] + rest else rest
  }

  /** `filter_deep_parents`: the head always stays. */
  function FilterDeepParents(dag: Blocks, tips: seq<Hash>, maxDepth: Option<int>): seq<Hash>
    requires tips != [] && forall h :: h in tips ==> h in dag
  {
    match maxDepth
    case None => tips
    case Some(depth) => [tips[0]] + Shallow(dag, dag[tips[0]].number, tips[1..], depth)
  }

  /** Negative caps and `i32::MAX` both mean unlimited. */
  function Cap(tips: seq<Hash>, maxParents: int): seq<Hash> {
    if maxParents < 0 || maxParents == UNLIMITED_PARENTS || maxParents >= |tips| then tips
    else tips[..maxParents]
  }

  /** Filtering keeps the order. */
  lemma {:induction false} ShallowKeepsOrder(dag: Blocks, top: int, hs: seq<Hash>, depth: int, scores: ScoreMap)
    requires (forall h :: h in hs ==> h in dag) && Sorted(scores, hs)
    ensures Sorted(scores, Shallow(dag, top, hs, depth))
  {
    if hs != [] {
      var rest := Shallow(dag, top, hs[1..], depth);
      ShallowKeepsOrder(dag, top, hs[1..], depth, scores);
      forall j | 0 <= j < |rest| ensures Before(scores, hs[0], rest[j]) {
        assert rest[j] in hs[1..];
        var i :| 0 <= i < |hs[1..]| && hs[1..][i] == rest[j];
        assert hs[i + 1] == rest[j];
      }
    }
  }

  /** Truncation keeps the head in front, drops exactly the deep parents, leaves the
      others ranked as they were, and then takes the first `maxParents` of them. */
  lemma TruncationKeepsHead(
      dag: Blocks, tips: seq<Hash>, maxDepth: Option<int>, maxParents: int, scores: ScoreMap)
    requires tips != [] && (forall h :: h in tips ==> h in dag) && Sorted(scores, tips[1..])
    ensures var kept := FilterDeepParents(dag, tips, maxDepth);
            var capped := Cap(kept, maxParents);
            && kept != [] && kept[0] == tips[0] && Sorted(scores, kept[1..])
            && (forall h :: h in kept <==>
                      h in tips && (h == tips[0] || maxDepth.None?
                                    || dag[tips[0]].number - dag[h].number <= maxDepth.value))
            && capped <= kept
            && |capped| == if 0 <= maxParents < |kept| && maxParents != UNLIMITED_PARENTS then maxParents else |kept|
  {
    var kept := FilterDeepParents(dag, tips, maxDepth);
    forall h | h in tips && h != tips[0] ensures h in tips[1..] {
      var i :| 0 <= i < |tips| && tips[i] == h;
      assert tips[1..][i - 1] == h;
    }
    if maxDepth.Some? {
      ShallowKeepsOrder(dag, dag[tips[0]].number, tips[1..], maxDepth.value, scores);
      assert kept[1..] == Shallow(dag, dag[tips[0]].number, tips[1..], maxDepth.value);
    }
  }

  lemma TipsAreHeld(dag: Blocks, latest: LatestMessages, lca: Hash)
    requires HeightsFall(dag) && lca in dag && AllHeld(dag, latest, lca)
    requires forall v :: v in latest ==> latest[v] in dag
    ensures forall h :: h in Tips(dag, SettledScores(dag, latest, lca), latest, lca) ==> h in dag
  {
    var scores := SettledScores(dag, latest, lca);
    if latest == map[] {
      assert Frontier(dag, scores, latest, Head(dag, scores, lca)) == {};
      assert Head(dag, scores, lca) == lca;
    } else {
      Ghost.TipsAreLatestMessages(dag, latest, lca);
      var tips := Tips(dag, scores, latest, lca);
      forall h | h in tips ensures h in dag {
        var i :| 0 <= i < |tips| && tips[i] == h;
        if h != lca {
          assert h in latest.Values;
        }
      }
    }
  }

  lemma TruncatedAreTips(dag: Blocks, tips: seq<Hash>, maxParents: int, maxDepth: Option<int>, h: Hash)
    requires tips != [] && forall x :: x in tips ==> x in dag
    requires h in Cap(FilterDeepParents(dag, tips, maxDepth), maxParents)
    ensures h in tips
  {
    assert h in FilterDeepParents(dag, tips, maxDepth);
  }

  /** Only the LCA and messages that count are chosen. */
  lemma ChosenCount(dag: Blocks, latest: LatestMessages, lca: Hash, maxParents: int, maxDepth: Option<int>, h: Hash)
    requires HeightsFall(dag) && lca in dag && AllHeld(dag, Countable(dag, latest), lca)
    ensures var good := Countable(dag, latest);
            var tips := Tips(dag, SettledScores(dag, good, lca), good, lca);
            && (forall x :: x in tips ==> x in dag)
            && (h in Cap(FilterDeepParents(dag, tips, maxDepth), maxParents) ==> h == lca || Counts(dag, latest, h))
  {
    var good := Countable(dag, latest);
    var tips := Tips(dag, SettledScores(dag, good, lca), good, lca);
    TipsAreHeld(dag, good, lca);
    TipsCount(dag, latest, lca, h);
    if h in Cap(FilterDeepParents(dag, tips, maxDepth), maxParents) {
      TruncatedAreTips(dag, tips, maxParents, maxDepth, h);
    }
  }

  /** `tips_with_latest_messages`. `lcaOf` stands for the search for the lowest
      universal common ancestor. The answer is one function of the inputs, so
      the iteration order of the hash maps never shows; the run fails only for a
      block it does not hold or for a score that does not fit. */
  method TipsWithLatestMessages(
      dag: Blocks, latest: LatestMessages, lcaOf: LatestMessages -> Hash, maxParents: int, maxDepth: Option<int>)
    returns (r: Result<Choice, ScoreError>)
    requires HeightsFall(dag)
    ensures var good := Countable(dag, latest);
            var lca := lcaOf(good);
            && (r.Ok? && lca in dag ==>
                  && (forall h :: h in Tips(dag, SettledScores(dag, good, lca), good, lca) ==> h in dag)
                  && r.value == Choice(
                       Cap(FilterDeepParents(dag, Tips(dag, SettledScores(dag, good, lca), good, lca), maxDepth),
                           maxParents),
                       SettledScores(dag, good, lca),
                       lca))
            && (r.Ok? ==> AllHeld(dag, good, lca) && AllFit(r.value.scores))
            && (r.Ok? && lca in dag ==>
                  && (forall h :: h in r.value.tips ==> h == lca || Counts(dag, latest, h))
                  && (forall b :: Get(r.value.scores, b)
                               == Sums.Sum(Backers(dag, latest, dag[lca].number, b), v => Weight(dag, b, v))))
            && (lca !in dag ==>
                  r == if good == map[] && maxDepth.None? then Ok(Choice(Cap([lca], maxParents), map[], lca))
                       else Err(Missing(lca)))
            && (r.Err? && lca in dag && AllHeld(dag, good, lca) ==>
                  && r.error.Overflow?
                  && (WeightsNonNegative(dag) ==>
                        exists b :: b in Scored(dag, good, dag[lca].number)
                                    && Total(dag, good, dag[lca].number, b) > I64_MAX))
  {
    var good := Countable(dag, latest);
    var lca := lcaOf(good);
    var built := BuildScoresMap(dag, good, lca);
    if built.Err? {
      return Err(built.error);
    }
    var scores := built.value;
    var tips := RankForkchoices(dag, lca, good, scores);
    if lca in dag {
      TipsAreHeld(dag, good, lca);
      forall h | h in Cap(FilterDeepParents(dag, tips, maxDepth), maxParents)
        ensures h == lca || Counts(dag, latest, h)
      {
        ChosenCount(dag, latest, lca, maxParents, maxDepth, h);
      }
      forall b ensures Get(scores, b) == Sums.Sum(Backers(dag, latest, dag[lca].number, b), v => Weight(dag, b, v)) {
        ScoreIsBacking(dag, latest, lca, b);
      }
    } else {
      assert good == map[];
      assert Frontier(dag, scores, good, lca) == {};
      assert tips == [lca];
      if maxDepth.Some? {
        return Err(Missing(lca));
      }
      return Ok(Choice(Cap(tips, maxParents), scores, lca));
    }
    return Ok(Choice(Cap(FilterDeepParents(dag, tips, maxDepth), maxParents), scores, lca));
  }
}
