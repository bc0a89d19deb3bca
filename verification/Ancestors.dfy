/** The validator-progress rule: a new block must have a parent its sender had
    not built on already. */
module Ancestors {
  import opened Prelude
  import opened Dag
  import opened Paths
  import opened Seqs

  // ---- Breadth-first closure ----

  /** Parents the traversal follows: of held blocks at or above the floor, when
      there is one. */
  function Hops(dag: Blocks, floor: Option<int>, h: Hash): seq<Hash> {
    if h in dag && (floor.None? || dag[h].number >= floor.value) then dag[h].parents else []
  }

  function Edge(dag: Blocks, floor: Option<int>): (Hash, Hash) -> bool {
    (h: Hash, n: Hash) => n in Hops(dag, floor, h)
  }

  ghost predicate Reaches(dag: Blocks, floor: Option<int>, start: Hash, h: Hash) {
    Reached(Edge(dag, floor), {start}, h)
  }

  /** Every hash a traversal can meet. */
  ghost function Universe(dag: Blocks, start: Hash): set<Hash> {
    {start} + set h, i | h in dag && 0 <= i < |dag[h].parents| :: dag[h].parents[i]
  }

  lemma HopsInUniverse(dag: Blocks, floor: Option<int>, start: Hash, h: Hash, n: Hash)
    requires n in Hops(dag, floor, h)
    ensures n in Universe(dag, start)
  {
    var i :| 0 <= i < |dag[h].parents| && dag[h].parents[i] == n;
  }

  ghost predicate Met(dag: Blocks, floor: Option<int>, start: Hash, h: Hash) {
    h in Universe(dag, start) && Reaches(dag, floor, start, h)
  }

  /** The traversal so far: everything met is reachable, and what a visited block
      leads to is visited or queued. */
  ghost predicate Explored(dag: Blocks, floor: Option<int>, start: Hash, visited: set<Hash>, queued: set<Hash>) {
    && (forall h {:trigger Met(dag, floor, start, h)} :: h in visited + queued ==> Met(dag, floor, start, h))
    && start in visited + queued
    && Closed(Edge(dag, floor), visited, visited + queued)
  }

  lemma ExploreStep(
      dag: Blocks, floor: Option<int>, start: Hash, visited: set<Hash>, queued: set<Hash>,
      curr: Hash, queued': set<Hash>)
    requires Explored(dag, floor, start, visited, queued) && curr in queued
    requires queued - {curr} <= queued'
    requires forall h :: h in queued' ==> h in queued || h in Hops(dag, floor, curr)
    requires forall n :: n in Hops(dag, floor, curr) ==> n in visited + {curr} + queued'
    ensures Explored(dag, floor, start, visited + {curr}, queued')
  {
    assert Met(dag, floor, start, curr);
    forall h | h in visited + {curr} + queued' ensures Met(dag, floor, start, h) {
      if h !in visited + queued {
        StepIsReached(Edge(dag, floor), {start}, curr, h);
        HopsInUniverse(dag, floor, start, curr, h);
      }
    }
    forall h | h in visited + {curr} ensures StepsWithin(Edge(dag, floor), h, visited + {curr} + queued') {
      if h in visited {
        assert StepsWithin(Edge(dag, floor), h, visited + queued);
      }
    }
  }

  lemma SkipStep(
      dag: Blocks, floor: Option<int>, start: Hash, visited: set<Hash>, queued: set<Hash>,
      curr: Hash, queued': set<Hash>)
    requires Explored(dag, floor, start, visited, queued) && curr in visited
    requires queued - {curr} <= queued' <= queued
    ensures Explored(dag, floor, start, visited, queued')
  {
    forall h | h in visited ensures StepsWithin(Edge(dag, floor), h, visited + queued') {
      assert StepsWithin(Edge(dag, floor), h, visited + queued);
    }
  }

  lemma ExploredIsReachable(dag: Blocks, floor: Option<int>, start: Hash, visited: set<Hash>, h: Hash)
    requires Explored(dag, floor, start, visited, {})
    ensures h in visited <==> Reaches(dag, floor, start, h)
  {
    assert visited + {} == visited;
    assert h in visited ==> Met(dag, floor, start, h);
    if Reaches(dag, floor, start, h) {
      ClosedHoldsReached(Edge(dag, floor), {start}, visited, h);
    }
  }

  /** The unvisited neighbours join the queue. */
  method Enqueue(queue: seq<Hash>, visited: set<Hash>, hops: seq<Hash>) returns (queue': seq<Hash>)
    ensures forall h :: h in queue' <==> h in queue || (h in hops && h !in visited)
  {
    queue' := queue;
    for k := 0 to |hops|
      invariant forall h :: h in queue' <==> h in queue || (h in hops[..k] && h !in visited)
    {
      assert hops[..k + 1] == hops[..k] + [hops[k]];
      if hops[k] !in visited {
        queue' := queue' + [hops[k]];
      }
    }
    assert hops[..|hops|] == hops;
  }

  /** `bf_traverse` from one start: every reachable hash, once each. */
  method BfTraverse(dag: Blocks, floor: Option<int>, start: Hash) returns (result: seq<Hash>)
    ensures forall h :: h in result <==> Reaches(dag, floor, start, h)
    ensures Distinct(result)
  {
    result := [];
    var queue := [start];
    var visited: set<Hash> := {};
    StartIsReached(Edge(dag, floor), {start}, start);
    assert Explored(dag, floor, start, {}, Members([start]));
    while queue != []
      invariant Members(result) == visited
      invariant Distinct(result)
      invariant Explored(dag, floor, start, visited, Members(queue))
      decreases Universe(dag, start) - visited, |queue|
    {
      var curr := queue[0];
      ghost var queued := Members(queue);
      MembersOfTail(queue);
      queue := queue[1..];
      if curr in visited {
        SkipStep(dag, floor, start, visited, queued, curr, Members(queue));
        continue;
      }
      assert Met(dag, floor, start, curr);
      var hops := Hops(dag, floor, curr);
      queue := Enqueue(queue, visited + {curr}, hops);
      ExploreStep(dag, floor, start, visited, queued, curr, Members(queue));
      visited := visited + {curr};
      result := result + [curr];
    }
    forall h ensures h in result <==> Reaches(dag, floor, start, h) {
      assert h in result <==> h in Members(result);
      assert Members(queue) == {};
      ExploredIsReachable(dag, floor, start, visited, h);
    }
  }

  // ---- Truncation is lossless ----

  /** `lowest_parent_height`: seeded with the block's own number. */
  function LowestParent(dag: Blocks, number: int, parents: seq<Hash>): (low: int)
    ensures low <= number
    ensures forall p :: p in parents && p in dag ==> low <= dag[p].number
    ensures low == number || exists p :: p in parents && p in dag && dag[p].number == low
  {
    if parents == [] then number
    else
      var rest := LowestParent(dag, number, parents[1..]);
      if parents[0] in dag && dag[parents[0]].number < rest then dag[parents[0]].number else rest
  }

  /** Heights fall along a path, so what leads to a held block at or above the
      floor is above the floor itself. */
  lemma {:induction false} PathStaysAbove(dag: Blocks, floor: int, path: seq<Hash>)
    requires HeightsFall(dag) && IsPath(Edge(dag, None), path)
    requires path[|path| - 1] in dag && dag[path[|path| - 1]].number >= floor
    ensures IsPath(Edge(dag, Some(floor)), path)
    decreases |path|
  {
    if |path| > 1 {
      var front, q, p := path[..|path| - 1], path[|path| - 2], path[|path| - 1];
      FrontIsPath(Edge(dag, None), path);
      assert Edge(dag, None)(q, p);
      var k :| 0 <= k < |dag[q].parents| && dag[q].parents[k] == p;
      PathStaysAbove(dag, floor, front);
      forall i | 0 < i < |path| ensures Edge(dag, Some(floor))(path[i - 1], path[i]) {
        if i < |front| {
          assert front[i] == path[i] && front[i - 1] == path[i - 1];
        }
      }
    }
  }

  lemma FloorOnlyPrunes(dag: Blocks, floor: int, start: Hash, h: Hash)
    requires Reaches(dag, Some(floor), start, h)
    ensures Reaches(dag, None, start, h)
  {
    var path :| IsPathTo(Edge(dag, Some(floor)), {start}, path, h);
    forall i | 0 < i < |path| ensures Edge(dag, None)(path[i - 1], path[i]) {
      assert Edge(dag, Some(floor))(path[i - 1], path[i]);
    }
    assert IsPathTo(Edge(dag, None), {start}, path, h);
  }

  lemma HeldAreNotPruned(dag: Blocks, floor: int, start: Hash, h: Hash)
    requires HeightsFall(dag) && h in dag && dag[h].number >= floor && Reaches(dag, None, start, h)
    ensures Reaches(dag, Some(floor), start, h)
  {
    var path :| IsPathTo(Edge(dag, None), {start}, path, h);
    PathStaysAbove(dag, floor, path);
    assert IsPathTo(Edge(dag, Some(floor)), {start}, path, h);
  }

  /** A held declared parent is in the truncated closure exactly when it is in the
      full one. */
  lemma {:induction false} TruncationIsLossless(dag: Blocks, number: int, parents: seq<Hash>, prev: Hash, p: Hash)
    requires HeightsFall(dag) && p in parents && p in dag
    ensures Reaches(dag, Some(LowestParent(dag, number, parents)), prev, p) <==> Reaches(dag, None, prev, p)
  {
    var floor := LowestParent(dag, number, parents);
    if Reaches(dag, Some(floor), prev, p) {
      FloorOnlyPrunes(dag, floor, prev, p);
    } else if Reaches(dag, None, prev, p) {
      HeldAreNotPruned(dag, floor, prev, p);
    }
  }

  /** `q` is an ancestor of `prev` that names `p` as a parent. */
  ghost predicate Cites(dag: Blocks, prev: Hash, q: Hash, p: Hash) {
    Reaches(dag, None, prev, q) && q in dag && p in dag[q].parents
  }

  /** A parent that is not held stays in the closure exactly when some reached block
      at or above the floor cites it. */
  lemma UnheldParentKeptIff(dag: Blocks, floor: int, prev: Hash, p: Hash)
    requires HeightsFall(dag) && p !in dag && p != prev
    ensures Reaches(dag, Some(floor), prev, p) <==> exists q :: Cites(dag, prev, q, p) && dag[q].number >= floor
  {
    if Reaches(dag, Some(floor), prev, p) {
      var q := LastStep(Edge(dag, Some(floor)), {prev}, p);
      FloorOnlyPrunes(dag, floor, prev, q);
      assert Cites(dag, prev, q, p);
    }
    if q :| Cites(dag, prev, q, p) && dag[q].number >= floor {
      HeldAreNotPruned(dag, floor, prev, q);
      StepIsReached(Edge(dag, Some(floor)), {prev}, q, p);
    }
  }

  /** So the truncation is lossless for it exactly when some reached block at or
      above the floor cites it, or no reached block does. */
  lemma UnheldParentLosslessIff(dag: Blocks, floor: int, prev: Hash, p: Hash)
    requires HeightsFall(dag) && p !in dag && p != prev
    ensures (Reaches(dag, Some(floor), prev, p) <==> Reaches(dag, None, prev, p)) <==>
            ((exists q :: Cites(dag, prev, q, p) && dag[q].number >= floor) || !exists q :: Cites(dag, prev, q, p))
  {
    UnheldParentKeptIff(dag, floor, prev, p);
    if Reaches(dag, None, prev, p) {
      var q := LastStep(Edge(dag, None), {prev}, p);
      assert Cites(dag, prev, q, p);
    }
    if q :| Cites(dag, prev, q, p) {
      StepIsReached(Edge(dag, None), {prev}, q, p);
    }
  }

  // ---- The rule ----

  const UNLIMITED_PARENTS: int := -1
  const I32_MAX: int := 0x7FFF_FFFF

  datatype SystemKind = SlashKind | CloseBlockKind | OtherKind

  /** What the rule reads of a block: `userDeploys` tells for each deploy whether
      a user sent it, `system` lists the system deploys, failed ones as
      `OtherKind`. */
  datatype Proposal = Proposal(
    number: int,
    sender: Validator,
    parents: seq<Hash>,
    userDeploys: seq<bool>,
    system: seq<SystemKind>)

  datatype ParentsVerdict = ParentsOk | InvalidParents | PreviousMissing(hash: Hash)

  datatype Limits = Limits(maxParents: int, maxDepth: int, progressDisabled: bool)

  /** A block without parents is judged as a child of genesis. */
  function Declared(b: Proposal, genesis: Hash): (r: seq<Hash>)
    ensures r != []
  {
    if b.parents == [] then [genesis] else b.parents
  }

  predicate AllHeld(dag: Blocks, hs: seq<Hash>) {
    forall i :: 0 <= i < |hs| ==> hs[i] in dag
  }

  predicate TooManyParents(n: nat, maxParents: int) {
    maxParents != UNLIMITED_PARENTS && 0 <= maxParents < n
  }

  ghost predicate SpreadTooWide(dag: Blocks, genesis: Hash, hs: seq<Hash>, maxDepth: int) {
    && maxDepth != I32_MAX && AllHeld(dag, hs)
    && exists i, k :: 0 <= i < |hs| && 0 <= k < |hs| && hs[i] != genesis
                      && dag[hs[k]].number - dag[hs[i]].number > maxDepth
  }

  /** Blocks that need not show progress. */
  predicate Exempt(b: Proposal) {
    || (exists i :: 0 <= i < |b.userDeploys| && b.userDeploys[i])
    || (exists i :: 0 <= i < |b.system| && b.system[i] == SlashKind)
    || b.system == [CloseBlockKind]
  }

  ghost predicate HasNewParent(dag: Blocks, floor: Option<int>, prev: Hash, hs: seq<Hash>) {
    exists i :: 0 <= i < |hs| && !Reaches(dag, floor, prev, hs[i])
  }

  /** The rule, with the ancestor closure of the sender's previous block cut off
      at `floor`. */
  ghost function ParentsRule(
      b: Proposal, genesis: Hash, dag: Blocks, latest: map<Validator, Hash>, limits: Limits, floor: Option<int>)
    : ParentsVerdict
  {
    var hs := Declared(b, genesis);
    if TooManyParents(|hs|, limits.maxParents) || SpreadTooWide(dag, genesis, hs, limits.maxDepth) then InvalidParents
    else if b.sender !in latest then ParentsOk
    else
      var prev := latest[b.sender];
      if prev !in dag then PreviousMissing(prev)
      else if Exempt(b) || dag[prev].parents == [] || HasNewParent(dag, floor, prev, hs) || limits.progressDisabled
        then ParentsOk
      else InvalidParents
  }

  method CheckSpread(dag: Blocks, genesis: Hash, hs: seq<Hash>, maxDepth: int) returns (wide: bool)
    ensures wide == SpreadTooWide(dag, genesis, hs, maxDepth)
  {
    if maxDepth == I32_MAX || !AllHeld(dag, hs) {
      return false;
    }
    for i := 0 to |hs|
      invariant forall x, y :: 0 <= x < i && 0 <= y < |hs| && hs[x] != genesis ==>
                  dag[hs[y]].number - dag[hs[x]].number <= maxDepth
    {
      if hs[i] == genesis {
        continue;
      }
      for k := 0 to |hs|
        invariant forall y :: 0 <= y < k ==> dag[hs[y]].number - dag[hs[i]].number <= maxDepth
      {
        if dag[hs[k]].number - dag[hs[i]].number > maxDepth {
          return true;
        }
      }
    }
    return false;
  }

  /** `Validate::parents`. */
  method ValidateParents(b: Proposal, genesis: Hash, dag: Blocks, latest: map<Validator, Hash>, limits: Limits)
    returns (r: ParentsVerdict)
    ensures r == ParentsRule(b, genesis, dag, latest, limits, Some(LowestParent(dag, b.number, Declared(b, genesis))))
  {
    var hs := Declared(b, genesis);
    if TooManyParents(|hs|, limits.maxParents) {
      return InvalidParents;
    }
    var wide := CheckSpread(dag, genesis, hs, limits.maxDepth);
    if wide {
      return InvalidParents;
    }
    if b.sender !in latest {
      return ParentsOk;
    }
    var prev := latest[b.sender];
    if prev !in dag {
      return PreviousMissing(prev);
    }
    var floor := LowestParent(dag, b.number, hs);
    var ancestors := BfTraverse(dag, Some(floor), prev);
    var hasNew := exists i :: 0 <= i < |hs| && hs[i] !in ancestors;
    if Exempt(b) || dag[prev].parents == [] || hasNew || limits.progressDisabled {
      return ParentsOk;
    }
    return InvalidParents;
  }

  lemma SpreadIff(dag: Blocks, genesis: Hash, hs: seq<Hash>, maxDepth: int)
    ensures SpreadTooWide(dag, genesis, hs, maxDepth) <==>
            && maxDepth != I32_MAX && (forall p :: p in hs ==> p in dag)
            && exists p, q :: p in hs && q in hs && q != genesis && dag[p].number - dag[q].number > maxDepth
  {
    if (forall p :: p in hs ==> p in dag) {
      if p, q :| p in hs && q in hs && q != genesis && dag[p].number - dag[q].number > maxDepth {
        var k :| 0 <= k < |hs| && hs[k] == p;
        var i :| 0 <= i < |hs| && hs[i] == q;
      }
    }
  }

  /** The rule in the block's own terms. */
  lemma ParentsOkIff(
      b: Proposal, genesis: Hash, dag: Blocks, latest: map<Validator, Hash>, limits: Limits, floor: Option<int>)
    ensures var hs := if b.parents == [] then [genesis] else b.parents;
            ParentsRule(b, genesis, dag, latest, limits, floor) == ParentsOk <==>
            && (limits.maxParents < 0 || |hs| <= limits.maxParents)
            && (limits.maxDepth == I32_MAX || (exists p :: p in hs && p !in dag)
                || forall p, q :: p in hs && q in hs && q != genesis ==>
                                    dag[p].number - dag[q].number <= limits.maxDepth)
            && (b.sender !in latest
                || (&& latest[b.sender] in dag
                    && (|| true in b.userDeploys
                        || SlashKind in b.system
                        || b.system == [CloseBlockKind]
                        || dag[latest[b.sender]].parents == []
                        || limits.progressDisabled
                        || exists p :: p in hs && !Reaches(dag, floor, latest[b.sender], p))))
  {
    var hs := Declared(b, genesis);
    SpreadIff(dag, genesis, hs, limits.maxDepth);
    assert true in b.userDeploys <==> exists i :: 0 <= i < |b.userDeploys| && b.userDeploys[i];
    assert SlashKind in b.system <==> exists i :: 0 <= i < |b.system| && b.system[i] == SlashKind;
    if b.sender in latest {
      var prev := latest[b.sender];
      if p :| p in hs && !Reaches(dag, floor, prev, p) {
        var i :| 0 <= i < |hs| && hs[i] == p;
        assert HasNewParent(dag, floor, prev, hs);
      }
    }
  }

  /** The verdict hangs on the parents being new. */
  ghost predicate ProgressDecides(
      b: Proposal, genesis: Hash, dag: Blocks, latest: map<Validator, Hash>, limits: Limits)
  {
    var hs := Declared(b, genesis);
    && !TooManyParents(|hs|, limits.maxParents) && !SpreadTooWide(dag, genesis, hs, limits.maxDepth)
    && b.sender in latest && latest[b.sender] in dag && dag[latest[b.sender]].parents != []
    && !Exempt(b) && !limits.progressDisabled
  }

  /** A parent that is not held and that only ancestors below the floor cite. */
  ghost predicate CutOff(dag: Blocks, floor: int, prev: Hash, p: Hash) {
    p !in dag && forall q :: Cites(dag, prev, q, p) ==> dag[q].number < floor
  }

  lemma {:induction false} NewOnlyByTruncation(dag: Blocks, number: int, hs: seq<Hash>, prev: Hash)
    requires HeightsFall(dag) && prev in dag
    ensures (var floor := LowestParent(dag, number, hs);
             HasNewParent(dag, Some(floor), prev, hs) && !HasNewParent(dag, None, prev, hs) <==>
             !HasNewParent(dag, None, prev, hs) && exists i :: 0 <= i < |hs| && CutOff(dag, floor, prev, hs[i]))
  {
    var floor := LowestParent(dag, number, hs);
    forall i | 0 <= i < |hs| && Reaches(dag, None, prev, hs[i])
      ensures !Reaches(dag, Some(floor), prev, hs[i]) <==> CutOff(dag, floor, prev, hs[i])
    {
      if hs[i] in dag {
        TruncationIsLossless(dag, number, hs, prev, hs[i]);
      } else {
        UnheldParentKeptIff(dag, floor, prev, hs[i]);
      }
    }
  }

  lemma NewStaysNew(dag: Blocks, floor: int, prev: Hash, hs: seq<Hash>)
    requires HasNewParent(dag, None, prev, hs)
    ensures HasNewParent(dag, Some(floor), prev, hs)
  {
    var i :| 0 <= i < |hs| && !Reaches(dag, None, prev, hs[i]);
    if Reaches(dag, Some(floor), prev, hs[i]) {
      FloorOnlyPrunes(dag, floor, prev, hs[i]);
    }
  }

  /** In general the two verdicts differ exactly when progress decides, no declared
      parent is new, and one that is not held is cut off from the closure. It is then
      the truncated rule that lets the block through. */
  lemma {:induction false} TruncatedRuleDiffersIff(
      b: Proposal, genesis: Hash, dag: Blocks, latest: map<Validator, Hash>, limits: Limits)
    requires HeightsFall(dag)
    ensures (var hs := Declared(b, genesis);
             var floor := LowestParent(dag, b.number, hs);
             ParentsRule(b, genesis, dag, latest, limits, Some(floor))
             != ParentsRule(b, genesis, dag, latest, limits, None) <==>
             && ProgressDecides(b, genesis, dag, latest, limits)
             && !HasNewParent(dag, None, latest[b.sender], hs)
             && exists i :: 0 <= i < |hs| && CutOff(dag, floor, latest[b.sender], hs[i]))
    ensures (var floor := LowestParent(dag, b.number, Declared(b, genesis));
             var short, full := ParentsRule(b, genesis, dag, latest, limits, Some(floor)),
                                ParentsRule(b, genesis, dag, latest, limits, None);
             short != full ==> short == ParentsOk && full == InvalidParents)
  {
    var hs := Declared(b, genesis);
    if b.sender in latest && latest[b.sender] in dag {
      NewOnlyByTruncation(dag, b.number, hs, latest[b.sender]);
      if HasNewParent(dag, None, latest[b.sender], hs) {
        NewStaysNew(dag, LowestParent(dag, b.number, hs), latest[b.sender], hs);
      }
    }
  }

  /** With every declared parent held, the truncated rule gives the verdict of
      the full ancestor closure: nothing node-local shows in it. */
  lemma {:induction false} TruncatedRuleIsTheRule(
      b: Proposal, genesis: Hash, dag: Blocks, latest: map<Validator, Hash>, limits: Limits)
    requires HeightsFall(dag) && AllHeld(dag, Declared(b, genesis))
    ensures ParentsRule(b, genesis, dag, latest, limits, Some(LowestParent(dag, b.number, Declared(b, genesis))))
         == ParentsRule(b, genesis, dag, latest, limits, None)
  {
    TruncatedRuleDiffersIff(b, genesis, dag, latest, limits);
  }

  /** Validator 1, whose previous block 10 has the unheld parent 8, declares 8 again:
      no progress by the full closure, but the truncated one lets it through. */
  lemma UnheldParentExample() returns (b: Proposal, dag: Blocks, latest: map<Validator, Hash>, limits: Limits)
    ensures HeightsFall(dag)
    ensures ParentsRule(b, 0, dag, latest, limits, Some(LowestParent(dag, b.number, Declared(b, 0)))) == ParentsOk
    ensures ParentsRule(b, 0, dag, latest, limits, None) == InvalidParents
  {
    dag, latest := map[10 := Meta([8], 1, 0, 5, false, [], map[])], map[1 := 10];
    b, limits := Proposal(6, 1, [8], [], []), Limits(UNLIMITED_PARENTS, I32_MAX, false);
    assert LowestParent(dag, 6, b.parents) == 6 by {
      assert b.parents[1..] == [];
    }
    assert Reaches(dag, None, 10, 8) by {
      StartIsReached(Edge(dag, None), {10}, 10);
      StepIsReached(Edge(dag, None), {10}, 10, 8);
    }
    assert CutOff(dag, 6, 10, b.parents[0]);
    assert ProgressDecides(b, 0, dag, latest, limits) && HeightsFall(dag);
    TruncatedRuleDiffersIff(b, 0, dag, latest, limits);
  }
}
