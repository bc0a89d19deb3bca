/** The neglected-equivocation detector: the canonical-child walk, its memo
    cache, the dedup of children and the record loop. */
module Equivocation {
  import opened Prelude
  import opened Dag
  import opened Paths
  import opened Seqs

  /** The parts of a stored block message the detector reads. A block is stored
      under its own hash. */
  datatype Block = Block(sender: Validator, seqNum: int, justifications: seq<Justification>)

  type BlockStore = map<Hash, Block>

  datatype Record = Record(equivocator: Validator, baseSeq: int, witnesses: set<Hash>)

  // ---- The canonical child ----

  /** A block of `v` above the base sequence number. */
  predicate AboveBase(dag: Blocks, h: Hash, v: Validator, base: int) {
    h in dag && dag[h].sender == v && dag[h].seqNum > base
  }

  /** Where the walk from `current` ends: the oldest block reached, or the hash
      whose metadata is missing. Defined on cyclic self-justifications too. */
  function Oldest(dag: Blocks, current: Hash, v: Validator, base: int, visited: set<Hash>): Result<Hash, Hash>
    decreases dag.Keys - visited
  {
    if current in visited then Ok(current)
    else if current !in dag then Err(current)
    else
      match SelfJustification(dag, current)
      case None => Ok(current)
      case Some(parent) =>
        if parent !in dag then Err(parent)
        else if AboveBase(dag, parent, v, base) then
          assert current in dag.Keys - visited;
          Oldest(dag, parent, v, base, visited + {current})
        else Ok(current)
  }

  /** The canonical child a block exposes, if it is the offender's own and above
      the base. */
  function CanonicalChild(dag: Blocks, h: Hash, b: Block, v: Validator, base: int): Result<Option<Hash>, Hash> {
    if b.sender != v || b.seqNum <= base then Ok(None)
    else
      match Oldest(dag, h, v, base, {})
      case Ok(c) => Ok(Some(c))
      case Err(e) => Err(e)
  }

  /** `find_canonical_creator_justification_child_above_seq`. */
  method FindCanonicalChild(dag: Blocks, h: Hash, b: Block, v: Validator, base: int)
    returns (r: Result<Option<Hash>, Hash>)
    ensures r == CanonicalChild(dag, h, b, v, base)
  {
    if b.sender != v || b.seqNum <= base {
      return Ok(None);
    }
    var candidate, current := h, h;
    var visited: set<Hash> := {};
    while true
      invariant candidate == current
      invariant visited <= dag.Keys
      invariant Oldest(dag, h, v, base, {}) == Oldest(dag, current, v, base, visited)
      decreases dag.Keys - visited
    {
      if current in visited {
        break;
      }
      if current !in dag {
        return Err(current);
      }
      var next := SelfJustification(dag, current);
      if next.None? {
        break;
      }
      var parent := next.value;
      if parent !in dag {
        return Err(parent);
      }
      assert current in dag.Keys - visited;
      visited := visited + {current};
      if AboveBase(dag, parent, v, base) {
        candidate := parent;
        current := parent;
      } else {
        break;
      }
    }
    return Ok(Some(candidate));
  }

  /** The step to the sender's previous block, while that is above the base. */
  function WalkEdge(dag: Blocks, v: Validator, base: int): (Hash, Hash) -> bool {
    (x: Hash, p: Hash) => x in dag && SelfJustification(dag, x) == Some(p) && AboveBase(dag, p, v, base)
  }

  /** What the walk reads of a block: itself and the block it follows. */
  predicate WalkHeld(dag: Blocks, x: Hash) {
    x in dag && (SelfJustification(dag, x).None? || SelfJustification(dag, x).value in dag)
  }

  /** From `b` by one step or more. */
  ghost predicate LeadsTo(edge: (Hash, Hash) -> bool, b: Hash, c: Hash) {
    exists y: Hash :: edge(b, y) && Reached(edge, {y}, c)
  }

  lemma OneStepOn(edge: (Hash, Hash) -> bool, b: Hash, c: Hash, p: Hash)
    requires b == c || LeadsTo(edge, b, c)
    requires edge(c, p)
    ensures LeadsTo(edge, b, p)
  {
    if LeadsTo(edge, b, c) {
      var y: Hash :| edge(b, y) && Reached(edge, {y}, c);
      StepIsReached(edge, {y}, c, p);
    } else {
      StartIsReached(edge, {p}, p);
    }
  }

  lemma HeldThroughout(dag: Blocks, edge: (Hash, Hash) -> bool, start: Hash, s: set<Hash>)
    requires start in s && Closed(edge, s, s) && forall b :: b in s ==> WalkHeld(dag, b)
    ensures forall x :: Reached(edge, {start}, x) ==> WalkHeld(dag, x)
  {
    forall x | Reached(edge, {start}, x) ensures x in s {
      ClosedHoldsReached(edge, {start}, s, x);
    }
  }

  lemma {:induction false} OldestEnds(
      dag: Blocks, start: Hash, current: Hash, v: Validator, base: int, visited: set<Hash>)
    requires Reached(WalkEdge(dag, v, base), {start}, current) && start in visited + {current}
    requires forall b :: b in visited ==> WalkHeld(dag, b) && LeadsTo(WalkEdge(dag, v, base), b, current)
    requires Closed(WalkEdge(dag, v, base), visited, visited + {current})
    ensures var edge, r := WalkEdge(dag, v, base), Oldest(dag, current, v, base, visited);
            && (r.Ok? ==>
                  && Reached(edge, {start}, r.value)
                  && ((forall y :: !edge(r.value, y)) || LeadsTo(edge, r.value, r.value))
                  && forall x :: Reached(edge, {start}, x) ==> WalkHeld(dag, x))
            && (r.Err? ==> r.error !in dag && exists x :: Reached(edge, {start}, x) && !WalkHeld(dag, x))
    decreases dag.Keys - visited
  {
    var edge := WalkEdge(dag, v, base);
    var more := visited + {current};
    if current in visited {
      assert more == visited;
      HeldThroughout(dag, edge, start, visited);
    } else if WalkHeld(dag, current) {
      assert current in dag.Keys - visited;
      var next := SelfJustification(dag, current);
      if next.Some? && AboveBase(dag, next.value, v, base) {
        StepIsReached(edge, {start}, current, next.value);
        forall b | b in more ensures StepsWithin(edge, b, more + {next.value}) && LeadsTo(edge, b, next.value) {
          assert b in visited ==> StepsWithin(edge, b, visited + {current});
          OneStepOn(edge, b, current, next.value);
        }
        OldestEnds(dag, start, next.value, v, base, more);
      } else {
        forall b | b in more ensures StepsWithin(edge, b, more) {
          assert b in visited ==> StepsWithin(edge, b, visited + {current});
        }
        HeldThroughout(dag, edge, start, more);
      }
    }
  }

  /** The walk fails exactly when something it comes by is not held. Otherwise it ends on
      a block it comes by that has no step left, or on a cycle. */
  lemma WalkMeans(dag: Blocks, h: Hash, b: Block, v: Validator, base: int)
    ensures var edge, r := WalkEdge(dag, v, base), CanonicalChild(dag, h, b, v, base);
            if b.sender != v || b.seqNum <= base then r == Ok(None)
            else
              && (r.Err? <==> exists x :: Reached(edge, {h}, x) && !WalkHeld(dag, x))
              && (r.Err? ==> r.error !in dag)
              && (r.Ok? ==> && r.value.Some? && Reached(edge, {h}, r.value.value)
                            && ((forall y :: !edge(r.value.value, y)) || LeadsTo(edge, r.value.value, r.value.value)))
  {
    StartIsReached(WalkEdge(dag, v, base), {h}, h);
    OldestEnds(dag, h, h, v, base, {});
  }

  // ---- What one justification exposes ----

  /** The last of `js` to name `v` names block `h`. */
  ghost predicate LastNames(js: seq<Justification>, v: Validator, h: Hash) {
    exists i :: 0 <= i < |js| && js[i] == Justification(v, h) && forall k :: i < k < |js| ==> js[k].validator != v
  }

  lemma LastOfSnoc(js: seq<Justification>)
    requires js != []
    ensures var front, last := js[..|js| - 1], js[|js| - 1];
            forall v, h :: LastNames(js, v, h) <==>
                           if v == last.validator then h == last.latest else LastNames(front, v, h)
  {
    var front, last := js[..|js| - 1], js[|js| - 1];
    forall v, h
      ensures LastNames(js, v, h) <==> if v == last.validator then h == last.latest else LastNames(front, v, h)
    {
      if v == last.validator {
        if LastNames(js, v, h) {
          var i :| 0 <= i < |js| && js[i] == Justification(v, h) && forall k :: i < k < |js| ==> js[k].validator != v;
        }
        if h == last.latest {
          assert js[|js| - 1] == Justification(v, h);
        }
      } else {
        if LastNames(js, v, h) {
          var i :| 0 <= i < |js| && js[i] == Justification(v, h) && forall k :: i < k < |js| ==> js[k].validator != v;
          assert front[i] == Justification(v, h);
        }
        if LastNames(front, v, h) {
          var i :| 0 <= i < |front| && front[i] == Justification(v, h)
                   && forall k :: i < k < |front| ==> front[k].validator != v;
          assert js[i] == Justification(v, h);
          forall k | i < k < |js| ensures js[k].validator != v {
            assert k < |front| ==> js[k] == front[k];
          }
        }
      }
    }
  }

  /** `to_latest_message_hashes`: a later entry for a validator wins. */
  function LatestMessageHashes(js: seq<Justification>): (r: map<Validator, Hash>)
    ensures forall v, h :: (v in r && r[v] == h) <==> LastNames(js, v, h)
  {
    if js == [] then map[]
    else
      var front, last := js[..|js| - 1], js[|js| - 1];
      LastOfSnoc(js);
      LatestMessageHashes(front)[last.validator := last.latest]
  }

  /** The stored block whose chain is walked for the cited block `j`. */
  function Source(store: BlockStore, genesis: Hash, j: Hash, v: Validator, base: int): (r: Option<Hash>)
    ensures r.Some? ==> r.value in store && store[r.value].seqNum > base
  {
    if j !in store || j == genesis then None
    else if store[j].sender == v then
      if store[j].seqNum > base then Some(j) else None
    else
      var cited := LatestMessageHashes(store[j].justifications);
      if v in cited && cited[v] in store && store[cited[v]].seqNum > base then Some(cited[v]) else None
  }

  /** The held canonical child the cited block `j` exposes. */
  function Exposed(dag: Blocks, store: BlockStore, genesis: Hash, j: Hash, v: Validator, base: int)
    : Result<Option<Hash>, Hash>
  {
    match Source(store, genesis, j, v, base)
    case None => Ok(None)
    case Some(s) =>
      match CanonicalChild(dag, s, store[s], v, base)
      case Err(e) => Err(e)
      case Ok(None) => Ok(None)
      case Ok(Some(c)) => if c in store then Ok(Some(c)) else Ok(None)
  }

  type Cache = map<(Hash, Validator, int), Option<Hash>>

  ghost predicate CacheSound(dag: Blocks, store: BlockStore, cache: Cache) {
    forall key :: key in cache ==>
                    key.0 in store && CanonicalChild(dag, key.0, store[key.0], key.1, key.2) == Ok(cache[key])
  }

  /** `children` with `c` added unless it is already there. */
  function AddChild(children: seq<Hash>, c: Option<Hash>): seq<Hash> {
    if c.None? || c.value in children then children else children + [c.value]
  }

  /** `add_equivocation_child`. */
  method AddEquivocationChild(
      dag: Blocks, store: BlockStore, s: Hash, v: Validator, base: int, children: seq<Hash>, cache: Cache)
    returns (r: Result<seq<Hash>, Hash>, cache': Cache)
    requires s in store && CacheSound(dag, store, cache)
    ensures CacheSound(dag, store, cache')
    ensures match CanonicalChild(dag, s, store[s], v, base)
            case Err(e) => r == Err(e)
            case Ok(c) => r == Ok(AddChild(children, if c.Some? && c.value in store then c else None))
  {
    cache' := cache;
    var key := (s, v, base);
    var child: Option<Hash>;
    if key in cache {
      child := cache[key];
    } else {
      var computed := FindCanonicalChild(dag, s, store[s], v, base);
      if computed.Err? {
        return Err(computed.error), cache';
      }
      child := computed.value;
      cache' := cache[key := child];
    }
    if child.Some? && child.value in store {
      if child.value !in children {
        return Ok(children + [child.value]), cache';
      }
    }
    return Ok(children), cache';
  }

  /** `maybe_add_equivocation_child`, for a cited block that is stored. */
  method MaybeAddEquivocationChild(
      dag: Blocks, store: BlockStore, genesis: Hash, j: Hash, v: Validator, base: int,
      children: seq<Hash>, cache: Cache)
    returns (r: Result<seq<Hash>, Hash>, cache': Cache)
    requires j in store && CacheSound(dag, store, cache)
    ensures CacheSound(dag, store, cache')
    ensures match Exposed(dag, store, genesis, j, v, base)
            case Err(e) => r == Err(e)
            case Ok(c) => r == Ok(AddChild(children, c))
  {
    if j == genesis {
      return Ok(children), cache;
    }
    if store[j].sender == v {
      if store[j].seqNum > base {
        r, cache' := AddEquivocationChild(dag, store, j, v, base, children, cache);
      } else {
        return Ok(children), cache;
      }
    } else {
      var cited := LatestMessageHashes(store[j].justifications);
      if v in cited && cited[v] in store && store[cited[v]].seqNum > base {
        r, cache' := AddEquivocationChild(dag, store, cited[v], v, base, children, cache);
      } else {
        return Ok(children), cache;
      }
    }
  }

  // ---- What a whole citation set exposes ----

  ghost function Child(e: Result<Option<Hash>, Hash>): set<Hash> {
    if e.Ok? && e.value.Some? then {e.value.value} else {}
  }

  ghost function ExposedBy(dag: Blocks, store: BlockStore, genesis: Hash, cited: set<Hash>, v: Validator, base: int)
    : set<Hash>
  {
    set j | j in cited && Exposed(dag, store, genesis, j, v, base).Ok?
            && Exposed(dag, store, genesis, j, v, base).value.Some?
      :: Exposed(dag, store, genesis, j, v, base).value.value
  }

  /** The set-level meaning of detection: a cited witness, or two distinct held
      canonical children. */
  ghost predicate Detectable(dag: Blocks, store: BlockStore, genesis: Hash, cited: set<Hash>, rec: Record) {
    || (exists j :: j in cited && j in rec.witnesses)
    || |ExposedBy(dag, store, genesis, cited, rec.equivocator, rec.baseSeq)| > 1
  }

  ghost predicate NoGaps(dag: Blocks, store: BlockStore, genesis: Hash, cited: set<Hash>, rec: Record) {
    forall j :: j in cited ==> Exposed(dag, store, genesis, j, rec.equivocator, rec.baseSeq).Ok?
  }

  lemma AddChildKeepsDistinct(xs: seq<Hash>, c: Option<Hash>)
    requires Distinct(xs)
    ensures Distinct(AddChild(xs, c))
    ensures Members(AddChild(xs, c)) == Members(xs) + if c.Some? then {c.value} else {}
  {
  }

  lemma ExposedByGrows(
      dag: Blocks, store: BlockStore, genesis: Hash, cited: set<Hash>, j: Hash, v: Validator, base: int)
    ensures ExposedBy(dag, store, genesis, cited + {j}, v, base)
         == ExposedBy(dag, store, genesis, cited, v, base) + Child(Exposed(dag, store, genesis, j, v, base))
  {
    var more := cited + {j};
    forall c | c in ExposedBy(dag, store, genesis, cited, v, base)
      ensures c in ExposedBy(dag, store, genesis, more, v, base)
    {
      var i :| i in cited && Exposed(dag, store, genesis, i, v, base) == Ok(Some(c));
      assert i in more;
    }
    assert j in more;
  }

  lemma MoreCitedMoreExposed(
      dag: Blocks, store: BlockStore, genesis: Hash, few: set<Hash>, many: set<Hash>, v: Validator, base: int)
    requires few <= many
    ensures ExposedBy(dag, store, genesis, few, v, base) <= ExposedBy(dag, store, genesis, many, v, base)
    ensures |ExposedBy(dag, store, genesis, few, v, base)| <= |ExposedBy(dag, store, genesis, many, v, base)|
  {
    var a, b := ExposedBy(dag, store, genesis, few, v, base), ExposedBy(dag, store, genesis, many, v, base);
    assert a <= b;
    assert b == a + (b - a);
    assert |b| == |a| + |b - a|;
  }

  ghost function Cited(latest: map<Validator, Hash>, vs: set<Validator>): set<Hash> {
    set v | v in vs && v in latest :: latest[v]
  }

  /** The children collected once every validator but those in `todo` is done. */
  ghost predicate Collected(
      dag: Blocks, store: BlockStore, genesis: Hash, latest: map<Validator, Hash>, rec: Record,
      todo: set<Validator>, children: seq<Hash>)
  {
    var seen := Cited(latest, latest.Keys - todo);
    && todo <= latest.Keys && Distinct(children)
    && Members(children) == ExposedBy(dag, store, genesis, seen, rec.equivocator, rec.baseSeq)
    && forall j :: j in seen ==> j !in rec.witnesses
  }

  lemma CollectOne(
      dag: Blocks, store: BlockStore, genesis: Hash, latest: map<Validator, Hash>, rec: Record,
      todo: set<Validator>, children: seq<Hash>, u: Validator)
    requires Collected(dag, store, genesis, latest, rec, todo, children)
    requires u in todo && latest[u] !in rec.witnesses
    requires Exposed(dag, store, genesis, latest[u], rec.equivocator, rec.baseSeq).Ok?
    ensures var c := Exposed(dag, store, genesis, latest[u], rec.equivocator, rec.baseSeq).value;
            Collected(dag, store, genesis, latest, rec, todo - {u}, AddChild(children, c))
  {
    var seen := Cited(latest, latest.Keys - todo);
    ExposedByGrows(dag, store, genesis, seen, latest[u], rec.equivocator, rec.baseSeq);
    AddChildKeepsDistinct(children, Exposed(dag, store, genesis, latest[u], rec.equivocator, rec.baseSeq).value);
    assert Cited(latest, latest.Keys - (todo - {u})) == seen + {latest[u]};
  }

  lemma CollectedDecides(
      dag: Blocks, store: BlockStore, genesis: Hash, latest: map<Validator, Hash>, rec: Record,
      todo: set<Validator>, children: seq<Hash>)
    requires Collected(dag, store, genesis, latest, rec, todo, children)
    ensures |children| > 1 ==> Detectable(dag, store, genesis, latest.Values, rec)
    ensures |children| <= 1 && todo == {} ==> !Detectable(dag, store, genesis, latest.Values, rec)
  {
    var seen := Cited(latest, latest.Keys - todo);
    DistinctCount(children);
    MoreCitedMoreExposed(dag, store, genesis, seen, latest.Values, rec.equivocator, rec.baseSeq);
    if todo == {} {
      assert seen == latest.Values;
    }
  }

  /** `is_equivocation_detectable`: justifications in any order, early exits and
      a shared cache, against the set-level meaning. */
  method IsEquivocationDetectable(
      dag: Blocks, store: BlockStore, genesis: Hash, latest: map<Validator, Hash>, rec: Record, cache: Cache)
    returns (r: Result<bool, Hash>, cache': Cache)
    requires CacheSound(dag, store, cache)
    ensures CacheSound(dag, store, cache')
    ensures r.Ok? ==> r.value == Detectable(dag, store, genesis, latest.Values, rec)
    ensures r.Err? ==> !NoGaps(dag, store, genesis, latest.Values, rec)
  {
    cache' := cache;
    var children: seq<Hash> := [];
    var todo := latest.Keys;
    while todo != {}
      invariant CacheSound(dag, store, cache')
      invariant Collected(dag, store, genesis, latest, rec, todo, children) && |children| <= 1
      decreases todo
    {
      var u :| u in todo;
      var j := latest[u];
      assert j in latest.Values;
      if j in rec.witnesses {
        return Ok(true), cache';
      }
      if j in store {
        var added;
        added, cache' := MaybeAddEquivocationChild(
          dag, store, genesis, j, rec.equivocator, rec.baseSeq, children, cache');
        if added.Err? {
          return Err(added.error), cache';
        }
        CollectOne(dag, store, genesis, latest, rec, todo, children, u);
        todo, children := todo - {u}, added.value;
        if |children| > 1 {
          CollectedDecides(dag, store, genesis, latest, rec, todo, children);
          return Ok(true), cache';
        }
      } else {
        CollectOne(dag, store, genesis, latest, rec, todo, children, u);
        todo := todo - {u};
      }
    }
    CollectedDecides(dag, store, genesis, latest, rec, todo, children);
    return Ok(false), cache';
  }

  // ---- The record loop ----

  type Tracker = map<(Validator, int), set<Hash>>

  ghost predicate IsRecord(tracker: Tracker, rec: Record) {
    (rec.equivocator, rec.baseSeq) in tracker && tracker[(rec.equivocator, rec.baseSeq)] == rec.witnesses
  }

  datatype Status = Neglected | Detected | Oblivious

  datatype Outcome = NeglectedOutcome | DetectedAndRecorded(records: seq<Record>) | ObliviousOutcome

  /** The stake of the first bond naming `v`. */
  function StakeOf(bonds: seq<BondEntry>, v: Validator): (r: Option<int>)
    ensures r.Some? ==> exists i :: 0 <= i < |bonds| && bonds[i] == BondEntry(v, r.value)
                                    && forall k :: 0 <= k < i ==> bonds[k].validator != v
    ensures r.None? ==> forall b :: b in bonds ==> b.validator != v
  {
    if bonds == [] then None
    else if bonds[0].validator == v then Some(bonds[0].stake)
    else
      assert forall k :: 0 < k < |bonds| ==> bonds[k] == bonds[1..][k - 1];
      StakeOf(bonds[1..], v)
  }

  predicate Staked(bonds: seq<BondEntry>, v: Validator) {
    StakeOf(bonds, v).Some? && StakeOf(bonds, v).value > 0
  }

  /** The block is complicit in the offence of `rec`. */
  ghost predicate Neglects(
      dag: Blocks, store: BlockStore, genesis: Hash, bonds: seq<BondEntry>, cited: set<Hash>, rec: Record)
  {
    Staked(bonds, rec.equivocator) && Detectable(dag, store, genesis, cited, rec)
  }

  /** `get_equivocation_discovery_status` and its bonded-validator half. */
  method DiscoveryStatus(
      dag: Blocks, store: BlockStore, genesis: Hash, latest: map<Validator, Hash>, bonds: seq<BondEntry>,
      rec: Record, cache: Cache)
    returns (r: Result<Status, Hash>, cache': Cache)
    requires CacheSound(dag, store, cache)
    ensures CacheSound(dag, store, cache')
    ensures r.Ok? ==>
              r.value == if Neglects(dag, store, genesis, bonds, latest.Values, rec) then Neglected else Oblivious
    ensures r.Err? ==> Staked(bonds, rec.equivocator) && !NoGaps(dag, store, genesis, latest.Values, rec)
  {
    match StakeOf(bonds, rec.equivocator)
    case None => return Ok(Oblivious), cache;
    case Some(stake) =>
      if stake <= 0 {
        return Ok(Oblivious), cache;
      }
      var detectable;
      detectable, cache' := IsEquivocationDetectable(dag, store, genesis, latest, rec, cache);
      match detectable
      case Err(e) => return Err(e), cache';
      case Ok(true) => return Ok(Neglected), cache';
      case Ok(false) => return Ok(Oblivious), cache';
  }

  /** `check_neglected_equivocation`: the answer is Neglected exactly when the
      block neglects some record, whatever order the records come in and
      whatever the cache holds, and the tracker is never written. */
  method CheckNeglectedEquivocation(
      dag: Blocks, store: BlockStore, genesis: Hash, block: Hash,
      justifications: seq<Justification>, bonds: seq<BondEntry>, tracker: Tracker)
    returns (r: Result<Outcome, Hash>, tracker': Tracker)
    ensures tracker' == tracker
    ensures r.Ok? ==>
              var cited := LatestMessageHashes(justifications).Values;
              r.value == if exists rec :: IsRecord(tracker, rec) && Neglects(dag, store, genesis, bonds, cited, rec)
                         then NeglectedOutcome else ObliviousOutcome
    ensures r.Err? ==>
              exists rec :: IsRecord(tracker, rec)
                            && !NoGaps(dag, store, genesis, LatestMessageHashes(justifications).Values, rec)
  {
    var latest := LatestMessageHashes(justifications);
    var cache: Cache := map[];
    var recorded: seq<Record> := [];
    tracker' := tracker;
    var todo := tracker.Keys;
    while todo != {}
      invariant todo <= tracker.Keys
      invariant CacheSound(dag, store, cache)
      invariant tracker' == tracker && recorded == []
      invariant forall key :: key in tracker && key !in todo ==>
                  !Neglects(dag, store, genesis, bonds, latest.Values, Record(key.0, key.1, tracker[key]))
      decreases todo
    {
      var key :| key in todo;
      todo := todo - {key};
      var rec := Record(key.0, key.1, tracker[key]);
      assert IsRecord(tracker, rec);
      var status;
      status, cache := DiscoveryStatus(dag, store, genesis, latest, bonds, rec, cache);
      match status {
        case Err(e) =>
          return Err(e), tracker';
        case Ok(Neglected) =>
          return Ok(NeglectedOutcome), tracker';
        case Ok(Detected) =>
          var updated := rec.(witnesses := rec.witnesses + {block});
          tracker' := tracker'[key := updated.witnesses];
          recorded := recorded + [updated];
        case Ok(Oblivious) =>
      }
    }
    if recorded == [] {
      return Ok(ObliviousOutcome), tracker';
    } else {
      return Ok(DetectedAndRecorded(recorded)), tracker';
    }
  }

  // ---- Why two canonical children are a fork ----

  /** The block `k` self-justification steps behind `h`. */
  ghost function SelfAncestor(dag: Blocks, h: Hash, k: nat): Option<Hash>
    decreases k
  {
    if h !in dag then None
    else if k == 0 then Some(h)
    else
      match SelfJustification(dag, h)
      case None => None
      case Some(p) => SelfAncestor(dag, p, k - 1)
  }

  ghost predicate RootLowAt(dag: Blocks, v: Validator, base: int, h: Hash)
    requires h in dag
  {
    match SelfJustification(dag, h)
    case None => -1 <= base
    case Some(p) => p in dag && (dag[p].sender == v || dag[p].seqNum <= base)
  }

  /** Where a chain of `v` above the base leaves the validator's own blocks, it
      leaves to a sequence number no higher than the base. */
  ghost predicate ChainsRootLow(dag: Blocks, v: Validator, base: int) {
    forall h {:trigger RootLowAt(dag, v, base, h)} :: AboveBase(dag, h, v, base) ==> RootLowAt(dag, v, base, h)
  }

  /** Honest roots are low for every recorded base: a creator justification
      cites the sender's own block or the sequence-0 genesis. */
  lemma GenesisRootsAreLow(dag: Blocks, v: Validator, base: int)
    requires SequenceRule(dag) && base >= 0
    requires forall h :: h in dag && dag[h].sender == v && SelfJustification(dag, h).Some? ==>
                           var p := SelfJustification(dag, h).value;
                           p in dag && (dag[p].sender == v || dag[p].seqNum == 0)
    ensures ChainsRootLow(dag, v, base)
  {
    forall h | AboveBase(dag, h, v, base) ensures RootLowAt(dag, v, base, h) {
      assert SequenceRuleAt(dag, h);
    }
  }

  /** On a chain with low roots the walk ends exactly at sequence number base+1. */
  lemma {:induction false} WalkReachesBase(dag: Blocks, h: Hash, v: Validator, base: int, visited: set<Hash>)
    requires SequenceRule(dag) && ChainsRootLow(dag, v, base)
    requires AboveBase(dag, h, v, base)
    requires forall x :: x in visited ==> x in dag && dag[x].seqNum > dag[h].seqNum
    ensures var end := Oldest(dag, h, v, base, visited);
            && end.Ok? && AboveBase(dag, end.value, v, base) && dag[end.value].seqNum == base + 1
            && SelfAncestor(dag, h, dag[h].seqNum - base - 1) == Some(end.value)
    decreases dag[h].seqNum - base
  {
    assert SequenceRuleAt(dag, h) && RootLowAt(dag, v, base, h);
    match SelfJustification(dag, h)
    case None =>
    case Some(p) =>
      if AboveBase(dag, p, v, base) {
        WalkReachesBase(dag, p, v, base, visited + {h});
      }
  }

  ghost predicate LandsOnSuccessor(dag: Blocks, v: Validator, base: int, h: Hash) {
    var end := Oldest(dag, h, v, base, {});
    end.Ok? && end.value in dag && dag[end.value].seqNum == base + 1
  }

  lemma HighRootMisses(dag: Blocks, v: Validator, base: int, h: Hash)
    requires SequenceRule(dag)
    requires AboveBase(dag, h, v, base) && !RootLowAt(dag, v, base, h)
    ensures !LandsOnSuccessor(dag, v, base, h)
  {
    assert SequenceRuleAt(dag, h);
  }

  /** The walk lands on base+1 from every block of the validator if and only if
      the roots are low: a creator justification that cites someone else's
      higher block is enough to break it. */
  lemma BaseSuccessorIffRootsLow(dag: Blocks, v: Validator, base: int)
    requires SequenceRule(dag)
    ensures ChainsRootLow(dag, v, base) <==>
            forall h :: AboveBase(dag, h, v, base) ==> LandsOnSuccessor(dag, v, base, h)
  {
    if ChainsRootLow(dag, v, base) {
      forall h | AboveBase(dag, h, v, base) ensures LandsOnSuccessor(dag, v, base, h) {
        WalkReachesBase(dag, h, v, base, {});
      }
    } else {
      var h :| AboveBase(dag, h, v, base) && !RootLowAt(dag, v, base, h);
      HighRootMisses(dag, v, base, h);
    }
  }

  /** A DAG that obeys the rules can have a high root: block 3, the only one of
      validator 2, justifies itself by block 2 of validator 1, and the walk from it
      stops at sequence number 2. */
  lemma HighRootExample() returns (dag: Blocks)
    ensures WellFormed(dag) && AboveBase(dag, 3, 2, 0) && !LandsOnSuccessor(dag, 2, 0, 3)
  {
    var genesis := Meta([], 0, 0, 0, false, [], map[]);
    var first := Meta([0], 1, 0, 1, false, [], map[]);
    var second := Meta([1], 1, 1, 2, false, [Justification(1, 1)], map[]);
    var third := Meta([2], 2, 2, 3, false, [Justification(2, 2)], map[]);
    dag := map[0 := genesis, 1 := first, 2 := second, 3 := third];
    HighRootMisses(dag, 2, 0, 3);
  }

  /** The store and the DAG describe the same blocks. */
  ghost predicate StoreMatchesDag(dag: Blocks, store: BlockStore) {
    forall h :: h in store && h in dag ==> dag[h].sender == store[h].sender && dag[h].seqNum == store[h].seqNum
  }

  /** The block of the offender that the stored block `j` speaks for: itself if it is
      the offender's, otherwise the last the justifications of `j` name. */
  ghost predicate SpeaksFor(store: BlockStore, j: Hash, v: Validator, s: Hash) {
    j in store && if store[j].sender == v then s == j else LastNames(store[j].justifications, v, s)
  }

  /** A cited block other than genesis shows `c`: it speaks for a stored block of the
      offender above the base, and `c` is the ancestor of that block directly after the
      base. */
  ghost predicate CitesChild(
      dag: Blocks, store: BlockStore, genesis: Hash, j: Hash, v: Validator, base: int, c: Hash)
  {
    j != genesis && c in store
    && exists s :: SpeaksFor(store, j, v, s) && s in store && AboveBase(dag, s, v, base)
                   && SelfAncestor(dag, s, dag[s].seqNum - base - 1) == Some(c)
  }

  lemma SourceSpeaks(store: BlockStore, genesis: Hash, j: Hash, v: Validator, base: int, s: Hash)
    ensures Source(store, genesis, j, v, base) == Some(s) <==>
            j != genesis && SpeaksFor(store, j, v, s) && s in store && store[s].seqNum > base
  {
    if j in store && store[j].sender != v {
      var cited := LatestMessageHashes(store[j].justifications);
      assert (v in cited && cited[v] == s) <==> LastNames(store[j].justifications, v, s);
    }
  }

  lemma ExposedIsAncestor(
      dag: Blocks, store: BlockStore, genesis: Hash, j: Hash, v: Validator, base: int, c: Hash)
    requires SequenceRule(dag) && ChainsRootLow(dag, v, base) && StoreMatchesDag(dag, store)
    ensures Exposed(dag, store, genesis, j, v, base) == Ok(Some(c)) <==> CitesChild(dag, store, genesis, j, v, base, c)
    ensures Exposed(dag, store, genesis, j, v, base) == Ok(Some(c)) ==>
              c in dag && dag[c].sender == v && dag[c].seqNum == base + 1
  {
    forall s
      ensures Source(store, genesis, j, v, base) == Some(s) <==>
              j != genesis && SpeaksFor(store, j, v, s) && s in store && store[s].seqNum > base
    {
      SourceSpeaks(store, genesis, j, v, base, s);
    }
    match Source(store, genesis, j, v, base)
    case None =>
    case Some(s) =>
      if AboveBase(dag, s, v, base) {
        WalkReachesBase(dag, s, v, base, {});
      }
  }

  lemma TwoMembers(s: set<Hash>)
    ensures |s| > 1 <==> exists a, b :: a in s && b in s && a != b
  {
    if |s| > 1 {
      var a :| a in s;
      assert |s - {a}| == |s| - 1;
      var b :| b in s - {a};
    } else if |s| == 1 {
      var a :| a in s;
      assert |s - {a}| == 0;
      assert s == {a};
    }
  }

  /** A block of the offender that follows the base directly. */
  ghost predicate FollowsBase(dag: Blocks, rec: Record, c: Hash) {
    c in dag && dag[c].sender == rec.equivocator && dag[c].seqNum == rec.baseSeq + 1
  }

  /** Some cited block shows a chain through the offender's block `c`. */
  ghost predicate Shows(dag: Blocks, store: BlockStore, genesis: Hash, cited: set<Hash>, rec: Record, c: Hash) {
    exists j :: j in cited && CitesChild(dag, store, genesis, j, rec.equivocator, rec.baseSeq, c)
  }

  lemma ExposedIsShown(dag: Blocks, store: BlockStore, genesis: Hash, cited: set<Hash>, rec: Record, c: Hash)
    requires SequenceRule(dag) && StoreMatchesDag(dag, store)
    requires ChainsRootLow(dag, rec.equivocator, rec.baseSeq)
    ensures c in ExposedBy(dag, store, genesis, cited, rec.equivocator, rec.baseSeq)
       <==> Shows(dag, store, genesis, cited, rec, c)
    ensures Shows(dag, store, genesis, cited, rec, c) ==> FollowsBase(dag, rec, c)
  {
    var v, base := rec.equivocator, rec.baseSeq;
    if c in ExposedBy(dag, store, genesis, cited, v, base) {
      var j :| j in cited && Exposed(dag, store, genesis, j, v, base) == Ok(Some(c));
      ExposedIsAncestor(dag, store, genesis, j, v, base, c);
    }
    if Shows(dag, store, genesis, cited, rec, c) {
      var j :| j in cited && CitesChild(dag, store, genesis, j, v, base, c);
      ExposedIsAncestor(dag, store, genesis, j, v, base, c);
    }
  }

  /** Without a cited witness, detection is exactly the exposure of a fork: two
      different blocks of the offender, both with sequence number base+1, each
      the ancestor of what some cited block shows. */
  lemma DetectionIsAFork(dag: Blocks, store: BlockStore, genesis: Hash, cited: set<Hash>, rec: Record)
    requires SequenceRule(dag) && StoreMatchesDag(dag, store)
    requires ChainsRootLow(dag, rec.equivocator, rec.baseSeq)
    requires forall j :: j in cited ==> j !in rec.witnesses
    ensures Detectable(dag, store, genesis, cited, rec) <==>
            exists a, b :: && a != b
                           && Shows(dag, store, genesis, cited, rec, a) && FollowsBase(dag, rec, a)
                           && Shows(dag, store, genesis, cited, rec, b) && FollowsBase(dag, rec, b)
  {
    var exposed := ExposedBy(dag, store, genesis, cited, rec.equivocator, rec.baseSeq);
    TwoMembers(exposed);
    forall c
      ensures c in exposed <==> Shows(dag, store, genesis, cited, rec, c)
      ensures Shows(dag, store, genesis, cited, rec, c) ==> FollowsBase(dag, rec, c)
    {
      ExposedIsShown(dag, store, genesis, cited, rec, c);
    }
    if |exposed| > 1 {
      var a, b :| a in exposed && b in exposed && a != b;
      assert Shows(dag, store, genesis, cited, rec, a) && Shows(dag, store, genesis, cited, rec, b);
    }
  }

  /** The whole verdict in the block's own terms: it neglects a record exactly when the
      first bond of the equivocator is positive and it cites a witness or shows a
      fork. */
  lemma NeglectIsComplicity(
      dag: Blocks, store: BlockStore, genesis: Hash, bonds: seq<BondEntry>, cited: set<Hash>, rec: Record)
    requires SequenceRule(dag) && StoreMatchesDag(dag, store)
    requires ChainsRootLow(dag, rec.equivocator, rec.baseSeq)
    ensures Neglects(dag, store, genesis, bonds, cited, rec) <==>
            && (exists i :: 0 <= i < |bonds| && bonds[i].validator == rec.equivocator && bonds[i].stake > 0
                            && forall k :: 0 <= k < i ==> bonds[k].validator != rec.equivocator)
            && ((exists j :: j in cited && j in rec.witnesses)
                || exists a, b :: && a != b
                                  && Shows(dag, store, genesis, cited, rec, a) && FollowsBase(dag, rec, a)
                                  && Shows(dag, store, genesis, cited, rec, b) && FollowsBase(dag, rec, b))
  {
    var v := rec.equivocator;
    var stake := StakeOf(bonds, v);
    if stake.Some? {
      var i :| 0 <= i < |bonds| && bonds[i] == BondEntry(v, stake.value)
               && forall k :: 0 <= k < i ==> bonds[k].validator != v;
      forall x | 0 <= x < |bonds| && bonds[x].validator == v && (forall k :: 0 <= k < x ==> bonds[k].validator != v)
        ensures bonds[x].stake == stake.value
      {
        assert x == i;
      }
    } else {
      forall x | 0 <= x < |bonds| ensures bonds[x].validator != v {
        assert bonds[x] in bonds;
      }
    }
    if forall j :: j in cited ==> j !in rec.witnesses {
      DetectionIsAFork(dag, store, genesis, cited, rec);
    }
  }
}
