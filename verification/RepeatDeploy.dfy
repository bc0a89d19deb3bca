/** The repeat-deploy check: a scan of the ancestors in the expiration window,
    which reads block bodies through the signature cache, with an index of carriers
    that lets most signatures skip it. */
module RepeatDeploy {
  import opened Prelude
  import opened Dag
  import opened DeploySigCache
  import opened Paths
  import opened Seqs

  /** The body each hash stands for, held or not. */
  type Bodies = Hash -> Stored

  datatype ScanError = BlockNotHeld(hash: Hash) | BodyMissing(hash: Hash) | BodyUnreadable(hash: Hash, fault: ReadError)

  // ---- What is in scope ----

  /** A parent edge the scan follows. */
  predicate Step(dag: Blocks, earliest: int, from: Hash, to: Hash) {
    from in dag && to in dag[from].parents && to in dag && dag[to].number >= earliest
  }

  function Edge(dag: Blocks, earliest: int): (Hash, Hash) -> bool {
    (from: Hash, to: Hash) => Step(dag, earliest, from, to)
  }

  /** Reached from a start block through blocks of the window. The start blocks
      themselves are in scope whatever their number. */
  ghost predicate InScope(dag: Blocks, starts: set<Hash>, earliest: int, h: Hash) {
    Reached(Edge(dag, earliest), starts, h)
  }

  /** In scope are the start blocks and, of a block in scope, the held parents no lower
      than the earliest height. */
  lemma ScopeIff(dag: Blocks, starts: set<Hash>, earliest: int, h: Hash)
    ensures InScope(dag, starts, earliest, h) <==>
            || h in starts
            || (&& h in dag && dag[h].number >= earliest
                && exists c :: InScope(dag, starts, earliest, c) && c in dag && h in dag[c].parents)
  {
    if h in starts {
      StartIsReached(Edge(dag, earliest), starts, h);
    } else if InScope(dag, starts, earliest, h) {
      var c := LastStep(Edge(dag, earliest), starts, h);
      assert InScope(dag, starts, earliest, c);
    }
    if h in dag && dag[h].number >= earliest {
      if c :| InScope(dag, starts, earliest, c) && c in dag && h in dag[c].parents {
        StepIsReached(Edge(dag, earliest), starts, c, h);
      }
    }
  }

  /** Past the start blocks, everything in scope is in the window. */
  lemma ScopeIsWindow(dag: Blocks, starts: set<Hash>, earliest: int, h: Hash)
    requires InScope(dag, starts, earliest, h)
    ensures h in starts || (h in dag && dag[h].number >= earliest)
  {
    if h !in starts {
      var from := LastStep(Edge(dag, earliest), starts, h);
    }
  }

  // ---- What a scan looks for ----

  /** The signatures a body carries; none when it cannot be read. */
  function CarriedBy(bodies: Bodies, h: Hash): set<Sig> {
    match Decode(bodies(h))
    case Err(_) => {}
    case Ok(sigs) => set sig | sig in sigs
  }

  predicate Carries(bodies: Bodies, h: Hash, keys: set<Sig>) {
    CarriedBy(bodies, h) * keys != {}
  }

  /** Some block in scope carries one of `keys`. */
  ghost predicate Repeats(dag: Blocks, bodies: Bodies, starts: set<Hash>, earliest: int, keys: set<Sig>) {
    exists h :: InScope(dag, starts, earliest, h) && Carries(bodies, h, keys)
  }

  /** The node holds what the scan may have to read of `h`: a body it can decode, and
      the metadata of its parents. */
  ghost predicate Readable(dag: Blocks, disk: Disk, h: Hash) {
    h in disk && Decode(disk[h]).Ok? && h in dag && forall p :: p in dag[h].parents ==> p in dag
  }

  ghost predicate ScopeHeld(dag: Blocks, disk: Disk, starts: set<Hash>, earliest: int) {
    forall h :: InScope(dag, starts, earliest, h) ==> Readable(dag, disk, h)
  }

  /** Every body in scope is on disk, in whatever state. */
  ghost predicate ScopeOnDisk(dag: Blocks, disk: Disk, starts: set<Hash>, earliest: int) {
    forall h :: InScope(dag, starts, earliest, h) ==> h in disk
  }

  lemma HasAnyIsCarried(bodies: Bodies, h: Hash, keys: set<Sig>)
    requires Decode(bodies(h)).Ok?
    ensures HasAny(Decode(bodies(h)).value, keys) <==> Carries(bodies, h, keys)
  {
    var sigs := Decode(bodies(h)).value;
    if HasAny(sigs, keys) {
      var i :| 0 <= i < |sigs| && sigs[i] in keys;
      assert sigs[i] in CarriedBy(bodies, h) * keys;
    }
    if Carries(bodies, h, keys) {
      var sig :| sig in CarriedBy(bodies, h) * keys;
      var i :| 0 <= i < |sigs| && sigs[i] == sig;
    }
  }

  // ---- The scan, reading the disk alone ----

  /** `has_any_deploy_sig_strict` without a cache. */
  function ReadBlock(disk: Disk, h: Hash, keys: set<Sig>): Result<bool, ScanError> {
    if keys == {} then Ok(false)
    else if h !in disk then Err(BodyMissing(h))
    else
      match Decode(disk[h])
      case Err(e) => Err(BodyUnreadable(h, e))
      case Ok(sigs) => Ok(HasAny(sigs, keys))
  }

  predicate InWindow(dag: Blocks, earliest: int, h: Hash) {
    h in dag && dag[h].number >= earliest
  }

  /** What is met and what is queued once the parents of a visited block are seen to;
      one the node does not hold ends the scan. */
  function QueueParents(dag: Blocks, earliest: int, parents: seq<Hash>, met: set<Hash>, queue: seq<Hash>)
    : (r: Result<(set<Hash>, seq<Hash>), ScanError>)
    ensures r.Ok? <==> forall p :: p in parents ==> p in met || p in dag
    ensures r.Err? ==> exists p :: p in parents && p !in dag && r.error == BlockNotHeld(p)
    ensures r.Ok? ==> met <= r.value.0 && forall h ::
                        h in r.value.0 <==> h in met || (h in parents && InWindow(dag, earliest, h))
    ensures r.Ok? ==> forall h :: h in r.value.1 <==> h in queue || (h in r.value.0 && h !in met)
    ensures r.Ok? && r.value.0 == met ==> r.value.1 == queue
    ensures r.Ok? && Distinct(queue) && (forall h :: h in queue ==> h in met) ==> Distinct(r.value.1)
    decreases |parents|
  {
    if parents == [] then Ok((met, queue))
    else
      var p := parents[0];
      assert forall h :: h in parents <==> h == p || h in parents[1..];
      if p in met then QueueParents(dag, earliest, parents[1..], met, queue)
      else if p !in dag then Err(BlockNotHeld(p))
      else if dag[p].number >= earliest
        then QueueParents(dag, earliest, parents[1..], met + {p}, queue + [p])
      else QueueParents(dag, earliest, parents[1..], met, queue)
  }

  function ScanFrom(dag: Blocks, disk: Disk, earliest: int, keys: set<Sig>, met: set<Hash>, queue: seq<Hash>)
    : Result<Option<Hash>, ScanError>
    requires met <= dag.Keys && forall h :: h in queue ==> h in met
    decreases dag.Keys - met, |queue|
  {
    if queue == [] then Ok(None)
    else
      match ReadBlock(disk, queue[0], keys)
      case Err(e) => Err(e)
      case Ok(true) => Ok(Some(queue[0]))
      case Ok(false) =>
        match QueueParents(dag, earliest, dag[queue[0]].parents, met, queue[1..])
        case Err(e) => Err(e)
        case Ok(next) => ScanFrom(dag, disk, earliest, keys, next.0, next.1)
  }

  /** The start blocks in order, each once. */
  function Enlisted(starts: seq<Hash>): (queue: seq<Hash>)
    ensures Distinct(queue) && forall h :: h in queue <==> h in starts
  {
    if starts == [] then []
    else
      var front, last := Enlisted(starts[..|starts| - 1]), starts[|starts| - 1];
      assert forall h :: h in starts <==> h in starts[..|starts| - 1] || h == last;
      if last in front then front else front + [last]
  }

  /** The scan as a function of the DAG and the disk. */
  ghost function ScanOf(dag: Blocks, disk: Disk, starts: seq<Hash>, earliest: int, keys: set<Sig>)
    : Result<Option<Hash>, ScanError>
    requires forall h :: h in starts ==> h in dag
  {
    ScanFrom(dag, disk, earliest, keys, Members(starts), Enlisted(starts))
  }

  // ---- What the scan means ----

  /** The scan so far: everything met is in scope, and every block read carried
      nothing and leads only to blocks met. */
  ghost predicate Scanned(
      dag: Blocks, bodies: Bodies, starts: set<Hash>, earliest: int, keys: set<Sig>, met: set<Hash>, queued: set<Hash>)
  {
    && starts <= met && queued <= met <= dag.Keys
    && (forall h {:trigger InScope(dag, starts, earliest, h)} :: h in met ==> InScope(dag, starts, earliest, h))
    && Closed(Edge(dag, earliest), met - queued, met)
    && (forall h {:trigger Carries(bodies, h, keys)} :: h in met - queued ==> !Carries(bodies, h, keys))
  }

  lemma ScanStarts(dag: Blocks, bodies: Bodies, starts: seq<Hash>, earliest: int, keys: set<Sig>, queue: seq<Hash>)
    requires (forall h :: h in starts ==> h in dag) && Members(queue) == Members(starts)
    ensures Scanned(dag, bodies, Members(starts), earliest, keys, Members(starts), Members(queue))
  {
    forall h | h in Members(starts) ensures InScope(dag, Members(starts), earliest, h) {
      StartIsReached(Edge(dag, earliest), Members(starts), h);
    }
  }

  lemma ScanStep(
      dag: Blocks, bodies: Bodies, starts: set<Hash>, earliest: int, keys: set<Sig>,
      met: set<Hash>, queued: set<Hash>, h: Hash, met': set<Hash>, queued': set<Hash>)
    requires Scanned(dag, bodies, starts, earliest, keys, met, queued) && h in queued && !Carries(bodies, h, keys)
    requires forall x :: x in met' <==> x in met || (x in dag[h].parents && InWindow(dag, earliest, x))
    requires met <= met' && queued' == queued - {h} + (met' - met)
    ensures Scanned(dag, bodies, starts, earliest, keys, met', queued')
  {
    assert InScope(dag, starts, earliest, h);
    forall x | x in met' ensures InScope(dag, starts, earliest, x) {
      if x !in met {
        StepIsReached(Edge(dag, earliest), starts, h, x);
      }
    }
    forall x | x in met' - queued' ensures StepsWithin(Edge(dag, earliest), x, met') {
      if x != h {
        assert StepsWithin(Edge(dag, earliest), x, met);
      }
    }
  }

  /** One block has been read without a match and its parents are queued. */
  lemma {:induction false} ScanOn(
      dag: Blocks, bodies: Bodies, starts: set<Hash>, earliest: int, keys: set<Sig>, met: set<Hash>, queue: seq<Hash>)
    requires queue != [] && Distinct(queue) && Scanned(dag, bodies, starts, earliest, keys, met, Members(queue))
    requires !Carries(bodies, queue[0], keys)
    ensures queue[0] in met && forall h :: h in queue[1..] ==> h in met
    ensures var next := QueueParents(dag, earliest, dag[queue[0]].parents, met, queue[1..]);
            next.Ok? ==>
              && Distinct(next.value.1)
              && Scanned(dag, bodies, starts, earliest, keys, next.value.0, Members(next.value.1))
  {
    MembersOfTail(queue);
    assert queue[0] in Members(queue);
    var next := QueueParents(dag, earliest, dag[queue[0]].parents, met, queue[1..]);
    forall h | h in queue[1..] ensures h in met {
      assert h in Members(queue);
    }
    if next.Ok? {
      var queued' := Members(queue) - {queue[0]} + (next.value.0 - met);
      ScanStep(dag, bodies, starts, earliest, keys, met, Members(queue), queue[0], next.value.0, queued');
      assert Members(next.value.1) == queued';
    }
  }

  lemma ScanEnds(dag: Blocks, bodies: Bodies, starts: set<Hash>, earliest: int, keys: set<Sig>, met: set<Hash>)
    requires Scanned(dag, bodies, starts, earliest, keys, met, {})
    ensures !Repeats(dag, bodies, starts, earliest, keys)
  {
    assert met - {} == met;
    forall h | InScope(dag, starts, earliest, h) ensures !Carries(bodies, h, keys) {
      ClosedHoldsReached(Edge(dag, earliest), starts, met, h);
    }
  }

  // ---- The scan through the cache ----

  /** The loop over the parents of a visited block. */
  method EnqueueParents(dag: Blocks, earliest: int, parents: seq<Hash>, met: set<Hash>, queue: seq<Hash>)
    returns (r: Result<(set<Hash>, seq<Hash>), ScanError>)
    ensures r == QueueParents(dag, earliest, parents, met, queue)
  {
    var met', queue' := met, queue;
    assert parents[0..] == parents;
    for k := 0 to |parents|
      invariant QueueParents(dag, earliest, parents, met, queue)
             == QueueParents(dag, earliest, parents[k..], met', queue')
    {
      var p := parents[k];
      assert parents[k..][0] == p && parents[k..][1..] == parents[k + 1..];
      if p in met' {
        continue;
      }
      if p !in dag {
        return Err(BlockNotHeld(p));
      }
      if dag[p].number >= earliest {
        met', queue' := met' + {p}, queue' + [p];
      }
    }
    return Ok((met', queue'));
  }

  ghost predicate CacheReady(cache: SigCache, disk: Disk, bodies: Bodies)
    reads cache
  {
    Fifo(cache.Value()) && Agrees(cache.Value(), bodies) && OneBody(disk, bodies)
  }

  /** `has_any_deploy_sig_strict`. */
  method ReadThroughCache(cache: SigCache, disk: Disk, h: Hash, keys: set<Sig>, ghost bodies: Bodies)
    returns (r: Result<bool, ScanError>)
    requires CacheReady(cache, disk, bodies)
    modifies cache
    ensures CacheReady(cache, disk, bodies)
    ensures h in disk ==> r == ReadBlock(disk, h, keys)
    ensures r.Err? ==> h !in disk || Decode(disk[h]).Err?
    ensures r.Ok? ==> r.value == Carries(bodies, h, keys)
  {
    var held := cache.HasAnyDeploySigOpt(disk, h, keys, bodies);
    if Decode(bodies(h)).Ok? {
      HasAnyIsCarried(bodies, h, keys);
    }
    match held
    case Err(e) => return Err(BodyUnreadable(h, e));
    case Ok(None) => return Err(BodyMissing(h));
    case Ok(Some(found)) => return Ok(found);
  }

  /** `walk_blocks_in_scope` with the visitor of `repeat_deploy`. Any cache that agrees
      with the bodies gives the right answer; where the scope is on disk it gives the
      answer of reading the disk alone, errors included. */
  method Scan(
      cache: SigCache, dag: Blocks, disk: Disk, starts: seq<Hash>, earliest: int, keys: set<Sig>, ghost bodies: Bodies)
    returns (r: Result<Option<Hash>, ScanError>)
    requires CacheReady(cache, disk, bodies) && forall h :: h in starts ==> h in dag
    modifies cache
    ensures CacheReady(cache, disk, bodies)
    ensures r.Ok? ==> (r.value.Some? <==> Repeats(dag, bodies, Members(starts), earliest, keys))
    ensures r.Ok? && r.value.Some? ==>
              InScope(dag, Members(starts), earliest, r.value.value) && Carries(bodies, r.value.value, keys)
    ensures r.Err? ==> !ScopeHeld(dag, disk, Members(starts), earliest)
    ensures ScopeOnDisk(dag, disk, Members(starts), earliest) ==> r == ScanOf(dag, disk, starts, earliest, keys)
  {
    ghost var from := Members(starts);
    var queue: seq<Hash> := [];
    var met: set<Hash> := {};
    for i := 0 to |starts|
      invariant queue == Enlisted(starts[..i]) && met == Members(queue)
    {
      assert starts[..i + 1][..i] == starts[..i];
      if starts[i] !in met {
        met := met + {starts[i]};
        queue := queue + [starts[i]];
      }
    }
    assert starts[..|starts|] == starts;
    assert met == Members(queue) == from;
    ScanStarts(dag, bodies, starts, earliest, keys, queue);
    while queue != []
      invariant CacheReady(cache, disk, bodies)
      invariant Distinct(queue) && Scanned(dag, bodies, from, earliest, keys, met, Members(queue))
      invariant forall h :: h in queue ==> h in met
      invariant ScopeOnDisk(dag, disk, from, earliest) ==>
                  ScanOf(dag, disk, starts, earliest, keys) == ScanFrom(dag, disk, earliest, keys, met, queue)
      decreases dag.Keys - met, |queue|
    {
      var current := queue[0];
      assert current in Members(queue) && InScope(dag, from, earliest, current);
      var read := ReadThroughCache(cache, disk, current, keys, bodies);
      if read.Err? {
        return Err(read.error);
      }
      if read.value {
        return Ok(Some(current));
      }
      ScanOn(dag, bodies, from, earliest, keys, met, queue);
      var next := EnqueueParents(dag, earliest, dag[current].parents, met, queue[1..]);
      if next.Err? {
        return Err(next.error);
      }
      met, queue := next.value.0, next.value.1;
    }
    assert Members(queue) == {};
    ScanEnds(dag, bodies, from, earliest, keys, met);
    return Ok(None);
  }

  // ---- The carrier index ----

  datatype Probe = Absent | Listed | Unreadable

  datatype Watermark = Since(height: int) | NotReady | WatermarkUnreadable

  /** The height from which every carrier is recorded, and what a probe of each
      signature answers. */
  datatype CarrierIndex = CarrierIndex(watermark: Watermark, probe: Sig -> Probe)

  predicate Engaged(index: CarrierIndex, earliest: int) {
    index.watermark.Since? && index.watermark.height <= Max(earliest, 0)
  }

  /** Every carrier at height `w` or more is recorded. */
  ghost predicate Complete(dag: Blocks, bodies: Bodies, index: CarrierIndex, w: int) {
    forall h, sig :: h in dag && dag[h].number >= w && sig in CarriedBy(bodies, h) ==> index.probe(sig) != Absent
  }

  /** Only keys an engaged index proves absent are missing from `scan`. */
  ghost predicate Pruned(index: CarrierIndex, earliest: int, keys: set<Sig>, scan: set<Sig>) {
    scan <= keys && forall sig :: sig in keys - scan ==> Engaged(index, earliest) && index.probe(sig) == Absent
  }

  /** The signatures the scan still has to look for. They are probed in any
      order; once a probe fails the rest are kept unprobed. */
  method KeysToScan(keys: set<Sig>, index: CarrierIndex, earliest: int) returns (scan: set<Sig>)
    ensures Pruned(index, earliest, keys, scan)
    ensures (forall w :: index.watermark != Since(w) || (w > earliest && w > 0)) ==> scan == keys
    ensures Engaged(index, earliest) && (forall sig :: sig in keys ==> index.probe(sig) != Unreadable) ==>
              scan == set sig | sig in keys && index.probe(sig) != Absent
  {
    if !Engaged(index, earliest) {
      return keys;
    }
    scan := {};
    var todo, failed := keys, false;
    while todo != {}
      invariant todo <= keys && scan <= keys - todo
      invariant forall sig :: sig in keys - todo - scan ==> index.probe(sig) == Absent
      invariant forall sig :: sig in scan ==> failed || index.probe(sig) != Absent
      invariant failed ==> exists sig :: sig in keys && index.probe(sig) == Unreadable
      decreases todo
    {
      var sig :| sig in todo;
      todo := todo - {sig};
      if failed || index.probe(sig) == Listed {
        scan := scan + {sig};
      } else if index.probe(sig) == Unreadable {
        failed := true;
        scan := scan + {sig};
      }
    }
  }

  /** The start blocks are at heights the index covers. */
  ghost predicate StartsCovered(dag: Blocks, starts: set<Hash>, w: int) {
    forall h :: h in starts ==> h in dag && dag[h].number >= w
  }

  /** A signature the index knows no carrier of is carried nowhere in scope. */
  lemma AbsentIsUnscoped(
      dag: Blocks, bodies: Bodies, index: CarrierIndex, starts: set<Hash>, earliest: int, sig: Sig, h: Hash)
    requires NumbersNatural(dag) && Engaged(index, earliest)
    requires Complete(dag, bodies, index, index.watermark.height)
    requires StartsCovered(dag, starts, index.watermark.height)
    requires InScope(dag, starts, earliest, h) && index.probe(sig) == Absent
    ensures sig !in CarriedBy(bodies, h)
  {
    ScopeIsWindow(dag, starts, earliest, h);
  }

  /** What the index has to be where it is used. */
  ghost predicate IndexServes(
      dag: Blocks, bodies: Bodies, index: CarrierIndex, starts: set<Hash>, earliest: int)
  {
    && NumbersNatural(dag)
    && (Engaged(index, earliest) ==>
          && Complete(dag, bodies, index, index.watermark.height)
          && StartsCovered(dag, starts, index.watermark.height))
  }

  /** Dropping the signatures the index proves absent does not change what a block in
      scope carries of them. */
  lemma PrunedKeysAreNotCarried(
      dag: Blocks, bodies: Bodies, index: CarrierIndex, starts: set<Hash>, earliest: int,
      keys: set<Sig>, scan: set<Sig>, h: Hash)
    requires IndexServes(dag, bodies, index, starts, earliest) && Pruned(index, earliest, keys, scan)
    requires InScope(dag, starts, earliest, h)
    ensures Carries(bodies, h, scan) <==> Carries(bodies, h, keys)
  {
    if Carries(bodies, h, scan) {
      var sig :| sig in CarriedBy(bodies, h) * scan;
      assert sig in CarriedBy(bodies, h) * keys;
    }
    if Carries(bodies, h, keys) {
      var sig :| sig in CarriedBy(bodies, h) * keys;
      if sig !in scan {
        assert sig in keys - scan;
        AbsentIsUnscoped(dag, bodies, index, starts, earliest, sig, h);
      }
      assert sig in CarriedBy(bodies, h) * scan;
    }
  }

  /** So it changes no verdict, for any pattern of probe failures. */
  lemma ShortcutKeepsVerdict(
      dag: Blocks, bodies: Bodies, index: CarrierIndex, starts: set<Hash>, earliest: int,
      keys: set<Sig>, scan: set<Sig>)
    requires IndexServes(dag, bodies, index, starts, earliest) && Pruned(index, earliest, keys, scan)
    ensures Repeats(dag, bodies, starts, earliest, scan) <==> Repeats(dag, bodies, starts, earliest, keys)
  {
    forall h | InScope(dag, starts, earliest, h)
      ensures Carries(bodies, h, scan) <==> Carries(bodies, h, keys)
    {
      PrunedKeysAreNotCarried(dag, bodies, index, starts, earliest, keys, scan, h);
    }
  }

  lemma PrunedReadsAlike(
      dag: Blocks, disk: Disk, bodies: Bodies, index: CarrierIndex, starts: set<Hash>, earliest: int,
      keys: set<Sig>, scan: set<Sig>, h: Hash)
    requires IndexServes(dag, bodies, index, starts, earliest) && Pruned(index, earliest, keys, scan) && scan != {}
    requires OneBody(disk, bodies) && InScope(dag, starts, earliest, h)
    ensures ReadBlock(disk, h, scan) == ReadBlock(disk, h, keys)
  {
    PrunedKeysAreNotCarried(dag, bodies, index, starts, earliest, keys, scan, h);
    if h in disk && Decode(bodies(h)).Ok? {
      HasAnyIsCarried(bodies, h, scan);
      HasAnyIsCarried(bodies, h, keys);
    }
  }

  /** Nor, while anything is left to look for, the course of the scan and its errors. */
  lemma {:induction false} ShortcutKeepsScan(
      dag: Blocks, disk: Disk, bodies: Bodies, index: CarrierIndex, starts: set<Hash>, earliest: int,
      keys: set<Sig>, scan: set<Sig>, met: set<Hash>, queue: seq<Hash>)
    requires IndexServes(dag, bodies, index, starts, earliest) && Pruned(index, earliest, keys, scan) && scan != {}
    requires OneBody(disk, bodies) && Distinct(queue) && (forall h :: h in queue ==> h in met)
    requires Scanned(dag, bodies, starts, earliest, keys, met, Members(queue))
    ensures ScanFrom(dag, disk, earliest, scan, met, queue) == ScanFrom(dag, disk, earliest, keys, met, queue)
    decreases dag.Keys - met, |queue|
  {
    if queue != [] {
      assert queue[0] in met && InScope(dag, starts, earliest, queue[0]);
      PrunedReadsAlike(dag, disk, bodies, index, starts, earliest, keys, scan, queue[0]);
      if ReadBlock(disk, queue[0], keys) == Ok(false) {
        HasAnyIsCarried(bodies, queue[0], keys);
        ScanOn(dag, bodies, starts, earliest, keys, met, queue);
        var next := QueueParents(dag, earliest, dag[queue[0]].parents, met, queue[1..]);
        if next.Ok? {
          ShortcutKeepsScan(dag, disk, bodies, index, starts, earliest, keys, scan, next.value.0, next.value.1);
        }
      }
    }
  }

  /** The start blocks have to be covered: below the watermark even a parent's own
      deploys can be missing from a complete index, and the scan would have found
      them. */
  lemma UncoveredStartBreaksShortcut(
      dag: Blocks, starts: set<Hash>, earliest: int, w: int, parent: Hash, sig: Sig)
    returns (bodies: Bodies, index: CarrierIndex)
    requires parent in starts && parent in dag && dag[parent].number < w <= Max(earliest, 0)
    requires |sig| >= MIN_SIG_BYTES
    ensures index.watermark == Since(w) && Engaged(index, earliest) && Complete(dag, bodies, index, w)
    ensures (forall h :: Decode(bodies(h)).Ok?) && index.probe(sig) == Absent
    ensures Repeats(dag, bodies, starts, earliest, {sig}) && !Repeats(dag, bodies, starts, earliest, {})
  {
    bodies := h => if h == parent then Body([Some(sig)]) else Body([]);
    index := CarrierIndex(Since(w), _ => Absent);
    StartIsReached(Edge(dag, earliest), starts, parent);
    var deploys := [Some(sig)];
    assert Sigs(deploys[1..]) == Ok([]);
    assert Decode(bodies(parent)) == Ok([sig] + []);
    assert sig in CarriedBy(bodies, parent) * {sig};
    assert Carries(bodies, parent, {sig});
  }

  /** So a complete index may stand in for the scan, whatever the bodies and the
      probes hold, if and only if every declared parent is at or above its
      watermark. */
  ghost predicate ShortcutSafe(dag: Blocks, starts: set<Hash>, earliest: int, w: int) {
    forall bodies: Bodies, index: CarrierIndex, keys: set<Sig>, scan: set<Sig> ::
      (index.watermark == Since(w) && Complete(dag, bodies, index, w) && Pruned(index, earliest, keys, scan))
      ==> (Repeats(dag, bodies, starts, earliest, scan) <==> Repeats(dag, bodies, starts, earliest, keys))
  }

  lemma ShortcutSafeIffStartsCovered(dag: Blocks, starts: set<Hash>, earliest: int, w: int)
    requires NumbersNatural(dag) && w <= Max(earliest, 0) && starts <= dag.Keys
    ensures ShortcutSafe(dag, starts, earliest, w) <==> StartsCovered(dag, starts, w)
  {
    if StartsCovered(dag, starts, w) {
      forall bodies: Bodies, index: CarrierIndex, keys: set<Sig>, scan: set<Sig> |
        index.watermark == Since(w) && Complete(dag, bodies, index, w) && Pruned(index, earliest, keys, scan)
        ensures Repeats(dag, bodies, starts, earliest, scan) <==> Repeats(dag, bodies, starts, earliest, keys)
      {
        ShortcutKeepsVerdict(dag, bodies, index, starts, earliest, keys, scan);
      }
    } else {
      var parent :| parent in starts && dag[parent].number < w;
      var sig: Sig := seq(MIN_SIG_BYTES, _ => 0);
      var bodies, index := UncoveredStartBreaksShortcut(dag, starts, earliest, w, parent, sig);
      assert Pruned(index, earliest, {sig}, {});
    }
  }

  // ---- The whole check ----

  /** Whether a rejected signature may be tried again. */
  datatype Gate = Open | Shut | GateFails(error: nat)

  /** What the finalized-floor walk contributes: the rejected signatures of the
      window, and the gate of each; either may fail to be read. */
  datatype FloorContext = FloorContext(rejected: Result<set<Sig>, nat>, gate: Sig -> Gate)

  datatype DeployVerdict =
    | DeployValid
    | InvalidRepeatDeploy
    | PrematureDeployRetry
    | ParentNotHeld(hash: Hash)
    | ContextFails(code: nat)
    | ScanFailed(error: ScanError)

  predicate Rejected(ctx: Option<FloorContext>, sig: Sig) {
    ctx.Some? && ctx.value.rejected.Ok? && sig in ctx.value.rejected.value
  }

  predicate Recovering(ctx: Option<FloorContext>, sig: Sig) {
    Rejected(ctx, sig) && ctx.value.gate(sig).Open?
  }

  /** A rejected signature whose gate does not open. */
  predicate Barred(ctx: Option<FloorContext>, sig: Sig) {
    Rejected(ctx, sig) && !ctx.value.gate(sig).Open?
  }

  /** The first deploy that is barred decides. */
  function FirstBarred(ctx: Option<FloorContext>, deploys: seq<Sig>): (r: Option<Sig>)
    ensures r.None? <==> forall sig :: sig in deploys ==> !Barred(ctx, sig)
    ensures r.Some? ==> exists i :: 0 <= i < |deploys| && deploys[i] == r.value && Barred(ctx, r.value)
                                    && forall k :: 0 <= k < i ==> !Barred(ctx, deploys[k])
  {
    if deploys == [] then None
    else if Barred(ctx, deploys[0]) then Some(deploys[0])
    else
      assert forall k :: 0 < k < |deploys| ==> deploys[k] == deploys[1..][k - 1];
      FirstBarred(ctx, deploys[1..])
  }

  /** How the context ends the check before any scan, if it does. */
  function ContextFault(ctx: Option<FloorContext>, deploys: seq<Sig>): Option<DeployVerdict> {
    if ctx.None? then None
    else if ctx.value.rejected.Err? then Some(ContextFails(ctx.value.rejected.error))
    else
      match FirstBarred(ctx, deploys)
      case None => None
      case Some(sig) =>
        match ctx.value.gate(sig)
        case GateFails(code) => Some(ContextFails(code))
        case _ => Some(PrematureDeployRetry)
  }

  function JudgedKeys(ctx: Option<FloorContext>, deploys: seq<Sig>): set<Sig> {
    set sig | sig in deploys && !Recovering(ctx, sig)
  }

  function Earliest(dag: Blocks, parents: seq<Hash>, threshold: int): int
    requires forall i :: 0 <= i < |parents| ==> parents[i] in dag
  {
    MaxNumber(dag, parents) + 1 - threshold
  }

  /** What ends the check before any scan: nothing to judge, an unheld parent, or the
      context. */
  function Early(dag: Blocks, parents: seq<Hash>, deploys: seq<Sig>, ctx: Option<FloorContext>): Option<DeployVerdict>
  {
    if deploys == [] then Some(DeployValid)
    else if FirstUnheld(dag, parents).Some? then Some(ParentNotHeld(FirstUnheld(dag, parents).value))
    else if ContextFault(ctx, deploys).Some? then ContextFault(ctx, deploys)
    else if JudgedKeys(ctx, deploys) == {} then Some(DeployValid)
    else None
  }

  /** The right verdict: some block in scope carries a signature to judge, or none
      does. */
  ghost function TrueVerdict(
      dag: Blocks, bodies: Bodies, parents: seq<Hash>, deploys: seq<Sig>, threshold: int, ctx: Option<FloorContext>)
    : DeployVerdict
  {
    if Early(dag, parents, deploys, ctx).Some? then Early(dag, parents, deploys, ctx).value
    else if Repeats(dag, bodies, Members(parents), Earliest(dag, parents, threshold), JudgedKeys(ctx, deploys))
      then InvalidRepeatDeploy
    else DeployValid
  }

  /** A held block is in the expiration window exactly when no parent is the threshold or
      more above it; without parents the count starts from -1. */
  lemma WindowIff(dag: Blocks, parents: seq<Hash>, threshold: int, h: Hash)
    requires (forall i :: 0 <= i < |parents| ==> parents[i] in dag) && h in dag
    ensures dag[h].number >= Earliest(dag, parents, threshold) <==>
            && -1 - dag[h].number < threshold
            && forall p :: p in parents ==> dag[p].number - dag[h].number < threshold
  {
    var top := MaxNumber(dag, parents);
    if forall p :: p in parents ==> dag[p].number - dag[h].number < threshold {
      if i :| 0 <= i < |parents| && dag[parents[i]].number == top {
        assert parents[i] in parents;
      }
    }
  }

  /** The context can be read and opens the gate of every rejected signature that comes
      back. */
  ghost predicate ContextClear(ctx: Option<FloorContext>, deploys: seq<Sig>) {
    ctx.Some? ==>
      && ctx.value.rejected.Ok?
      && forall sig :: sig in deploys && sig in ctx.value.rejected.value ==> ctx.value.gate(sig) == Open
  }

  /** Deploy `i` is the first to have been rejected with a gate that does not open. */
  ghost predicate ClosedGate(ctx: FloorContext, deploys: seq<Sig>, i: nat)
    requires ctx.rejected.Ok? && i < |deploys|
  {
    && deploys[i] in ctx.rejected.value && ctx.gate(deploys[i]) != Open
    && forall k :: 0 <= k < i ==> deploys[k] in ctx.rejected.value ==> ctx.gate(deploys[k]) == Open
  }

  lemma ContextFaultIff(ctx: Option<FloorContext>, deploys: seq<Sig>)
    ensures ContextFault(ctx, deploys).None? <==> ContextClear(ctx, deploys)
    ensures ContextFault(ctx, deploys) == Some(PrematureDeployRetry) <==>
            && ctx.Some? && ctx.value.rejected.Ok?
            && exists i :: 0 <= i < |deploys| && ClosedGate(ctx.value, deploys, i) && ctx.value.gate(deploys[i]) == Shut
    ensures ContextFault(ctx, deploys).Some? ==>
              ContextFault(ctx, deploys).value.ContextFails? || ContextFault(ctx, deploys).value == PrematureDeployRetry
  {
    if ctx.Some? && ctx.value.rejected.Ok? {
      assert FirstBarred(ctx, deploys).None? <==> forall sig :: sig in deploys ==> !Barred(ctx, sig);
    }
  }

  /** The block in scope carries a signature of the new block that was not rejected. */
  ghost predicate Repeated(bodies: Bodies, h: Hash, deploys: seq<Sig>, ctx: Option<FloorContext>)
    requires ContextClear(ctx, deploys)
  {
    exists sig :: sig in CarriedBy(bodies, h) && sig in deploys && (ctx.Some? ==> sig !in ctx.value.rejected.value)
  }

  lemma CarriesIffRepeated(bodies: Bodies, h: Hash, deploys: seq<Sig>, ctx: Option<FloorContext>)
    requires ContextClear(ctx, deploys)
    ensures Carries(bodies, h, JudgedKeys(ctx, deploys)) <==> Repeated(bodies, h, deploys, ctx)
  {
    var keys := JudgedKeys(ctx, deploys);
    if Carries(bodies, h, keys) {
      var sig :| sig in CarriedBy(bodies, h) * keys;
      assert sig in deploys && !Recovering(ctx, sig);
    }
    if Repeated(bodies, h, deploys, ctx) {
      var sig :| sig in CarriedBy(bodies, h) && sig in deploys && (ctx.Some? ==> sig !in ctx.value.rejected.value);
      assert sig in CarriedBy(bodies, h) * keys;
    }
  }

  /** A new block is a repeat exactly when its parents are held, the context is clear, and
      a block in scope carries one of its signatures that was not rejected; a block
      without deploys is valid, whatever else. */
  lemma {:induction false} RepeatMeans(
      dag: Blocks, bodies: Bodies, parents: seq<Hash>, deploys: seq<Sig>, threshold: int, ctx: Option<FloorContext>)
    ensures TrueVerdict(dag, bodies, parents, deploys, threshold, ctx) == InvalidRepeatDeploy <==>
            && FirstUnheld(dag, parents).None? && ContextClear(ctx, deploys)
            && exists h :: InScope(dag, Members(parents), Earliest(dag, parents, threshold), h)
                           && Repeated(bodies, h, deploys, ctx)
    ensures TrueVerdict(dag, bodies, parents, deploys, threshold, ctx) == DeployValid <==>
            || deploys == []
            || (&& FirstUnheld(dag, parents).None? && ContextClear(ctx, deploys)
                && !exists h :: InScope(dag, Members(parents), Earliest(dag, parents, threshold), h)
                                && Repeated(bodies, h, deploys, ctx))
    ensures forall h: Hash :: TrueVerdict(dag, bodies, parents, deploys, threshold, ctx) == ParentNotHeld(h) <==>
                        deploys != [] && FirstUnheld(dag, parents) == Some(h)
  {
    ContextFaultIff(ctx, deploys);
    if FirstUnheld(dag, parents).None? && ContextClear(ctx, deploys) {
      forall h ensures Carries(bodies, h, JudgedKeys(ctx, deploys)) <==> Repeated(bodies, h, deploys, ctx) {
        CarriesIffRepeated(bodies, h, deploys, ctx);
      }
      if JudgedKeys(ctx, deploys) == {} {
        assert forall h :: !Carries(bodies, h, {});
      }
    }
  }

  function Judged(found: Result<Option<Hash>, ScanError>): DeployVerdict {
    match found
    case Err(e) => ScanFailed(e)
    case Ok(Some(_)) => InvalidRepeatDeploy
    case Ok(None) => DeployValid
  }

  /** The verdict of the full ancestor scan over every signature to judge, reading the
      disk alone: without index and cache. */
  ghost function FullVerdict(
      dag: Blocks, disk: Disk, parents: seq<Hash>, deploys: seq<Sig>, threshold: int, ctx: Option<FloorContext>)
    : DeployVerdict
  {
    if Early(dag, parents, deploys, ctx).Some? then Early(dag, parents, deploys, ctx).value
    else Judged(ScanOf(dag, disk, parents, Earliest(dag, parents, threshold), JudgedKeys(ctx, deploys)))
  }

  /** The exemption loop: the rejected signatures whose gate is open, unless reading
      them fails or a gate stays shut. */
  method FindExempt(ctx: Option<FloorContext>, deploys: seq<Sig>) returns (r: Result<set<Sig>, DeployVerdict>)
    ensures r.Err? <==> ContextFault(ctx, deploys).Some?
    ensures r.Err? ==> r.error == ContextFault(ctx, deploys).value
    ensures r.Ok? ==> forall sig :: sig in deploys ==> (sig in r.value <==> Recovering(ctx, sig))
  {
    var exempt: set<Sig> := {};
    if ctx.None? {
      return Ok(exempt);
    }
    if ctx.value.rejected.Err? {
      return Err(ContextFails(ctx.value.rejected.error));
    }
    assert deploys[0..] == deploys;
    for i := 0 to |deploys|
      invariant FirstBarred(ctx, deploys) == FirstBarred(ctx, deploys[i..])
      invariant forall sig :: sig in exempt ==> Recovering(ctx, sig)
      invariant forall k :: 0 <= k < i && Recovering(ctx, deploys[k]) ==> deploys[k] in exempt
    {
      var sig := deploys[i];
      assert deploys[i..][0] == sig && deploys[i..][1..] == deploys[i + 1..];
      if sig in ctx.value.rejected.value {
        match ctx.value.gate(sig)
        case Open => exempt := exempt + {sig};
        case Shut => return Err(PrematureDeployRetry);
        case GateFails(code) => return Err(ContextFails(code));
      }
    }
    return Ok(exempt);
  }

  lemma ScannedIsJudged(
      dag: Blocks, disk: Disk, bodies: Bodies, index: CarrierIndex, parents: seq<Hash>, earliest: int,
      keys: set<Sig>, scan: set<Sig>)
    requires (forall h :: h in parents ==> h in dag) && OneBody(disk, bodies)
    requires Pruned(index, earliest, keys, scan) && scan != {}
    ensures IndexServes(dag, bodies, index, Members(parents), earliest) ==>
              && (Repeats(dag, bodies, Members(parents), earliest, scan)
                  <==> Repeats(dag, bodies, Members(parents), earliest, keys))
              && ScanOf(dag, disk, parents, earliest, scan) == ScanOf(dag, disk, parents, earliest, keys)
  {
    var starts := Members(parents);
    if IndexServes(dag, bodies, index, starts, earliest) {
      ShortcutKeepsVerdict(dag, bodies, index, starts, earliest, keys, scan);
      assert Members(Enlisted(parents)) == starts;
      ScanStarts(dag, bodies, parents, earliest, keys, Enlisted(parents));
      ShortcutKeepsScan(dag, disk, bodies, index, starts, earliest, keys, scan, starts, Enlisted(parents));
    }
  }

  lemma {:induction false} FoundIsCarried(
      dag: Blocks, disk: Disk, bodies: Bodies, starts: set<Hash>, earliest: int, keys: set<Sig>,
      met: set<Hash>, queue: seq<Hash>)
    requires OneBody(disk, bodies) && Distinct(queue) && keys != {} && (forall h :: h in queue ==> h in met)
    requires Scanned(dag, bodies, starts, earliest, keys, met, Members(queue))
    requires ScanFrom(dag, disk, earliest, keys, met, queue).Ok?
    requires ScanFrom(dag, disk, earliest, keys, met, queue).value.Some?
    ensures Repeats(dag, bodies, starts, earliest, keys)
    decreases dag.Keys - met, |queue|
  {
    assert queue[0] in met && InScope(dag, starts, earliest, queue[0]);
    HasAnyIsCarried(bodies, queue[0], keys);
    if ReadBlock(disk, queue[0], keys) == Ok(false) {
      ScanOn(dag, bodies, starts, earliest, keys, met, queue);
      var next := QueueParents(dag, earliest, dag[queue[0]].parents, met, queue[1..]).value;
      FoundIsCarried(dag, disk, bodies, starts, earliest, keys, next.0, next.1);
    }
  }

  /** When the index clears every signature the full scan finds nothing either. */
  lemma ClearedIsValid(
      dag: Blocks, disk: Disk, bodies: Bodies, index: CarrierIndex, parents: seq<Hash>, earliest: int, keys: set<Sig>)
    requires (forall h :: h in parents ==> h in dag) && OneBody(disk, bodies)
    requires Pruned(index, earliest, keys, {}) && keys != {}
    ensures IndexServes(dag, bodies, index, Members(parents), earliest) ==>
              && !Repeats(dag, bodies, Members(parents), earliest, keys)
              && Judged(ScanOf(dag, disk, parents, earliest, keys)) != InvalidRepeatDeploy
  {
    var starts := Members(parents);
    if IndexServes(dag, bodies, index, starts, earliest) {
      ShortcutKeepsVerdict(dag, bodies, index, starts, earliest, keys, {});
      assert !Repeats(dag, bodies, starts, earliest, {});
      assert Members(Enlisted(parents)) == starts;
      ScanStarts(dag, bodies, parents, earliest, keys, Enlisted(parents));
      var found := ScanOf(dag, disk, parents, earliest, keys);
      if found.Ok? && found.value.Some? {
        FoundIsCarried(dag, disk, bodies, starts, earliest, keys, starts, Enlisted(parents));
      }
    }
  }

  /** `Validate::repeat_deploy`. Where the index serves, a verdict that is no scan error
      is the right one. With the scope on disk it is that of the full scan with an
      empty cache and no index, whatever the cache held, decode errors included; the one
      difference is that a block whose signatures the index clears altogether passes
      where the scan would have met an unreadable body. */
  method CheckRepeatDeploy(
      cache: SigCache, dag: Blocks, disk: Disk, index: CarrierIndex,
      parents: seq<Hash>, deploys: seq<Sig>, threshold: int, ctx: Option<FloorContext>, ghost bodies: Bodies)
    returns (r: DeployVerdict)
    requires CacheReady(cache, disk, bodies)
    modifies cache
    ensures CacheReady(cache, disk, bodies)
    ensures Early(dag, parents, deploys, ctx).Some? ==> r == Early(dag, parents, deploys, ctx).value
    ensures Early(dag, parents, deploys, ctx).None? ==>
              var starts, earliest := Members(parents), Earliest(dag, parents, threshold);
              && (r.ScanFailed? ==> !ScopeHeld(dag, disk, starts, earliest))
              && (IndexServes(dag, bodies, index, starts, earliest) && !r.ScanFailed? ==>
                    r == TrueVerdict(dag, bodies, parents, deploys, threshold, ctx))
              && (IndexServes(dag, bodies, index, starts, earliest) && ScopeOnDisk(dag, disk, starts, earliest) ==>
                    var full := FullVerdict(dag, disk, parents, deploys, threshold, ctx);
                    r == full || (r == DeployValid && full.ScanFailed?))
  {
    if deploys == [] {
      return DeployValid;
    }
    var unheld := FirstUnheld(dag, parents);
    if unheld.Some? {
      return ParentNotHeld(unheld.value);
    }
    var earliest := Earliest(dag, parents, threshold);
    var exempt := FindExempt(ctx, deploys);
    if exempt.Err? {
      return exempt.error;
    }
    var keys := set sig | sig in deploys && sig !in exempt.value;
    assert keys == JudgedKeys(ctx, deploys);
    if keys == {} {
      return DeployValid;
    }
    var scan := KeysToScan(keys, index, earliest);
    if scan == {} {
      ClearedIsValid(dag, disk, bodies, index, parents, earliest, keys);
      return DeployValid;
    }
    var found := Scan(cache, dag, disk, parents, earliest, scan, bodies);
    ScannedIsJudged(dag, disk, bodies, index, parents, earliest, keys, scan);
    match found
    case Err(e) => return ScanFailed(e);
    case Ok(Some(_)) => return InvalidRepeatDeploy;
    case Ok(None) => return DeployValid;
  }

  /** Parents that spread less than the expiration window are always covered. */
  lemma {:induction false} NarrowParentsAreCovered(dag: Blocks, parents: seq<Hash>, threshold: int, w: int)
    requires NumbersNatural(dag) && FirstUnheld(dag, parents).None?
    requires w <= Max(Earliest(dag, parents, threshold), 0)
    requires forall i, k :: 0 <= i < |parents| && 0 <= k < |parents| ==>
               dag[parents[k]].number - dag[parents[i]].number < threshold
    ensures StartsCovered(dag, Members(parents), w)
  {
    forall h | h in Members(parents) ensures dag[h].number >= w {
      var i :| 0 <= i < |parents| && parents[i] == h;
      assert dag[parents[i]].number <= MaxNumber(dag, parents);
    }
  }
}
