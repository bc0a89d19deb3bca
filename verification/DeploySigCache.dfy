/** The bounded first-in first-out cache of deploy signatures in front of the
    block store's decoder. */
module DeploySigCache {
  import opened Prelude
  import opened Dag

  const MAX_ENTRIES: nat := 1024
  const MIN_SIG_BYTES: nat := 32

  type Sig = seq<bv8>

  /** What the decoder finds under a hash: a body, whose deploys may lack their
      inner field, or bytes it cannot decode. */
  datatype Stored = Undecodable | Body(deploys: seq<Option<Sig>>)

  type Disk = map<Hash, Stored>

  datatype ReadError = DecodeError | MissingDeploy | ShortSignature(length: nat)

  // ---- A fresh decode ----

  /** The signatures of a body, or the first fault in it. */
  function Sigs(deploys: seq<Option<Sig>>): (r: Result<seq<Sig>, ReadError>)
    ensures r.Ok? <==> forall i :: 0 <= i < |deploys| ==> deploys[i].Some? && |deploys[i].value| >= MIN_SIG_BYTES
    ensures r.Ok? ==> |r.value| == |deploys| && forall i :: 0 <= i < |deploys| ==> deploys[i] == Some(r.value[i])
  {
    if deploys == [] then Ok([])
    else if deploys[0].None? then Err(MissingDeploy)
    else if |deploys[0].value| < MIN_SIG_BYTES then Err(ShortSignature(|deploys[0].value|))
    else
      match Sigs(deploys[1..])
      case Err(e) => Err(e)
      case Ok(rest) => Ok([deploys[0].value] + rest)
  }

  function Decode(s: Stored): Result<seq<Sig>, ReadError> {
    match s
    case Undecodable => Err(DecodeError)
    case Body(deploys) => Sigs(deploys)
  }

  predicate HasAny(sigs: seq<Sig>, query: set<Sig>) {
    exists i :: 0 <= i < |sigs| && sigs[i] in query
  }

  // ---- The cache as a value ----

  datatype Cache = Cache(entries: map<Hash, seq<Sig>>, order: seq<Hash>)

  /** The queue lists exactly the cached keys, once each, and never too many. */
  ghost predicate Fifo(c: Cache) {
    && |c.order| <= MAX_ENTRIES
    && (forall h :: h in c.order <==> h in c.entries)
    && forall i, j :: 0 <= i < j < |c.order| ==> c.order[i] != c.order[j]
  }

  function Remember(c: Cache, h: Hash, sigs: seq<Sig>): Cache {
    if h in c.entries then c.(entries := c.entries[h := sigs])
    else if |c.order| < MAX_ENTRIES then Cache(c.entries[h := sigs], c.order + [h])
    else Cache((c.entries - {c.order[0]})[h := sigs], c.order[1..] + [h])
  }

  lemma RememberKeepsFifo(c: Cache, h: Hash, sigs: seq<Sig>)
    requires Fifo(c)
    ensures Fifo(Remember(c, h, sigs)) && h in Remember(c, h, sigs).entries
  {
    if h !in c.entries && |c.order| >= MAX_ENTRIES {
      var oldest := c.order[0];
      forall x ensures x in c.order[1..] <==> x in c.order && x != oldest {
        if x in c.order && x != oldest {
          var i :| 0 <= i < |c.order| && c.order[i] == x;
          assert c.order[1..][i - 1] == x;
        }
      }
    }
  }

  function RememberAll(c: Cache, items: seq<(Hash, seq<Sig>)>): Cache
    decreases |items|
  {
    if items == [] then c else RememberAll(Remember(c, items[0].0, items[0].1), items[1..])
  }

  /** A key at position `i` of the queue outlives as many inserts as there are
      keys before it and free places. */
  lemma {:induction false} SurvivesNewerKeys(c: Cache, items: seq<(Hash, seq<Sig>)>, i: nat)
    requires Fifo(c) && i < |c.order| && |items| <= i + MAX_ENTRIES - |c.order|
    ensures c.order[i] in RememberAll(c, items).entries
    decreases |items|
  {
    if items != [] {
      var next := Remember(c, items[0].0, items[0].1);
      RememberKeepsFifo(c, items[0].0, items[0].1);
      if items[0].0 !in c.entries && |c.order| >= MAX_ENTRIES {
        assert next.order[i - 1] == c.order[i];
        SurvivesNewerKeys(next, items[1..], i - 1);
      } else {
        assert next.order[i] == c.order[i];
        SurvivesNewerKeys(next, items[1..], i);
      }
    } else {
      assert c.order[i] in c.order;
    }
  }

  /** A newly cached key outlives the next 1023 inserts, whatever they insert. */
  lemma {:induction false} FreshKeyLasts(c: Cache, h: Hash, sigs: seq<Sig>, items: seq<(Hash, seq<Sig>)>)
    requires Fifo(c) && h !in c.entries && |items| < MAX_ENTRIES
    ensures h in RememberAll(Remember(c, h, sigs), items).entries
  {
    RememberKeepsFifo(c, h, sigs);
    var next := Remember(c, h, sigs);
    SurvivesNewerKeys(next, items, |next.order| - 1);
  }

  function Newest(order: seq<Hash>): seq<Hash> {
    if |order| <= MAX_ENTRIES then order else order[|order| - MAX_ENTRIES..]
  }

  lemma NewestOfNewest(order: seq<Hash>, rest: seq<Hash>)
    ensures Newest(Newest(order) + rest) == Newest(order + rest)
  {
    if |order| > MAX_ENTRIES {
      var all, k := order + rest, |order| - MAX_ENTRIES;
      assert order[k..] + rest == all[k..];
      assert all[k..][|all| - k - MAX_ENTRIES..] == all[|all| - MAX_ENTRIES..];
    }
  }

  lemma NewestInTurn(order: seq<Hash>, h: Hash, rest: seq<Hash>)
    ensures Newest(Newest(order + [h]) + rest) == Newest(order + ([h] + rest))
  {
    NewestOfNewest(order + [h], rest);
    assert order + [h] + rest == order + ([h] + rest);
  }

  lemma RememberedQueue(c: Cache, h: Hash, sigs: seq<Sig>)
    requires Fifo(c) && h !in c.entries
    ensures Remember(c, h, sigs).order == Newest(c.order + [h])
  {
  }

  function KeysOf(items: seq<(Hash, seq<Sig>)>): seq<Hash> {
    if items == [] then [] else [items[0].0] + KeysOf(items[1..])
  }

  /** None of the keys is cached, and none comes twice. */
  ghost predicate AllNew(c: Cache, keys: seq<Hash>) {
    (forall k :: k in keys ==> k !in c.entries) && forall i, j :: 0 <= i < j < |keys| ==> keys[i] != keys[j]
  }

  lemma RestIsNew(c: Cache, h: Hash, sigs: seq<Sig>, rest: seq<Hash>)
    requires AllNew(c, [h] + rest)
    ensures h !in c.entries && AllNew(Remember(c, h, sigs), rest)
  {
    var keys := [h] + rest;
    assert keys[0] in keys && forall i :: 0 <= i < |rest| ==> rest[i] == keys[i + 1];
  }

  /** Of new keys the cache holds exactly the last to come, 1024 of them, in the order
      they came. */
  lemma {:induction false} NewestKeysStay(c: Cache, items: seq<(Hash, seq<Sig>)>)
    requires Fifo(c) && AllNew(c, KeysOf(items))
    ensures RememberAll(c, items).order == Newest(c.order + KeysOf(items))
    decreases |items|
  {
    if items == [] {
      assert c.order + [] == c.order;
    } else {
      var h, sigs, rest := items[0].0, items[0].1, KeysOf(items[1..]);
      var next := Remember(c, h, sigs);
      assert Fifo(next) && next.order == Newest(c.order + [h]) && AllNew(next, rest) by {
        RestIsNew(c, h, sigs, rest);
        RememberKeepsFifo(c, h, sigs);
        RememberedQueue(c, h, sigs);
      }
      NewestKeysStay(next, items[1..]);
      NewestInTurn(c.order, h, rest);
    }
  }

  /** Cached signatures are what a fresh decode of the block would give. */
  ghost predicate Agrees(c: Cache, bodies: Hash -> Stored) {
    forall h :: h in c.entries ==> Decode(bodies(h)) == Ok(c.entries[h])
  }

  /** A hash always denotes one body. */
  ghost predicate OneBody(disk: Disk, bodies: Hash -> Stored) {
    forall h :: h in disk ==> disk[h] == bodies(h)
  }

  // ---- The two scans over a decoded body ----

  lemma RememberAgrees(c: Cache, h: Hash, sigs: seq<Sig>, bodies: Hash -> Stored)
    requires Agrees(c, bodies) && Decode(bodies(h)) == Ok(sigs)
    ensures Agrees(Remember(c, h, sigs), bodies)
  {
  }

  function Prepend(sigs: seq<Sig>, rest: Result<seq<Sig>, ReadError>): Result<seq<Sig>, ReadError> {
    match rest
    case Err(e) => Err(e)
    case Ok(more) => Ok(sigs + more)
  }

  lemma {:induction false} PrependEnds(deploys: seq<Option<Sig>>, sigs: seq<Sig>)
    ensures Prepend([], Sigs(deploys[0..])) == Sigs(deploys)
    ensures Prepend(sigs, Sigs(deploys[|deploys|..])) == Ok(sigs)
  {
    assert deploys[0..] == deploys && deploys[|deploys|..] == [];
    assert sigs + [] == sigs;
    if Sigs(deploys).Ok? {
      assert [] + Sigs(deploys).value == Sigs(deploys).value;
    }
  }

  lemma SigsUnfold(deploys: seq<Option<Sig>>, i: nat, sigs: seq<Sig>)
    requires i < |deploys|
    ensures deploys[i].None? ==> Sigs(deploys[i..]) == Err(MissingDeploy)
    ensures deploys[i].Some? && |deploys[i].value| < MIN_SIG_BYTES ==>
              Sigs(deploys[i..]) == Err(ShortSignature(|deploys[i].value|))
    ensures deploys[i].Some? && |deploys[i].value| >= MIN_SIG_BYTES ==>
              Prepend(sigs, Sigs(deploys[i..])) == Prepend(sigs + [deploys[i].value], Sigs(deploys[i + 1..]))
  {
    var tail := deploys[i..];
    assert tail[0] == deploys[i] && tail[1..] == deploys[i + 1..];
    if deploys[i].Some? && |deploys[i].value| >= MIN_SIG_BYTES && Sigs(deploys[i + 1..]).Ok? {
      var more := Sigs(deploys[i + 1..]).value;
      assert sigs + ([deploys[i].value] + more) == sigs + [deploys[i].value] + more;
    }
  }

  lemma HasAnySnoc(sigs: seq<Sig>, sig: Sig, query: set<Sig>)
    ensures HasAny(sigs + [sig], query) <==> HasAny(sigs, query) || sig in query
  {
    if HasAny(sigs, query) {
      var i :| 0 <= i < |sigs| && sigs[i] in query;
      assert (sigs + [sig])[i] in query;
    }
    if sig in query {
      assert (sigs + [sig])[|sigs|] in query;
    }
  }

  /** The scan in `deploy_sigs`. */
  method ReadSigs(deploys: seq<Option<Sig>>) returns (r: Result<seq<Sig>, ReadError>)
    ensures r == Sigs(deploys)
  {
    var sigs: seq<Sig> := [];
    PrependEnds(deploys, []);
    for i := 0 to |deploys|
      invariant |sigs| == i
      invariant Sigs(deploys) == Prepend(sigs, Sigs(deploys[i..]))
    {
      SigsUnfold(deploys, i, sigs);
      if deploys[i].None? {
        return Err(MissingDeploy);
      }
      if |deploys[i].value| < MIN_SIG_BYTES {
        return Err(ShortSignature(|deploys[i].value|));
      }
      sigs := sigs + [deploys[i].value];
    }
    PrependEnds(deploys, sigs);
    return Ok(sigs);
  }

  /** The scan in `has_any_deploy_sig_opt`: it never stops at a match, so a later
      fault in the body still shows. */
  method ReadSigsAny(deploys: seq<Option<Sig>>, query: set<Sig>) returns (r: Result<(seq<Sig>, bool), ReadError>)
    ensures match Sigs(deploys)
            case Err(e) => r == Err(e)
            case Ok(sigs) => r == Ok((sigs, HasAny(sigs, query)))
  {
    var sigs: seq<Sig>, hasAny := [], false;
    PrependEnds(deploys, []);
    for i := 0 to |deploys|
      invariant |sigs| == i
      invariant hasAny == HasAny(sigs, query)
      invariant Sigs(deploys) == Prepend(sigs, Sigs(deploys[i..]))
    {
      SigsUnfold(deploys, i, sigs);
      if deploys[i].None? {
        return Err(MissingDeploy);
      }
      var sig := deploys[i].value;
      if |sig| < MIN_SIG_BYTES {
        return Err(ShortSignature(|sig|));
      }
      HasAnySnoc(sigs, sig, query);
      if sig in query {
        hasAny := true;
      }
      sigs := sigs + [sig];
    }
    PrependEnds(deploys, sigs);
    return Ok((sigs, hasAny));
  }

  // ---- The cache in place ----

  class SigCache {
    var entries: map<Hash, seq<Sig>>
    var order: seq<Hash>

    ghost function Value(): Cache
      reads this
    {
      Cache(entries, order)
    }

    constructor ()
      ensures Value() == Cache(map[], []) && Fifo(Value())
    {
      entries, order := map[], [];
    }

    /** `cache_deploy_sigs`. */
    method CacheDeploySigs(h: Hash, sigs: seq<Sig>)
      requires Fifo(Value())
      modifies this
      ensures Value() == Remember(old(Value()), h, sigs) && Fifo(Value())
    {
      RememberKeepsFifo(Value(), h, sigs);
      if h !in entries {
        order := order + [h];
        while |order| > MAX_ENTRIES
          invariant || (order == old(order) + [h] && entries == old(entries))
                    || (|old(order)| == MAX_ENTRIES && order == old(order)[1..] + [h]
                        && entries == old(entries) - {old(order)[0]})
        {
          var oldest := order[0];
          order := order[1..];
          entries := entries - {oldest};
        }
      }
      entries := entries[h := sigs];
    }

    /** `has_any_deploy_sig_opt`. */
    method HasAnyDeploySigOpt(disk: Disk, h: Hash, query: set<Sig>, ghost bodies: Hash -> Stored)
      returns (r: Result<Option<bool>, ReadError>)
      requires Fifo(Value()) && Agrees(Value(), bodies) && OneBody(disk, bodies)
      modifies this
      ensures Fifo(Value()) && Agrees(Value(), bodies)
      ensures query == {} ==> r == Ok(Some(false)) && Value() == old(Value())
      ensures query != {} && h in disk ==>
                r == match Decode(disk[h])
                     case Err(e) => Err(e)
                     case Ok(sigs) => Ok(Some(HasAny(sigs, query)))
      ensures query != {} && h !in disk ==>
                r == if h in old(entries) then Ok(Some(HasAny(old(entries)[h], query))) else Ok(None)
    {
      if query == {} {
        return Ok(Some(false));
      }
      if h in entries {
        return Ok(Some(HasAny(entries[h], query)));
      }
      if h !in disk {
        return Ok(None);
      }
      if disk[h].Undecodable? {
        return Err(DecodeError);
      }
      var deploys := disk[h].deploys;
      var read := ReadSigsAny(deploys, query);
      if read.Err? {
        return Err(read.error);
      }
      var (sigs, hasAny) := read.value;
      RememberAgrees(Value(), h, sigs, bodies);
      CacheDeploySigs(h, sigs);
      return Ok(Some(hasAny));
    }

    /** `deploy_sigs`. */
    method DeploySigs(disk: Disk, h: Hash, ghost bodies: Hash -> Stored)
      returns (r: Result<Option<seq<Sig>>, ReadError>)
      requires Fifo(Value()) && Agrees(Value(), bodies) && OneBody(disk, bodies)
      modifies this
      ensures Fifo(Value()) && Agrees(Value(), bodies)
      ensures h in disk ==>
                r == match Decode(disk[h])
                     case Err(e) => Err(e)
                     case Ok(sigs) => Ok(Some(sigs))
      ensures h !in disk ==> r == if h in old(entries) then Ok(Some(old(entries)[h])) else Ok(None)
    {
      if h in entries {
        return Ok(Some(entries[h]));
      }
      if h !in disk {
        return Ok(None);
      }
      if disk[h].Undecodable? {
        return Err(DecodeError);
      }
      var deploys := disk[h].deploys;
      var read := ReadSigs(deploys);
      if read.Err? {
        return Err(read.error);
      }
      var sigs := read.value;
      RememberAgrees(Value(), h, sigs, bodies);
      CacheDeploySigs(h, sigs);
      return Ok(Some(sigs));
    }
  }
}
