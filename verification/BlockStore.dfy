/** The block store's overlay of a pending area on a disk store, with any number
    of calls interleaved at their disk and pending accesses. */
module BlockStore {
  import opened Dag
  import opened PendingArea
  import PendingRuns

  type CallId = nat

  /** What a running call does next. Every action is atomic: one access to the
      disk store, or one to the pending area under its lock. */
  datatype Pc =
    | PutWrite(key: Hash, block: Block)
    | RemovePending(hash: Hash)
    | PendingCheck(block: Block, tier: Tier)
    | PendingInsert(block: Block, tier: Tier)
    | PendingRecheck(hash: Hash)
    | PersistCheck(block: Block)
    | DiscardRead(block: Block)
    | DiscardCompare(block: Block)
    | DiscardPending(hash: Hash)
    | DiscardDelete(block: Block)
    | Resize(limits: Limits)

  /** The calls a client may make, by their first action. */
  predicate IsEntry(pc: Pc) {
    pc.PutWrite? || pc.PendingCheck? || pc.PersistCheck? || pc.DiscardRead? || pc.DiscardPending? || pc.Resize?
  }

  datatype Store = Store(disk: map<Hash, Block>, pending: Area, calls: map<CallId, Pc>)

  datatype Event = Begin(id: CallId, pc: Pc) | Advance(id: CallId)

  function Goto(s: Store, id: CallId, pc: Pc): Store {
    s.(calls := s.calls[id := pc])
  }

  function Return(s: Store, id: CallId): Store {
    s.(calls := s.calls - {id})
  }

  /** One atomic action of call `id`. */
  ghost function Act(s: Store, id: CallId): Store
    requires id in s.calls
  {
    match s.calls[id]
    // put
    case PutWrite(key, block) => Goto(s.(disk := s.disk[key := block]), id, RemovePending(key))
    case RemovePending(h) => Return(s.(pending := Discard(s.pending, h)), id)
    // put_pending_as
    case PendingCheck(block, tier) =>
      if block.hash in s.disk then Return(s, id) else Goto(s, id, PendingInsert(block, tier))
    case PendingInsert(block, tier) =>
      Goto(s.(pending := InsertAs(s.pending, block, tier).0), id, PendingRecheck(block.hash))
    case PendingRecheck(h) =>
      if h in s.disk then Goto(s, id, RemovePending(h)) else Return(s, id)
    // persist_block
    case PersistCheck(block) =>
      if block.hash in s.disk then Goto(s, id, RemovePending(block.hash))
      else Goto(s, id, PutWrite(block.hash, block))
    // discard_copy
    case DiscardRead(block) =>
      if block.hash !in s.disk then Goto(s, id, DiscardCompare(block))
      else if s.disk[block.hash] == block then Goto(s, id, DiscardDelete(block))
      else Return(s, id)
    case DiscardCompare(block) =>
      if block.hash in s.pending.entries && s.pending.entries[block.hash].block == block
      then Goto(s, id, DiscardPending(block.hash)) else Return(s, id)
    case DiscardPending(h) => Return(s.(pending := Discard(s.pending, h)), id)
    case DiscardDelete(block) =>
      if block.hash in s.disk && s.disk[block.hash] == block
      then Return(s.(disk := s.disk - {block.hash}), id) else Return(s, id)
    // set_pending_limits
    case Resize(limits) => Return(s.(pending := SetLimits(s.pending, limits).0), id)
  }

  ghost function Apply(s: Store, e: Event): Store {
    match e
    case Begin(id, pc) => if id !in s.calls && IsEntry(pc) then Goto(s, id, pc) else s
    case Advance(id) => if id in s.calls then Act(s, id) else s
  }

  ghost function Exec(s: Store, events: seq<Event>): Store
    decreases |events|
  {
    if events == [] then s else Exec(Apply(s, events[0]), events[1..])
  }

  // ---- Disk and pending stay disjoint ----

  predicate InBoth(s: Store, h: Hash) {
    h in s.disk && h in s.pending.entries
  }

  /** The call has still to remove `h` from the pending area, or to find that the
      disk does not hold it. */
  predicate Obliged(pc: Pc, h: Hash) {
    pc == RemovePending(h) || pc == PendingRecheck(h)
  }

  ghost predicate SomeoneObliged(s: Store, h: Hash) {
    exists id :: id in s.calls && Obliged(s.calls[id], h)
  }

  ghost predicate Covered(s: Store, h: Hash) {
    InBoth(s, h) ==> SomeoneObliged(s, h)
  }

  /** Whatever is in both places is some running call's to remove. */
  ghost predicate AllCovered(s: Store) {
    forall h {:trigger Covered(s, h)} :: Covered(s, h)
  }

  /** Obligations of the other calls survive one call's action. */
  lemma OthersKeep(s: Store, id: CallId, s': Store, h: Hash)
    requires id in s.calls && SomeoneObliged(s, h) && !Obliged(s.calls[id], h)
    requires forall j :: j in s.calls && j != id ==> j in s'.calls && s'.calls[j] == s.calls[j]
    ensures SomeoneObliged(s', h)
  {
    var j :| j in s.calls && Obliged(s.calls[j], h);
    assert j in s'.calls && Obliged(s'.calls[j], h);
  }

  lemma ActKeepsCovered(s: Store, id: CallId, h: Hash)
    requires id in s.calls && Covered(s, h)
    ensures Covered(Act(s, id), h)
  {
    var s' := Act(s, id);
    if InBoth(s', h) {
      if id in s'.calls && Obliged(s'.calls[id], h) {
        assert SomeoneObliged(s', h);
      } else {
        if s.calls[id].PendingInsert? {
          PendingRuns.InsertIsAllOrNothing(s.pending, s.calls[id].block, s.calls[id].tier, h);
        }
        assert InBoth(s, h);
        OthersKeep(s, id, s', h);
      }
    }
  }

  lemma ApplyKeepsCovered(s: Store, e: Event)
    requires AllCovered(s)
    ensures AllCovered(Apply(s, e))
  {
    forall h ensures Covered(Apply(s, e), h) {
      assert Covered(s, h);
      match e
      case Begin(id, pc) =>
        if InBoth(s, h) {
          var j :| j in s.calls && Obliged(s.calls[j], h);
          assert j in Apply(s, e).calls && Obliged(Apply(s, e).calls[j], h);
        }
      case Advance(id) =>
        if id in s.calls {
          ActKeepsCovered(s, id, h);
        }
    }
  }

  /** At every point of every interleaving, a hash that is both on disk and
      pending is some running call's to remove. */
  lemma {:induction false} DuplicatesAreCovered(s: Store, events: seq<Event>)
    requires AllCovered(s)
    ensures AllCovered(Exec(s, events))
    decreases |events|
  {
    if events != [] {
      ApplyKeepsCovered(s, events[0]);
      DuplicatesAreCovered(Apply(s, events[0]), events[1..]);
    }
  }

  /** Once all calls have returned no hash is in both places. */
  lemma {:induction false} QuiescentStoreIsDisjoint(s: Store, events: seq<Event>, h: Hash)
    requires s.calls == map[] && (forall g :: !InBoth(s, g))
    requires Exec(s, events).calls == map[]
    ensures !InBoth(Exec(s, events), h)
  {
    forall g ensures Covered(s, g) {
    }
    DuplicatesAreCovered(s, events);
    assert Covered(Exec(s, events), h);
  }

  lemma InsertActKeepsSound(s: Store, id: CallId)
    requires id in s.calls && s.calls[id].PendingInsert? && PendingRuns.Sound(s.pending)
    ensures PendingRuns.Sound(Act(s, id).pending)
  {
    PendingRuns.InsertKeepsInvariant(s.pending, s.calls[id].block, s.calls[id].tier);
  }

  lemma ResizeActKeepsSound(s: Store, id: CallId)
    requires id in s.calls && s.calls[id].Resize? && PendingRuns.Sound(s.pending)
    ensures PendingRuns.Sound(Act(s, id).pending)
  {
    PendingRuns.SetLimitsKeepsInvariant(s.pending, s.calls[id].limits);
  }

  lemma RemoveActKeepsSound(s: Store, id: CallId)
    requires id in s.calls && (s.calls[id].RemovePending? || s.calls[id].DiscardPending?)
    requires PendingRuns.Sound(s.pending)
    ensures PendingRuns.Sound(Act(s, id).pending)
  {
    PendingRuns.DiscardKeepsInvariant(s.pending, s.calls[id].hash);
  }

  lemma DiskActLeavesArea(s: Store, id: CallId)
    requires id in s.calls
    requires var pc := s.calls[id]; !pc.PendingInsert? && !pc.Resize? && !pc.RemovePending? && !pc.DiscardPending?
    ensures Act(s, id).pending == s.pending
  {
  }

  lemma ActKeepsAreaSound(s: Store, id: CallId)
    requires id in s.calls && PendingRuns.Sound(s.pending)
    ensures PendingRuns.Sound(Act(s, id).pending)
  {
    var pc := s.calls[id];
    if pc.PendingInsert? {
      InsertActKeepsSound(s, id);
    } else if pc.Resize? {
      ResizeActKeepsSound(s, id);
    } else if pc.RemovePending? || pc.DiscardPending? {
      RemoveActKeepsSound(s, id);
    } else {
      DiskActLeavesArea(s, id);
    }
  }

  /** The pending area keeps to its limits through every interleaving. */
  lemma {:induction false} AreaStaysSound(s: Store, events: seq<Event>)
    requires PendingRuns.Sound(s.pending)
    ensures PendingRuns.Sound(Exec(s, events).pending)
    decreases |events|
  {
    if events != [] {
      if events[0].Advance? && events[0].id in s.calls {
        ActKeepsAreaSound(s, events[0].id);
      }
      AreaStaysSound(Apply(s, events[0]), events[1..]);
    }
  }

  // ---- Obligations are met ----

  /** An upper bound on the actions a call has left. */
  function ActionsLeft(pc: Pc): nat {
    match pc
    case PendingCheck(_, _) => 4
    case PendingInsert(_, _) | PersistCheck(_) | DiscardRead(_) => 3
    case PutWrite(_, _) | PendingRecheck(_) | DiscardCompare(_) => 2
    case _ => 1
  }

  /** Every action brings its call strictly closer to its return. */
  lemma CallsFinish(s: Store, id: CallId)
    requires id in s.calls
    ensures id in Act(s, id).calls ==> ActionsLeft(Act(s, id).calls[id]) < ActionsLeft(s.calls[id])
    ensures Act(s, id).calls - {id} == s.calls - {id}
  {
  }

  ghost function Finish(s: Store, id: CallId): Store
    decreases if id in s.calls then ActionsLeft(s.calls[id]) else 0
  {
    if id !in s.calls then s
    else
      CallsFinish(s, id);
      Finish(Act(s, id), id)
  }

  /** A call that is obliged to remove `h` does so by its own remaining actions. */
  lemma {:induction false} ObligationIsMet(s: Store, id: CallId, h: Hash)
    requires id in s.calls && Obliged(s.calls[id], h)
    ensures id !in Finish(s, id).calls && !InBoth(Finish(s, id), h)
  {
    var next := Act(s, id);
    assert Finish(s, id) == Finish(next, id);
    if id in next.calls {
      assert Finish(next, id) == Finish(Act(next, id), id);
    }
  }

  // ---- Nothing is lost ----

  /** The store's own traffic: no call that discards a copy. */
  predicate Stores(pc: Pc) {
    pc.PutWrite? || pc.RemovePending? || pc.PendingCheck? || pc.PendingInsert? || pc.PendingRecheck? || pc.PersistCheck?
  }

  ghost predicate RemovalsBacked(s: Store) {
    forall id :: id in s.calls ==>
                   && Stores(s.calls[id])
                   && (s.calls[id].RemovePending? ==> s.calls[id].hash in s.disk)
  }

  lemma StoringKeepsBacked(s: Store, e: Event)
    requires RemovalsBacked(s)
    requires e.Begin? ==> Stores(e.pc)
    ensures RemovalsBacked(Apply(s, e))
    ensures forall h :: h in s.disk ==> h in Apply(s, e).disk
  {
  }

  /** A block leaves the pending area only when it is on disk or when an insert
      reports it evicted. */
  ghost predicate SafeLeave(s: Store, e: Event, h: Hash) {
    h in s.pending.entries && h !in Apply(s, e).pending.entries ==>
      || h in s.disk
      || (e.Advance? && e.id in s.calls && s.calls[e.id].PendingInsert?
          && h in InsertAs(s.pending, s.calls[e.id].block, s.calls[e.id].tier).1.evicted)
  }

  lemma StoringNeverLoses(s: Store, e: Event, h: Hash)
    requires RemovalsBacked(s)
    requires e.Begin? ==> Stores(e.pc)
    ensures SafeLeave(s, e, h)
  {
    if e.Advance? && e.id in s.calls && s.calls[e.id].PendingInsert? {
      PendingRuns.InsertIsAllOrNothing(s.pending, s.calls[e.id].block, s.calls[e.id].tier, h);
    }
  }

  /** ... at every step of every run of puts, pending puts and persists, and
      nothing ever leaves the disk. */
  lemma {:induction false} RunNeverLoses(s: Store, events: seq<Event>, h: Hash, i: nat)
    requires RemovalsBacked(s) && i < |events|
    requires forall k :: 0 <= k < |events| && events[k].Begin? ==> Stores(events[k].pc)
    ensures SafeLeave(Exec(s, events[..i]), events[i], h)
    ensures h in s.disk ==> h in Exec(s, events[..i]).disk
    decreases |events|
  {
    if i == 0 {
      StoringNeverLoses(s, events[0], h);
    } else {
      StoringKeepsBacked(s, events[0]);
      var rest := events[1..];
      RunNeverLoses(Apply(s, events[0]), rest, h, i - 1);
      assert events[..i][1..] == rest[..i - 1];
    }
  }

  /** The call does not overwrite the copy of `h` on disk with another and is no discard
      of it. */
  predicate Spares(pc: Pc, h: Hash, copy: Block) {
    && (pc.PutWrite? && pc.key == h ==> pc.block == copy)
    && (pc.DiscardRead? || pc.DiscardDelete? ==> pc.block != copy)
  }

  /** Through every interleaving a copy on disk stays as it is, discards of other blocks
      under its hash included, unless a put writes another or a discard names it. */
  lemma {:induction false} CopyStays(s: Store, events: seq<Event>, h: Hash, copy: Block)
    requires h in s.disk && s.disk[h] == copy && forall id :: id in s.calls ==> Spares(s.calls[id], h, copy)
    requires forall e :: e in events && e.Begin? ==> Spares(e.pc, h, copy)
    ensures h in Exec(s, events).disk && Exec(s, events).disk[h] == copy
    decreases |events|
  {
    if events != [] {
      assert events[0] in events;
      CopyStays(Apply(s, events[0]), events[1..], h, copy);
    }
  }

  // ---- Calls do their work ----

  /** Every call of the store can be made, and begins at its first access. */
  lemma CallsBegin(s: Store, id: CallId, b: Block, tier: Tier, limits: Limits)
    requires id !in s.calls
    ensures forall pc :: pc in {PutWrite(b.hash, b), PendingCheck(b, tier), PersistCheck(b), DiscardRead(b),
                                DiscardPending(b.hash), Resize(limits)} ==>
              Apply(s, Begin(id, pc)) == s.(calls := s.calls[id := pc])
  {
  }

  lemma {:induction false} FinishUnfolds(s: Store, id: CallId)
    requires id in s.calls
    ensures Finish(s, id) == Finish(Act(s, id), id)
  {
  }

  lemma {:induction false} Finished(s: Store, id: CallId)
    requires id !in s.calls
    ensures Finish(s, id) == s
  {
  }

  /** The store after call `id` returned, with the disk and area it left. */
  function Left(s: Store, id: CallId, disk: map<Hash, Block>, pending: Area): Store {
    Store(disk, pending, s.calls - {id})
  }

  lemma {:induction false} RemovalAlone(s: Store, id: CallId, h: Hash)
    requires id in s.calls && s.calls[id] == RemovePending(h)
    ensures Finish(s, id) == Left(s, id, s.disk, s.pending.(entries := s.pending.entries - {h}))
  {
    FinishUnfolds(s, id);
    Finished(Act(s, id), id);
  }

  lemma Forgotten(calls: map<CallId, Pc>, id: CallId, pc: Pc)
    ensures calls[id := pc] - {id} == calls - {id}
  {
  }

  /** A `put` run alone writes its block and takes the hash out of the pending area. */
  lemma {:induction false} PutAlone(s: Store, id: CallId, key: Hash, b: Block)
    requires id in s.calls && s.calls[id] == PutWrite(key, b)
    ensures Finish(s, id)
         == Left(s, id, s.disk[key := b], s.pending.(entries := s.pending.entries - {key}))
  {
    FinishUnfolds(s, id);
    RemovalAlone(Act(s, id), id, key);
    Forgotten(s.calls, id, RemovePending(key));
  }

  /** A `persist_block` run alone leaves its block on disk, or the one that was there
      under its hash, and the hash not pending. */
  lemma {:induction false} PersistAlone(s: Store, id: CallId, b: Block)
    requires id in s.calls && s.calls[id] == PersistCheck(b)
    ensures Finish(s, id)
         == Left(s, id, if b.hash in s.disk then s.disk else s.disk[b.hash := b],
                 s.pending.(entries := s.pending.entries - {b.hash}))
  {
    FinishUnfolds(s, id);
    if b.hash in s.disk {
      RemovalAlone(Act(s, id), id, b.hash);
      Forgotten(s.calls, id, RemovePending(b.hash));
    } else {
      PutAlone(Act(s, id), id, b.hash, b);
      Forgotten(s.calls, id, PutWrite(b.hash, b));
    }
  }

  /** A `put_pending_as` run alone changes nothing where the disk has the block, and is
      an insertion into the area where it has not. */
  lemma {:induction false} PutPendingAlone(s: Store, id: CallId, b: Block, tier: Tier)
    requires id in s.calls && s.calls[id] == PendingCheck(b, tier)
    ensures Finish(s, id)
         == Left(s, id, s.disk, if b.hash in s.disk then s.pending else InsertAs(s.pending, b, tier).0)
  {
    FinishUnfolds(s, id);
    var checked := Act(s, id);
    if b.hash in s.disk {
      Finished(checked, id);
    } else {
      FinishUnfolds(checked, id);
      var inserted := Act(checked, id);
      FinishUnfolds(inserted, id);
      Finished(Act(inserted, id), id);
      Forgotten(s.calls, id, PendingInsert(b, tier));
      Forgotten(checked.calls, id, PendingRecheck(b.hash));
    }
  }

  /** A `discard_copy` run alone takes away a copy equal to its block, from the disk if
      the hash is there and otherwise from the pending area, and nothing else. */
  lemma {:induction false} DiscardCopyAlone(s: Store, id: CallId, b: Block)
    requires id in s.calls && s.calls[id] == DiscardRead(b)
    ensures Finish(s, id)
         == if b.hash in s.disk
            then Left(s, id, if s.disk[b.hash] == b then s.disk - {b.hash} else s.disk, s.pending)
            else Left(s, id, s.disk,
                      if b.hash in s.pending.entries && s.pending.entries[b.hash].block == b
                      then s.pending.(entries := s.pending.entries - {b.hash}) else s.pending)
  {
    FinishUnfolds(s, id);
    var read := Act(s, id);
    if b.hash in s.disk {
      if s.disk[b.hash] == b {
        FinishUnfolds(read, id);
        Finished(Act(read, id), id);
        Forgotten(s.calls, id, DiscardDelete(b));
      } else {
        Finished(read, id);
      }
    } else {
      FinishUnfolds(read, id);
      var compared := Act(read, id);
      Forgotten(s.calls, id, DiscardCompare(b));
      if id in compared.calls {
        FinishUnfolds(compared, id);
        Finished(Act(compared, id), id);
        Forgotten(read.calls, id, DiscardPending(b.hash));
      } else {
        Finished(compared, id);
      }
    }
  }

  /** `discard_pending` and `set_pending_limits` run alone. */
  lemma {:induction false} DiscardPendingAlone(s: Store, id: CallId, h: Hash)
    requires id in s.calls && s.calls[id] == DiscardPending(h)
    ensures Finish(s, id) == Left(s, id, s.disk, s.pending.(entries := s.pending.entries - {h}))
  {
    FinishUnfolds(s, id);
    Finished(Act(s, id), id);
  }

  lemma {:induction false} ResizeAlone(s: Store, id: CallId, limits: Limits)
    requires id in s.calls && s.calls[id] == Resize(limits)
    ensures Finish(s, id) == Left(s, id, s.disk, SetLimits(s.pending, limits).0)
  {
    FinishUnfolds(s, id);
    Finished(Act(s, id), id);
  }

  /** To finish alone is to be given enough turns with nothing between them. */
  lemma {:induction false} TurnsAlone(s: Store, id: CallId, n: nat)
    requires id in s.calls ==> ActionsLeft(s.calls[id]) <= n
    ensures Exec(s, seq(n, _ => Advance(id))) == Finish(s, id)
    decreases n
  {
    if n > 0 {
      var turns := seq(n, _ => Advance(id));
      assert turns[1..] == seq(n - 1, _ => Advance(id));
      TurnsAlone(Apply(s, Advance(id)), id, n - 1);
    }
  }

  // ---- ... and beside one another ----

  function Turns(events: seq<Event>, id: CallId): nat {
    if events == [] then 0
    else (if events[0] == Advance(id) then 1 else 0) + Turns(events[1..], id)
  }

  /** A call that gets its turns returns, whatever other calls do between them. */
  lemma {:induction false} CallsReturn(s: Store, events: seq<Event>, id: CallId)
    requires id in s.calls ==> ActionsLeft(s.calls[id]) <= Turns(events, id)
    requires forall e :: e in events && e.Begin? ==> e.id != id
    ensures id !in Exec(s, events).calls
    decreases |events|
  {
    if events != [] {
      var e := events[0];
      if e.Advance? && e.id in s.calls {
        CallsFinish(s, e.id);
      }
      CallsReturn(Apply(s, e), events[1..], id);
    }
  }

  /** The call is a put or a persist of `h`, at any of its actions. */
  predicate Storing(pc: Pc, h: Hash) {
    || (pc.PutWrite? && pc.key == h)
    || (pc.PersistCheck? && pc.block.hash == h)
    || pc == RemovePending(h)
  }

  lemma StoringGoesOn(s: Store, e: Event, id: CallId, h: Hash)
    requires RemovalsBacked(s) && (e.Begin? ==> Stores(e.pc))
    requires (id in s.calls && Storing(s.calls[id], h)) || h in s.disk
    ensures var s' := Apply(s, e);
            (id in s'.calls && Storing(s'.calls[id], h)) || h in s'.disk
  {
  }

  lemma {:induction false} StoringRun(s: Store, events: seq<Event>, id: CallId, h: Hash)
    requires RemovalsBacked(s) && ((id in s.calls && Storing(s.calls[id], h)) || h in s.disk)
    requires forall k :: 0 <= k < |events| && events[k].Begin? ==> Stores(events[k].pc)
    ensures var s' := Exec(s, events);
            (id in s'.calls && Storing(s'.calls[id], h)) || h in s'.disk
    decreases |events|
  {
    if events != [] {
      StoringGoesOn(s, events[0], id, h);
      StoringKeepsBacked(s, events[0]);
      StoringRun(Apply(s, events[0]), events[1..], id, h);
    }
  }

  /** Through every interleaving of storing calls, a put or persist of `h` is under way
      until `h` is on disk, and then `h` stays there: once the call has returned, and so
      once it has had its turns, the block is stored. */
  lemma {:induction false} StoredOnceReturned(s: Store, events: seq<Event>, id: CallId, h: Hash)
    requires RemovalsBacked(s) && id in s.calls && Storing(s.calls[id], h)
    requires forall k :: 0 <= k < |events| && events[k].Begin? ==> Stores(events[k].pc)
    ensures var s' := Exec(s, events);
            (id in s'.calls && Storing(s'.calls[id], h)) || h in s'.disk
    ensures id !in Exec(s, events).calls ==> h in Exec(s, events).disk
    ensures Turns(events, id) >= ActionsLeft(s.calls[id]) && (forall e :: e in events && e.Begin? ==> e.id != id) ==>
              h in Exec(s, events).disk
  {
    StoringRun(s, events, id, h);
    if Turns(events, id) >= ActionsLeft(s.calls[id]) && forall e :: e in events && e.Begin? ==> e.id != id {
      CallsReturn(s, events, id);
    }
  }
}
