/** What an insertion into the pending area answers and takes away, in terms of the
    area, the block and its tier alone. */
module PendingVerdicts {
  import opened Prelude
  import opened Dag
  import opened PendingArea
  import opened PendingRuns
  import opened Seqs
  import Sums

  /** Requested blocks stand above those of known senders, those above the rest. */
  predicate Outranks(a: Tier, b: Tier) {
    (a == Solicited && b != Solicited) || (a == KnownSender && b == Unsolicited)
  }

  /** The entries an insertion of this tier may not evict. */
  ghost function Protected(entries: Entries, tier: Tier): set<Hash> {
    set h | h in entries && Outranks(entries[h].tier, tier)
  }

  /** The sender is below its quota, or a requested block can displace one of the
      sender's that was not requested. */
  ghost predicate SenderAllows(area: Area, b: Block, tier: Tier) {
    || |set h | h in area.entries && area.entries[h].block.sender == b.sender| < area.limits.maxPerSender
    || (tier == Solicited
        && exists h :: h in area.entries && area.entries[h].block.sender == b.sender
                       && area.entries[h].tier != Solicited)
  }

  /** The protected entries leave room for the block. */
  ghost predicate RoomBeside(area: Area, b: Block, tier: Tier) {
    && |Protected(area.entries, tier)| < area.limits.maxBlocks
    && Sums.Sum(Protected(area.entries, tier), h => Size(area.entries, h)) + b.size <= area.limits.maxBytes
  }

  lemma KeptAreProtected(entries: Entries, tier: Tier)
    ensures Kept(entries, tier).Keys == Protected(entries, tier)
    ensures |Kept(entries, tier)| == |Protected(entries, tier)|
    ensures Bytes(Kept(entries, tier)) == Sums.Sum(Protected(entries, tier), h => Size(entries, h))
  {
    var kept := Kept(entries, tier);
    assert kept.Keys == Protected(entries, tier);
    assert |kept| == |kept.Keys|;
    Sums.Congruent(kept.Keys, h => Size(kept, h), h => Size(entries, h));
  }

  lemma QuotaAllows(area: Area, b: Block, tier: Tier)
    requires AgesDiffer(area.entries)
    ensures QuotaVictims(area, b, tier).Ok? <==> SenderAllows(area, b, tier)
    ensures QuotaVictims(area, b, tier).Err? ==> QuotaVictims(area, b, tier).error == SenderLimitReached
  {
    SenderVictimExists(area.entries, b.sender);
    assert From(area.entries, b.sender)
        == set h | h in area.entries && area.entries[h].block.sender == b.sender;
    if h :| h in area.entries && area.entries[h].block.sender == b.sender && area.entries[h].tier != Solicited {
      assert h in Unrequested(area.entries, b.sender);
    }
  }

  /** When each answer is given to a block the area does not hold. */
  lemma InsertVerdict(area: Area, b: Block, tier: Tier)
    requires AgesDiffer(area.entries) && b.hash !in area.entries
    ensures InsertAs(area, b, tier).1.status
         == if b.size > area.limits.maxBytes then TooLarge
            else if !SenderAllows(area, b, tier) then SenderLimitReached
            else if !RoomBeside(area, b, tier) then AreaFull
            else Accepted
  {
    QuotaAllows(area, b, tier);
    KeptAreProtected(area.entries, tier);
  }

  /** A block the area holds is accepted, and raised to the tier if that outranks its
      own. */
  lemma HeldVerdict(area: Area, b: Block, tier: Tier)
    requires b.hash in area.entries
    ensures var e := area.entries[b.hash];
            InsertAs(area, b, tier)
            == (area.(entries := area.entries[b.hash := e.(tier := if Outranks(tier, e.tier) then tier else e.tier)]),
                Outcome(Accepted, []))
  {
    var e := area.entries[b.hash];
    assert area.entries[b.hash := e] == area.entries;
  }

  // ---- What an accepted block displaces ----

  ghost predicate InEvictionOrder(entries: Entries, victims: seq<Hash>) {
    && (forall i :: 0 <= i < |victims| ==> victims[i] in entries)
    && forall i, j :: 0 <= i < j < |victims| ==>
         || Outranks(entries[victims[j]].tier, entries[victims[i]].tier)
         || (entries[victims[i]].tier == entries[victims[j]].tier
             && entries[victims[i]].age < entries[victims[j]].age)
  }

  /** The smallest prefix, in the (tier, age) order of what may be evicted, whose removal
      makes room, oldest first. */
  ghost predicate IsLeastToGo(
      limits: Limits, entries: Entries, upTo: Tier, blocks: nat, bytes: nat, victims: seq<Hash>)
  {
    && IsPrefix(entries, upTo, Members(victims))
    && HasRoom(limits, entries - Members(victims), blocks, bytes)
    && (forall out :: IsPrefix(entries, upTo, out) && HasRoom(limits, entries - out, blocks, bytes) ==>
                        Members(victims) <= out)
    && InEvictionOrder(entries, victims)
  }

  lemma ConsInOrder(entries: Entries, upTo: Tier, h: Hash, rest: seq<Hash>)
    requires IsOldest(entries, upTo, h) && InEvictionOrder(entries - {h}, rest)
    requires forall x :: x in rest ==> x in Evictable(entries - {h}, upTo)
    ensures InEvictionOrder(entries, [h] + rest)
    ensures forall x :: x in [h] + rest ==> x in Evictable(entries, upTo)
  {
    var left, all := entries - {h}, [h] + rest;
    forall i, j | 0 <= i < j < |all|
      ensures || Outranks(entries[all[j]].tier, entries[all[i]].tier)
              || (entries[all[i]].tier == entries[all[j]].tier && entries[all[i]].age < entries[all[j]].age)
    {
      var g := all[j];
      assert g == rest[j - 1] && g in rest;
      if i == 0 {
        assert Older(entries[h], entries[g]);
      } else {
        assert all[i] == rest[i - 1] && left[all[i]] == entries[all[i]] && left[g] == entries[g];
      }
    }
  }

  lemma {:induction false} VictimsInOrder(limits: Limits, entries: Entries, upTo: Tier, blocks: nat, bytes: nat)
    ensures InEvictionOrder(entries, Victims(limits, entries, upTo, blocks, bytes))
    ensures forall h :: h in Victims(limits, entries, upTo, blocks, bytes) ==> h in Evictable(entries, upTo)
    decreases |entries|
  {
    if !HasRoom(limits, entries, blocks, bytes) && exists h :: IsOldest(entries, upTo, h) {
      var h := Oldest(entries, upTo);
      var left := entries - {h};
      var rest := Victims(limits, left, upTo, blocks, bytes);
      VictimsInOrder(limits, left, upTo, blocks, bytes);
      ConsInOrder(entries, upTo, h, rest);
    }
  }

  lemma {:induction false} VictimsAreLeastToGo(limits: Limits, entries: Entries, upTo: Tier, blocks: nat, bytes: nat)
    requires AgesDiffer(entries) && HasRoom(limits, Kept(entries, upTo), blocks, bytes)
    ensures IsLeastToGo(limits, entries, upTo, blocks, bytes, Victims(limits, entries, upTo, blocks, bytes))
  {
    VictimsAreAPrefix(limits, entries, upTo, blocks, bytes);
    VictimsMakeRoom(limits, entries, upTo, blocks, bytes);
    VictimsInOrder(limits, entries, upTo, blocks, bytes);
    forall out | IsPrefix(entries, upTo, out) && HasRoom(limits, entries - out, blocks, bytes)
      ensures Members(Victims(limits, entries, upTo, blocks, bytes)) <= out
    {
      VictimsAreMinimal(limits, entries, upTo, blocks, bytes, out);
    }
  }

  /** The oldest entry of the sender that was not requested. */
  ghost predicate IsOldestUnrequested(entries: Entries, s: Validator, h: Hash) {
    && h in entries && entries[h].block.sender == s && entries[h].tier != Solicited
    && forall g :: g in entries && entries[g].block.sender == s && entries[g].tier != Solicited && g != h ==>
                     entries[h].age < entries[g].age
  }

  ghost predicate AtQuota(area: Area, b: Block) {
    |set h | h in area.entries && area.entries[h].block.sender == b.sender| >= area.limits.maxPerSender
  }

  lemma AcceptedAdmits(area: Area, b: Block, tier: Tier)
    requires b.hash !in area.entries && InsertAs(area, b, tier).1.status == Accepted
    ensures Admits(area, b, tier)
    ensures InsertAs(area, b, tier)
         == (Admitted(area, b, tier),
             Outcome(Accepted, QuotaVictims(area, b, tier).value + RoomVictims(area, b, tier)))
  {
    InsertCases(area, b, tier);
  }

  lemma WithoutBoth(entries: Entries, quota: seq<Hash>, room: seq<Hash>)
    ensures entries - Members(quota) - Members(room) == entries - Members(quota + room)
  {
    assert Members(quota + room) == Members(quota) + Members(room);
    WithoutTwice(entries, Members(quota), Members(room));
  }

  ghost predicate FiledInstead(area: Area, b: Block, tier: Tier, after: Area, evicted: seq<Hash>) {
    && after.limits == area.limits && after.nextSeq == area.nextSeq + 1
    && after.entries == (area.entries - Members(evicted))[b.hash := Entry(b, tier, area.nextSeq)]
  }

  lemma FiledAfter(area: Area, b: Block, tier: Tier, quota: seq<Hash>, room: seq<Hash>, left: Entries)
    requires left == area.entries - Members(quota) - Members(room)
    ensures FiledInstead(area, b, tier,
                         Area(area.limits, left[b.hash := Entry(b, tier, area.nextSeq)], area.nextSeq + 1),
                         quota + room)
  {
    WithoutBoth(area.entries, quota, room);
    assert left == area.entries - Members(quota + room);
  }

  lemma AdmittedIsFiled(area: Area, b: Block, tier: Tier)
    requires QuotaVictims(area, b, tier).Ok?
    ensures FiledInstead(area, b, tier, Admitted(area, b, tier),
                         QuotaVictims(area, b, tier).value + RoomVictims(area, b, tier))
  {
    FiledAfter(area, b, tier, QuotaVictims(area, b, tier).value, RoomVictims(area, b, tier), Survivors(area, b, tier));
  }

  /** An accepted new block is filed with the next age, beside what is left of the old
      entries. */
  lemma AcceptedInsert(area: Area, b: Block, tier: Tier)
    requires b.hash !in area.entries && InsertAs(area, b, tier).1.status == Accepted
    ensures FiledInstead(area, b, tier, InsertAs(area, b, tier).0, InsertAs(area, b, tier).1.evicted)
  {
    AcceptedAdmits(area, b, tier);
    AdmittedIsFiled(area, b, tier);
  }

  lemma RoomVictimsAreLeast(area: Area, b: Block, tier: Tier)
    requires AgesDiffer(area.entries) && QuotaVictims(area, b, tier).Ok? && CanFit(area, b.size, tier)
    ensures IsLeastToGo(area.limits, area.entries - Members(QuotaVictims(area, b, tier).value), tier, 1, b.size,
                        RoomVictims(area, b, tier))
  {
    QuotaKeepsHigherTiers(area, b, tier);
    FewerAgesDiffer(area.entries, Members(QuotaVictims(area, b, tier).value));
    VictimsAreLeastToGo(area.limits, area.entries - Members(QuotaVictims(area, b, tier).value), tier, 1, b.size);
  }

  lemma QuotaVictimIs(area: Area, b: Block, tier: Tier)
    requires QuotaVictims(area, b, tier).Ok?
    ensures !AtQuota(area, b) ==> QuotaVictims(area, b, tier).value == []
    ensures AtQuota(area, b) ==> exists h :: QuotaVictims(area, b, tier).value == [h]
                                             && IsOldestUnrequested(area.entries, b.sender, h)
  {
    assert From(area.entries, b.sender) == set h | h in area.entries && area.entries[h].block.sender == b.sender;
  }

  /** Below the quota, what goes is the least that makes room. */
  lemma AcceptedBelowQuota(area: Area, b: Block, tier: Tier)
    requires AgesDiffer(area.entries) && b.hash !in area.entries && !AtQuota(area, b)
    requires InsertAs(area, b, tier).1.status == Accepted
    ensures IsLeastToGo(area.limits, area.entries, tier, 1, b.size, InsertAs(area, b, tier).1.evicted)
  {
    AcceptedAdmits(area, b, tier);
    QuotaVictimIs(area, b, tier);
    RoomVictimsAreLeast(area, b, tier);
    WithoutNothing(area.entries);
    assert [] + RoomVictims(area, b, tier) == RoomVictims(area, b, tier);
  }

  lemma FirstAndRest(limits: Limits, entries: Entries, tier: Tier, size: nat, h: Hash, room: seq<Hash>)
    requires IsLeastToGo(limits, entries - Members([h]), tier, 1, size, room)
    ensures ([h] + room)[0] == h && IsLeastToGo(limits, entries - {h}, tier, 1, size, ([h] + room)[1..])
  {
    assert Members([h]) == {h};
    assert ([h] + room)[1..] == room;
  }

  /** At the quota the first to go is the sender's oldest unrequested entry, and then the
      least that makes room. */
  lemma AcceptedAtQuota(area: Area, b: Block, tier: Tier)
    requires AgesDiffer(area.entries) && b.hash !in area.entries && AtQuota(area, b)
    requires InsertAs(area, b, tier).1.status == Accepted
    ensures var evicted := InsertAs(area, b, tier).1.evicted;
            && evicted != [] && IsOldestUnrequested(area.entries, b.sender, evicted[0])
            && IsLeastToGo(area.limits, area.entries - {evicted[0]}, tier, 1, b.size, evicted[1..])
  {
    AcceptedAdmits(area, b, tier);
    QuotaVictimIs(area, b, tier);
    var h :| QuotaVictims(area, b, tier).value == [h] && IsOldestUnrequested(area.entries, b.sender, h);
    RoomVictimsAreLeast(area, b, tier);
    FirstAndRest(area.limits, area.entries, tier, b.size, h, RoomVictims(area, b, tier));
  }

  /** New limits are set, and the least that meets them goes. */
  lemma ResizeVerdict(area: Area, limits: Limits)
    requires AgesDiffer(area.entries)
    ensures var (after, evicted) := SetLimits(area, limits);
            && after.limits == limits && after.nextSeq == area.nextSeq
            && after.entries == area.entries - Members(evicted)
            && IsLeastToGo(limits, area.entries, Solicited, 0, 0, evicted)
  {
    assert Evictable(area.entries, Solicited) == area.entries.Keys;
    assert Kept(area.entries, Solicited) == map[];
    VictimsAreLeastToGo(limits, area.entries, Solicited, 0, 0);
  }
}
