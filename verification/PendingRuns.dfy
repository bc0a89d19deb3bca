/** What the pending area keeps over single operations and whole runs. */
module PendingRuns {
  import opened Dag
  import opened PendingArea
  import opened Seqs
  import Sums

  // ---- Sums of sizes ----

  lemma BytesWithout(entries: Entries, h: Hash)
    requires h in entries
    ensures Bytes(entries) == Bytes(entries - {h}) + entries[h].block.size
  {
    Sums.Remove(entries.Keys, x => Size(entries, x), h);
    assert (entries - {h}).Keys == entries.Keys - {h};
    Sums.Congruent((entries - {h}).Keys, x => Size(entries, x), x => Size(entries - {h}, x));
  }

  lemma BytesWith(entries: Entries, h: Hash, e: Entry)
    requires h !in entries
    ensures Bytes(entries[h := e]) == Bytes(entries) + e.block.size
  {
    BytesWithout(entries[h := e], h);
    assert entries[h := e] - {h} == entries;
  }

  lemma BytesPositive(entries: Entries)
    ensures Bytes(entries) >= 0
  {
    Sums.NonNegative(entries.Keys, x => Size(entries, x));
  }

  /** Fewer entries weigh no more. */
  lemma {:induction false} BytesSubset(entries: Entries, out: set<Hash>)
    requires out <= entries.Keys
    ensures Bytes(entries - out) <= Bytes(entries) && |entries - out| == |entries| - |out|
  {
    var left := entries - out;
    Sums.Subset(left.Keys, entries.Keys, x => Size(entries, x));
    Sums.Congruent(left.Keys, x => Size(entries, x), x => Size(left, x));
    assert left.Keys == entries.Keys - out;
    assert |left.Keys| == |entries.Keys| - |out|;
    assert |left| == |left.Keys| && |entries| == |entries.Keys|;
  }

  // ---- Victims ----

  lemma WithoutTwice(entries: Entries, a: set<Hash>, b: set<Hash>)
    ensures entries - a - b == entries - (a + b)
  {
  }

  lemma WithoutNothing(entries: Entries)
    ensures entries - Members([]) == entries
  {
  }

  lemma KeptIsAll(entries: Entries, upTo: Tier)
    ensures Evictable(entries, upTo) == {} ==> Kept(entries, upTo) == entries
  {
  }

  lemma KeptWithout(entries: Entries, upTo: Tier, h: Hash)
    requires h in Evictable(entries, upTo)
    ensures Kept(entries - {h}, upTo) == Kept(entries, upTo)
  {
    var left := entries - {h};
    assert Evictable(left, upTo) == Evictable(entries, upTo) - {h};
    WithoutTwice(entries, {h}, Evictable(left, upTo));
    assert {h} + Evictable(left, upTo) == Evictable(entries, upTo);
  }

  /** `out` is a prefix of the (tier, age) order over the evictable entries:
      whatever is older than a member is a member too. */
  ghost predicate IsPrefix(entries: Entries, upTo: Tier, out: set<Hash>) {
    && out <= Evictable(entries, upTo)
    && forall g, h :: h in out && g in Evictable(entries, upTo) && Older(entries[g], entries[h]) ==> g in out
  }

  lemma PrefixStep(entries: Entries, upTo: Tier, h: Hash, rest: set<Hash>)
    requires IsOldest(entries, upTo, h) && IsPrefix(entries - {h}, upTo, rest)
    ensures IsPrefix(entries, upTo, {h} + rest)
  {
    var left := entries - {h};
    assert Evictable(left, upTo) == Evictable(entries, upTo) - {h};
    forall g, x | x in {h} + rest && g in Evictable(entries, upTo) && Older(entries[g], entries[x])
      ensures g in {h} + rest
    {
      if g != h && x != h {
        assert Older(left[g], left[x]);
      }
    }
  }

  lemma {:induction false} VictimsUnfold(limits: Limits, entries: Entries, upTo: Tier, blocks: nat, bytes: nat)
    requires !HasRoom(limits, entries, blocks, bytes) && exists h :: IsOldest(entries, upTo, h)
    ensures var h := Oldest(entries, upTo);
            var rest := Victims(limits, entries - {h}, upTo, blocks, bytes);
            && Victims(limits, entries, upTo, blocks, bytes) == [h] + rest
            && Members([h] + rest) == {h} + Members(rest)
            && entries - {h} - Members(rest) == entries - Members([h] + rest)
  {
    var h := Oldest(entries, upTo);
    var rest := Victims(limits, entries - {h}, upTo, blocks, bytes);
    MembersOfCons(h, rest);
    WithoutTwice(entries, {h}, Members(rest));
  }

  lemma {:induction false} NoVictims(limits: Limits, entries: Entries, upTo: Tier, blocks: nat, bytes: nat)
    requires HasRoom(limits, entries, blocks, bytes) || !exists h :: IsOldest(entries, upTo, h)
    ensures Members(Victims(limits, entries, upTo, blocks, bytes)) == {}
  {
  }

  lemma {:induction false} MembersOfVictims(limits: Limits, entries: Entries, upTo: Tier, blocks: nat, bytes: nat)
    requires !HasRoom(limits, entries, blocks, bytes) && exists h :: IsOldest(entries, upTo, h)
    ensures var h := Oldest(entries, upTo);
            Members(Victims(limits, entries, upTo, blocks, bytes))
            == {h} + Members(Victims(limits, entries - {h}, upTo, blocks, bytes))
  {
    VictimsUnfold(limits, entries, upTo, blocks, bytes);
  }

  lemma {:induction false} VictimsAreAPrefix(limits: Limits, entries: Entries, upTo: Tier, blocks: nat, bytes: nat)
    ensures IsPrefix(entries, upTo, Members(Victims(limits, entries, upTo, blocks, bytes)))
    decreases |entries|
  {
    if !HasRoom(limits, entries, blocks, bytes) && exists h :: IsOldest(entries, upTo, h) {
      var h := Oldest(entries, upTo);
      VictimsAreAPrefix(limits, entries - {h}, upTo, blocks, bytes);
      VictimsUnfold(limits, entries, upTo, blocks, bytes);
      PrefixStep(entries, upTo, h, Members(Victims(limits, entries - {h}, upTo, blocks, bytes)));
    }
  }

  lemma PrefixHoldsOldest(entries: Entries, upTo: Tier, out: set<Hash>, h: Hash)
    requires IsPrefix(entries, upTo, out) && out != {} && IsOldest(entries, upTo, h)
    ensures h in out && IsPrefix(entries - {h}, upTo, out - {h})
    ensures entries - {h} - (out - {h}) == entries - out
  {
    var left := entries - {h};
    var x :| x in out;
    assert x == h || Older(entries[h], entries[x]);
    assert Evictable(left, upTo) == Evictable(entries, upTo) - {h};
    forall g, y | y in out - {h} && g in Evictable(left, upTo) && Older(left[g], left[y]) ensures g in out - {h} {
      assert Older(entries[g], entries[y]);
    }
  }

  lemma RoomyPrefixShrinks(
      limits: Limits, entries: Entries, upTo: Tier, blocks: nat, bytes: nat, out: set<Hash>, h: Hash)
    requires IsPrefix(entries, upTo, out) && IsOldest(entries, upTo, h)
    requires HasRoom(limits, entries - out, blocks, bytes) && !HasRoom(limits, entries, blocks, bytes)
    ensures h in out && IsPrefix(entries - {h}, upTo, out - {h})
    ensures HasRoom(limits, entries - {h} - (out - {h}), blocks, bytes)
  {
    assert out == {} ==> entries - out == entries;
    PrefixHoldsOldest(entries, upTo, out, h);
  }

  /** The victims are the smallest prefix that makes room: they are part of every
      other one that does. */
  lemma {:induction false} VictimsAreMinimal(
      limits: Limits, entries: Entries, upTo: Tier, blocks: nat, bytes: nat, out: set<Hash>)
    requires IsPrefix(entries, upTo, out) && HasRoom(limits, entries - out, blocks, bytes)
    ensures Members(Victims(limits, entries, upTo, blocks, bytes)) <= out
    decreases entries.Keys
  {
    if HasRoom(limits, entries, blocks, bytes) || !exists h :: IsOldest(entries, upTo, h) {
      NoVictims(limits, entries, upTo, blocks, bytes);
    } else {
      var h := Oldest(entries, upTo);
      assert (entries - {h}).Keys < entries.Keys by {
        assert h in entries;
      }
      RoomyPrefixShrinks(limits, entries, upTo, blocks, bytes, out, h);
      VictimsAreMinimal(limits, entries - {h}, upTo, blocks, bytes, out - {h});
      MembersOfVictims(limits, entries, upTo, blocks, bytes);
    }
  }

  /** If the tiers above leave room on their own, the victims make room. */
  lemma {:induction false} VictimsMakeRoom(limits: Limits, entries: Entries, upTo: Tier, blocks: nat, bytes: nat)
    requires AgesDiffer(entries)
    requires HasRoom(limits, Kept(entries, upTo), blocks, bytes)
    ensures HasRoom(limits, entries - Members(Victims(limits, entries, upTo, blocks, bytes)), blocks, bytes)
    decreases |entries|
  {
    if HasRoom(limits, entries, blocks, bytes) {
      WithoutNothing(entries);
    } else {
      KeptIsAll(entries, upTo);
      OldestExists(entries, upTo);
      var h := Oldest(entries, upTo);
      FewerAgesDiffer(entries, {h});
      KeptWithout(entries, upTo, h);
      VictimsMakeRoom(limits, entries - {h}, upTo, blocks, bytes);
      VictimsUnfold(limits, entries, upTo, blocks, bytes);
    }
  }

  // ---- One operation ----

  lemma PromoteKeepsBytes(entries: Entries, h: Hash, tier: Tier)
    ensures |Promote(entries, h, tier)| == |entries| && Bytes(Promote(entries, h, tier)) == Bytes(entries)
  {
    var after := Promote(entries, h, tier);
    assert after.Keys == entries.Keys;
    assert |after| == |after.Keys| && |entries| == |entries.Keys|;
    Sums.Congruent(entries.Keys, x => Size(entries, x), x => Size(after, x));
  }

  /** Promotion never lowers a tier and never changes an age or a block. */
  lemma PromoteOnlyRaises(entries: Entries, h: Hash, tier: Tier, g: Hash)
    requires g in entries
    ensures var e := Promote(entries, h, tier)[g];
            && e.block == entries[g].block && e.age == entries[g].age
            && e.tier.Rank() >= entries[g].tier.Rank()
            && (e != entries[g] ==> g == h && e.tier == tier)
  {
  }

  lemma QuotaKeepsHigherTiers(area: Area, b: Block, tier: Tier)
    requires QuotaVictims(area, b, tier).Ok?
    ensures Kept(area.entries - Members(QuotaVictims(area, b, tier).value), tier) == Kept(area.entries, tier)
    ensures Members(QuotaVictims(area, b, tier).value) <= Evictable(area.entries, tier)
  {
    var quota := QuotaVictims(area, b, tier).value;
    if quota == [] {
      WithoutNothing(area.entries);
    } else {
      var h := quota[0];
      assert quota == [h];
      assert Members(quota) == {h};
      KeptWithout(area.entries, tier, h);
    }
  }

  lemma SurvivorsHaveRoom(area: Area, b: Block, tier: Tier)
    requires Coherent(area) && QuotaVictims(area, b, tier).Ok? && CanFit(area, b.size, tier)
    ensures HasRoom(area.limits, Survivors(area, b, tier), 1, b.size)
  {
    QuotaKeepsHigherTiers(area, b, tier);
    var quota := Members(QuotaVictims(area, b, tier).value);
    FewerAgesDiffer(area.entries, quota);
    VictimsMakeRoom(area.limits, area.entries - quota, tier, 1, b.size);
  }

  /** The insert files a block the area did not hold. */
  ghost predicate Admits(area: Area, b: Block, tier: Tier) {
    b.hash !in area.entries && b.size <= area.limits.maxBytes
    && QuotaVictims(area, b, tier).Ok? && CanFit(area, b.size, tier)
  }

  /** Three ways an insert can go. */
  lemma InsertCases(area: Area, b: Block, tier: Tier)
    ensures var (after, out) := InsertAs(area, b, tier);
            if b.hash in area.entries then
              after == area.(entries := Promote(area.entries, b.hash, tier)) && out == Outcome(Accepted, [])
            else if Admits(area, b, tier) then
              && after == Admitted(area, b, tier)
              && out == Outcome(Accepted, QuotaVictims(area, b, tier).value + RoomVictims(area, b, tier))
            else
              after == area && out.status != Accepted && out.evicted == []
  {
  }

  lemma FilingFits(limits: Limits, kept: Entries, h: Hash, e: Entry)
    requires h !in kept && HasRoom(limits, kept, 1, e.block.size)
    ensures HasRoom(limits, kept[h := e], 0, 0)
  {
    BytesWith(kept, h, e);
    assert kept[h := e].Keys == kept.Keys + {h};
    assert |kept[h := e]| == |kept| + 1;
  }

  lemma AdmittedFits(area: Area, b: Block, tier: Tier)
    requires Coherent(area) && Admits(area, b, tier)
    ensures WithinLimits(Admitted(area, b, tier))
  {
    SurvivorsHaveRoom(area, b, tier);
    FilingFits(area.limits, Survivors(area, b, tier), b.hash, Entry(b, tier, area.nextSeq));
  }

  ghost predicate SubEntries(fewer: Entries, entries: Entries) {
    forall h :: h in fewer ==> h in entries && fewer[h] == entries[h]
  }

  lemma FilingIsCoherent(area: Area, kept: Entries, b: Block, tier: Tier)
    requires Coherent(area) && SubEntries(kept, area.entries)
    ensures Coherent(Area(area.limits, kept[b.hash := Entry(b, tier, area.nextSeq)], area.nextSeq + 1))
  {
    var after := Area(area.limits, kept[b.hash := Entry(b, tier, area.nextSeq)], area.nextSeq + 1);
    forall h ensures InPlace(after, h) {
      assert InPlace(area, h);
    }
    forall g, h | SameAge(after.entries, g, h) ensures g == h {
      assert InPlace(area, g) && InPlace(area, h);
      assert g != b.hash && h != b.hash ==> SameAge(area.entries, g, h);
    }
  }

  lemma FewerIsSub(entries: Entries, a: set<Hash>, b: set<Hash>)
    ensures SubEntries(entries - a - b, entries)
  {
  }

  lemma AdmittedIsCoherent(area: Area, b: Block, tier: Tier)
    requires Coherent(area) && QuotaVictims(area, b, tier).Ok?
    ensures Coherent(Admitted(area, b, tier))
  {
    FewerIsSub(area.entries, Members(QuotaVictims(area, b, tier).value), Members(RoomVictims(area, b, tier)));
    FilingIsCoherent(area, Survivors(area, b, tier), b, tier);
  }

  lemma PromoteIsCoherent(area: Area, hash: Hash, tier: Tier)
    requires Coherent(area)
    ensures Coherent(area.(entries := Promote(area.entries, hash, tier)))
    ensures WithinLimits(area) ==> WithinLimits(area.(entries := Promote(area.entries, hash, tier)))
  {
    PromoteKeepsBytes(area.entries, hash, tier);
    var after := area.(entries := Promote(area.entries, hash, tier));
    forall h ensures InPlace(after, h) {
      assert InPlace(area, h);
    }
    forall g, h | SameAge(after.entries, g, h) ensures g == h {
      assert SameAge(area.entries, g, h);
    }
  }

  lemma FewerIsCoherent(area: Area, limits: Limits, out: set<Hash>)
    requires Coherent(area)
    ensures Coherent(Area(limits, area.entries - out, area.nextSeq))
  {
    FewerAgesDiffer(area.entries, out);
    forall h ensures InPlace(Area(limits, area.entries - out, area.nextSeq), h) {
      assert InPlace(area, h);
    }
  }

  /** Every insert keeps the area coherent and within its limits. */
  lemma InsertKeepsInvariant(area: Area, b: Block, tier: Tier)
    requires Coherent(area) && WithinLimits(area)
    ensures Coherent(InsertAs(area, b, tier).0) && WithinLimits(InsertAs(area, b, tier).0)
  {
    InsertCases(area, b, tier);
    if b.hash in area.entries {
      PromoteIsCoherent(area, b.hash, tier);
    } else if Admits(area, b, tier) {
      AdmittedFits(area, b, tier);
      AdmittedIsCoherent(area, b, tier);
    }
  }

  lemma EvictedIsGone(entries: Entries, quota: seq<Hash>, room: seq<Hash>, h: Hash)
    requires h in entries
    ensures h in entries - Members(quota) - Members(room) <==> h !in quota + room
  {
  }

  /** A refused insert changes nothing and evicts nothing; an accepted one holds
      the block and otherwise exactly the old entries it does not report evicted. */
  lemma InsertIsAllOrNothing(area: Area, b: Block, tier: Tier, h: Hash)
    ensures var (after, out) := InsertAs(area, b, tier);
            && (out.status != Accepted ==> after == area && out.evicted == [])
            && (out.status == Accepted ==> b.hash in after.entries)
            && (h in area.entries ==> (h in after.entries <==> h !in out.evicted))
            && (h !in area.entries ==> (h in after.entries <==> out.status == Accepted && h == b.hash))
  {
    InsertCases(area, b, tier);
    if Admits(area, b, tier) && h in area.entries {
      EvictedIsGone(area.entries, QuotaVictims(area, b, tier).value, RoomVictims(area, b, tier), h);
    }
  }

  lemma InsertQuotaCount(area: Area, b: Block, tier: Tier)
    requires QuotaVictims(area, b, tier).Ok? && b.hash !in area.entries
    ensures var before := |From(area.entries, b.sender)|;
            var left := area.entries - Members(QuotaVictims(area, b, tier).value);
            |From(left, b.sender)| + 1 <= if before < area.limits.maxPerSender then area.limits.maxPerSender else before
  {
    var quota := QuotaVictims(area, b, tier).value;
    if quota == [] {
      WithoutNothing(area.entries);
    } else {
      var h := quota[0];
      assert quota == [h];
      assert Members(quota) == {h};
      assert From(area.entries - {h}, b.sender) == From(area.entries, b.sender) - {h};
    }
  }

  lemma FromSubset(entries: Entries, fewer: Entries, s: Validator)
    requires forall h :: h in fewer ==> h in entries && fewer[h].block == entries[h].block
    ensures |From(fewer, s)| <= |From(entries, s)|
  {
    var a, b := From(fewer, s), From(entries, s);
    assert a <= b;
    assert b == a + (b - a);
    assert |b| == |a| + |b - a|;
  }

  lemma FilingCounts(kept: Entries, b: Block, e: Entry, s: Validator)
    requires e.block == b && b.hash !in kept
    ensures |From(kept[b.hash := e], s)| == |From(kept, s)| + if s == b.sender then 1 else 0
  {
    assert From(kept[b.hash := e], s) == From(kept, s) + if s == b.sender then {b.hash} else {};
  }

  lemma AdmittedRespectsQuota(area: Area, b: Block, tier: Tier, s: Validator)
    requires Admits(area, b, tier)
    ensures var before := |From(area.entries, s)|;
            |From(Admitted(area, b, tier).entries, s)|
              <= if before < area.limits.maxPerSender then area.limits.maxPerSender else before
  {
    var left := area.entries - Members(QuotaVictims(area, b, tier).value);
    var kept := Survivors(area, b, tier);
    FromSubset(area.entries, left, s);
    FromSubset(left, kept, s);
    InsertQuotaCount(area, b, tier);
    FilingCounts(kept, b, Entry(b, tier, area.nextSeq), s);
  }

  /** No insert lifts a sender above the larger of its quota and its count. */
  lemma InsertRespectsQuota(area: Area, b: Block, tier: Tier, s: Validator)
    ensures var before := |From(area.entries, s)|;
            |From(InsertAs(area, b, tier).0.entries, s)|
              <= if before < area.limits.maxPerSender then area.limits.maxPerSender else before
  {
    InsertCases(area, b, tier);
    if b.hash in area.entries {
      FromSubset(area.entries, Promote(area.entries, b.hash, tier), s);
    } else if Admits(area, b, tier) {
      AdmittedRespectsQuota(area, b, tier, s);
    }
  }

  lemma SurvivorsIncludeHigherTiers(area: Area, b: Block, tier: Tier, h: Hash)
    requires Admits(area, b, tier)
    requires h in area.entries && area.entries[h].tier.Rank() > tier.Rank()
    ensures h in Survivors(area, b, tier)
  {
    QuotaKeepsHigherTiers(area, b, tier);
    var left := area.entries - Members(QuotaVictims(area, b, tier).value);
    VictimsAreAPrefix(area.limits, left, tier, 1, b.size);
    assert h !in Evictable(left, tier) && h !in Evictable(area.entries, tier);
  }

  lemma AdmittedSparesHigherTiers(area: Area, b: Block, tier: Tier, h: Hash)
    requires Admits(area, b, tier)
    requires h in area.entries && area.entries[h].tier.Rank() > tier.Rank()
    ensures h in Admitted(area, b, tier).entries && Admitted(area, b, tier).entries[h] == area.entries[h]
    ensures h !in QuotaVictims(area, b, tier).value + RoomVictims(area, b, tier)
  {
    SurvivorsIncludeHigherTiers(area, b, tier, h);
    EvictedIsGone(area.entries, QuotaVictims(area, b, tier).value, RoomVictims(area, b, tier), h);
  }

  /** What an insert evicts has its own tier or a lower one; entries above it
      stay exactly as they were. */
  lemma InsertSparesHigherTiers(area: Area, b: Block, tier: Tier, h: Hash)
    requires h in area.entries && area.entries[h].tier.Rank() > tier.Rank()
    ensures var (after, out) := InsertAs(area, b, tier);
            h !in out.evicted && h in after.entries && after.entries[h] == area.entries[h]
  {
    InsertCases(area, b, tier);
    if b.hash in area.entries {
      PromoteOnlyRaises(area.entries, b.hash, tier, h);
    } else if Admits(area, b, tier) {
      AdmittedSparesHigherTiers(area, b, tier, h);
    }
  }

  lemma SetLimitsKeepsInvariant(area: Area, limits: Limits)
    requires Coherent(area)
    ensures Coherent(SetLimits(area, limits).0) && WithinLimits(SetLimits(area, limits).0)
  {
    var out := Victims(limits, area.entries, Solicited, 0, 0);
    assert Evictable(area.entries, Solicited) == area.entries.Keys;
    assert Kept(area.entries, Solicited) == map[];
    VictimsMakeRoom(limits, area.entries, Solicited, 0, 0);
    FewerIsCoherent(area, limits, Members(out));
  }

  lemma DiscardKeepsInvariant(area: Area, h: Hash)
    requires Coherent(area) && WithinLimits(area)
    ensures Coherent(Discard(area, h)) && WithinLimits(Discard(area, h))
  {
    FewerIsCoherent(area, area.limits, {h});
    if h in area.entries {
      BytesSubset(area.entries, {h});
    } else {
      assert area.entries - {h} == area.entries;
    }
  }

  // ---- Whole runs ----

  datatype Op = Insert(block: Block, tier: Tier) | Remove(hash: Hash) | Resize(limits: Limits)

  ghost predicate Sound(area: Area) {
    Coherent(area) && WithinLimits(area)
  }

  /** One call, with the hashes it reports evicted. */
  ghost function Step(area: Area, op: Op): (Area, seq<Hash>) {
    match op
    case Insert(b, tier) => (InsertAs(area, b, tier).0, InsertAs(area, b, tier).1.evicted)
    case Remove(h) => (Discard(area, h), [])
    case Resize(limits) => SetLimits(area, limits)
  }

  lemma StepKeepsInvariant(area: Area, op: Op)
    requires Sound(area)
    ensures Sound(Step(area, op).0)
  {
    match op
    case Insert(b, tier) => InsertKeepsInvariant(area, b, tier);
    case Remove(h) => DiscardKeepsInvariant(area, h);
    case Resize(limits) => SetLimitsKeepsInvariant(area, limits);
  }

  function Empty(limits: Limits): Area {
    Area(limits, map[], 0)
  }

  /** `states` are the areas a run of `ops` goes through. */
  ghost predicate IsRun(states: seq<Area>, ops: seq<Op>) {
    |states| == |ops| + 1 && forall i :: 0 <= i < |ops| ==> states[i + 1] == Step(states[i], ops[i]).0
  }

  lemma EmptyIsSound(limits: Limits)
    ensures Sound(Empty(limits))
  {
    assert Bytes(map[]) == 0;
  }

  /** Every area reached from a sound one, the empty one to begin with, is
      coherent and within its current limits. */
  lemma {:induction false} ReachableAreasAreSound(states: seq<Area>, ops: seq<Op>, i: nat)
    requires IsRun(states, ops) && Sound(states[0])
    requires i < |states|
    ensures Sound(states[i])
    decreases i
  {
    if i > 0 {
      ReachableAreasAreSound(states, ops, i - 1);
      StepKeepsInvariant(states[i - 1], ops[i - 1]);
    }
  }

  lemma StepSparesHigherTiers(area: Area, op: Op, h: Hash)
    requires op.Insert?
    requires h in area.entries && area.entries[h].tier.Rank() > op.tier.Rank()
    ensures h in Step(area, op).0.entries && Step(area, op).0.entries[h] == area.entries[h]
    ensures h !in Step(area, op).1
  {
    InsertSparesHigherTiers(area, op.block, op.tier, h);
  }

  /** Along a run of inserts of tier `c` or lower, whatever sits above `c` is
      never touched. */
  lemma {:induction false} HigherTiersStay(states: seq<Area>, ops: seq<Op>, c: Tier, h: Hash, i: nat)
    requires IsRun(states, ops) && i < |states|
    requires forall k :: 0 <= k < |ops| ==> ops[k].Insert? && ops[k].tier.Rank() <= c.Rank()
    requires h in states[0].entries && states[0].entries[h].tier.Rank() > c.Rank()
    ensures h in states[i].entries && states[i].entries[h] == states[0].entries[h]
    decreases i
  {
    if i > 0 {
      HigherTiersStay(states, ops, c, h, i - 1);
      StepSparesHigherTiers(states[i - 1], ops[i - 1], h);
    }
  }

  /** ... and never evicted: the flood of a lower tier costs it nothing. */
  lemma PrioritySafety(states: seq<Area>, ops: seq<Op>, c: Tier, h: Hash, i: nat)
    requires IsRun(states, ops) && i < |ops|
    requires forall k :: 0 <= k < |ops| ==> ops[k].Insert? && ops[k].tier.Rank() <= c.Rank()
    requires h in states[0].entries && states[0].entries[h].tier.Rank() > c.Rank()
    ensures h in states[i].entries && h !in Step(states[i], ops[i]).1
  {
    HigherTiersStay(states, ops, c, h, i);
    StepSparesHigherTiers(states[i], ops[i], h);
  }

  lemma InsertOnlyRaises(area: Area, b: Block, tier: Tier, h: Hash)
    requires h in area.entries && h in InsertAs(area, b, tier).0.entries
    ensures var e := InsertAs(area, b, tier).0.entries[h];
            && e.block == area.entries[h].block && e.age == area.entries[h].age
            && e.tier.Rank() >= area.entries[h].tier.Rank()
  {
    InsertCases(area, b, tier);
    if b.hash in area.entries {
      PromoteOnlyRaises(area.entries, b.hash, tier, h);
    }
  }

  /** As long as a block stays, its tier only rises and its age never changes. */
  lemma StepOnlyRaises(area: Area, op: Op, h: Hash)
    requires h in area.entries && h in Step(area, op).0.entries
    ensures var e := Step(area, op).0.entries[h];
            && e.block == area.entries[h].block && e.age == area.entries[h].age
            && e.tier.Rank() >= area.entries[h].tier.Rank()
  {
    if op.Insert? {
      InsertOnlyRaises(area, op.block, op.tier, h);
    }
  }
}
