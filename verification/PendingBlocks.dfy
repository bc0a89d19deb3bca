/** The pending-block area as the node keeps it: entries plus five redundant
    indexes, all changed in place. */
module PendingBlocks {
  import opened Prelude
  import opened Dag
  import opened PendingArea
  import opened PendingRuns
  import opened Seqs
  import Orders
  import Sums

  /** An ordered map from ages to hashes. */
  type AgeMap = map<nat, Hash>

  function File(ages: AgeMap, age: nat, h: Hash): AgeMap {
    ages[age := h]
  }

  // ---- What the indexes say about the entries ----

  ghost predicate Filed(entries: Entries, c: Tier, ages: AgeMap, h: Hash) {
    h in entries && entries[h].tier == c ==> entries[h].age in ages && ages[entries[h].age] == h
  }

  ghost predicate Listed(entries: Entries, c: Tier, ages: AgeMap, a: nat) {
    a in ages ==> ages[a] in entries && entries[ages[a]].tier == c && entries[ages[a]].age == a
  }

  ghost predicate TierMatches(entries: Entries, c: Tier, ages: AgeMap) {
    && (forall h {:trigger Filed(entries, c, ages, h)} :: Filed(entries, c, ages, h))
    && forall a {:trigger Listed(entries, c, ages, a)} :: Listed(entries, c, ages, a)
  }

  ghost predicate TiersMatch(entries: Entries, tiers: seq<AgeMap>) {
    && |tiers| == 3
    && TierMatches(entries, Unsolicited, tiers[0])
    && TierMatches(entries, KnownSender, tiers[1])
    && TierMatches(entries, Solicited, tiers[2])
  }

  ghost predicate BytesMatch(entries: Entries, tierBytes: seq<nat>, bytes: nat) {
    && |tierBytes| == 3 && bytes == Bytes(entries)
    && tierBytes[0] == TierBytes(entries, Unsolicited)
    && tierBytes[1] == TierBytes(entries, KnownSender)
    && tierBytes[2] == TierBytes(entries, Solicited)
  }

  ghost predicate Counted(entries: Entries, perSender: map<Validator, nat>, s: Validator) {
    && (s in perSender ==> perSender[s] == |From(entries, s)| && perSender[s] > 0)
    && (s !in perSender ==> From(entries, s) == {})
  }

  ghost predicate SendersMatch(entries: Entries, perSender: map<Validator, nat>) {
    forall s {:trigger Counted(entries, perSender, s)} :: Counted(entries, perSender, s)
  }

  /** Every index is exactly the projection of the entries it stands for. */
  ghost predicate IndexesMatch(
      entries: Entries, tiers: seq<AgeMap>, tierBytes: seq<nat>, bytes: nat, perSender: map<Validator, nat>)
  {
    TiersMatch(entries, tiers) && BytesMatch(entries, tierBytes, bytes) && SendersMatch(entries, perSender)
  }

  function Count(perSender: map<Validator, nat>, s: Validator): nat {
    if s in perSender then perSender[s] else 0
  }

  // ---- The indexes after a removal, a filing and a promotion ----

  lemma TierWithout(entries: Entries, c: Tier, ages: AgeMap, h: Hash)
    requires AgesDiffer(entries) && TierMatches(entries, c, ages) && h in entries
    ensures TierMatches(entries - {h}, c, if c == entries[h].tier then ages - {entries[h].age} else ages)
  {
    var left := entries - {h};
    var after := if c == entries[h].tier then ages - {entries[h].age} else ages;
    forall g ensures Filed(left, c, after, g) {
      assert Filed(entries, c, ages, g);
      assert !SameAge(entries, g, h) || g == h;
    }
    forall a ensures Listed(left, c, after, a) {
      assert Listed(entries, c, ages, a);
    }
  }

  lemma TierWith(entries: Entries, c: Tier, ages: AgeMap, h: Hash, e: Entry)
    requires TierMatches(entries, c, ages) && h !in entries
    requires forall g :: g in entries ==> entries[g].age != e.age
    ensures TierMatches(entries[h := e], c, if c == e.tier then File(ages, e.age, h) else ages)
  {
    var more := entries[h := e];
    var after := if c == e.tier then File(ages, e.age, h) else ages;
    forall g ensures Filed(more, c, after, g) {
      assert Filed(entries, c, ages, g);
    }
    forall a ensures Listed(more, c, after, a) {
      assert Listed(entries, c, ages, a);
    }
  }

  lemma TiersWithout(entries: Entries, tiers: seq<AgeMap>, h: Hash)
    requires AgesDiffer(entries) && TiersMatch(entries, tiers) && h in entries
    ensures var k, a := entries[h].tier.Rank(), entries[h].age;
            TiersMatch(entries - {h}, tiers[k := tiers[k] - {a}])
  {
    TierWithout(entries, Unsolicited, tiers[0], h);
    TierWithout(entries, KnownSender, tiers[1], h);
    TierWithout(entries, Solicited, tiers[2], h);
  }

  lemma TiersWith(entries: Entries, tiers: seq<AgeMap>, h: Hash, e: Entry)
    requires TiersMatch(entries, tiers) && h !in entries
    requires forall g :: g in entries ==> entries[g].age != e.age
    ensures var k := e.tier.Rank();
            TiersMatch(entries[h := e], tiers[k := File(tiers[k], e.age, h)])
  {
    TierWith(entries, Unsolicited, tiers[0], h, e);
    TierWith(entries, KnownSender, tiers[1], h, e);
    TierWith(entries, Solicited, tiers[2], h, e);
  }

  lemma TierBytesWithout(entries: Entries, h: Hash, c: Tier)
    requires h in entries
    ensures TierBytes(entries, c)
         == TierBytes(entries - {h}, c) + if entries[h].tier == c then entries[h].block.size else 0
  {
    var left := entries - {h};
    Sums.Congruent(InTier(left, c), x => Size(entries, x), x => Size(left, x));
    assert InTier(left, c) == InTier(entries, c) - {h};
    if entries[h].tier == c {
      Sums.Remove(InTier(entries, c), x => Size(entries, x), h);
    } else {
      assert InTier(left, c) == InTier(entries, c);
    }
  }

  lemma TierBytesWith(entries: Entries, h: Hash, e: Entry, c: Tier)
    requires h !in entries
    ensures TierBytes(entries[h := e], c) == TierBytes(entries, c) + if e.tier == c then e.block.size else 0
  {
    TierBytesWithout(entries[h := e], h, c);
    assert entries[h := e] - {h} == entries;
  }

  lemma TierBytesPositive(entries: Entries, c: Tier)
    ensures TierBytes(entries, c) >= 0
  {
    Sums.NonNegative(InTier(entries, c), x => Size(entries, x));
  }

  lemma BytesIndexWithout(entries: Entries, tierBytes: seq<nat>, bytes: nat, h: Hash)
    requires BytesMatch(entries, tierBytes, bytes) && h in entries
    ensures var k, size := entries[h].tier.Rank(), entries[h].block.size;
            && tierBytes[k] >= size && bytes >= size
            && BytesMatch(entries - {h}, tierBytes[k := tierBytes[k] - size], bytes - size)
  {
    var e := entries[h];
    BytesWithout(entries, h);
    BytesPositive(entries - {h});
    TierBytesPositive(entries - {h}, e.tier);
    TierBytesWithout(entries, h, Unsolicited);
    TierBytesWithout(entries, h, KnownSender);
    TierBytesWithout(entries, h, Solicited);
  }

  lemma BytesIndexWith(entries: Entries, tierBytes: seq<nat>, bytes: nat, h: Hash, e: Entry)
    requires BytesMatch(entries, tierBytes, bytes) && h !in entries
    ensures var k, size := e.tier.Rank(), e.block.size;
            BytesMatch(entries[h := e], tierBytes[k := tierBytes[k] + size], bytes + size)
  {
    BytesWith(entries, h, e);
    TierBytesWith(entries, h, e, Unsolicited);
    TierBytesWith(entries, h, e, KnownSender);
    TierBytesWith(entries, h, e, Solicited);
  }

  /** `per_sender` after one of the sender's blocks has gone. */
  function SenderWithout(perSender: map<Validator, nat>, s: Validator): map<Validator, nat>
    requires s in perSender && perSender[s] > 0
  {
    if perSender[s] == 1 then perSender - {s} else perSender[s := perSender[s] - 1]
  }

  lemma FromWithout(entries: Entries, h: Hash, s: Validator)
    requires h in entries
    ensures From(entries - {h}, s) == From(entries, s) - {h}
    ensures |From(entries - {h}, s)| == |From(entries, s)| - if entries[h].block.sender == s then 1 else 0
  {
    assert From(entries - {h}, s) == From(entries, s) - {h};
  }

  lemma SendersWithout(entries: Entries, perSender: map<Validator, nat>, h: Hash)
    requires SendersMatch(entries, perSender) && h in entries
    ensures var s := entries[h].block.sender;
            s in perSender && perSender[s] > 0 && SendersMatch(entries - {h}, SenderWithout(perSender, s))
  {
    var s := entries[h].block.sender;
    assert h in From(entries, s) && Counted(entries, perSender, s);
    forall t ensures Counted(entries - {h}, SenderWithout(perSender, s), t) {
      assert Counted(entries, perSender, t);
      FromWithout(entries, h, t);
    }
  }

  lemma SendersWith(entries: Entries, perSender: map<Validator, nat>, h: Hash, e: Entry)
    requires SendersMatch(entries, perSender) && h !in entries
    ensures var s := e.block.sender;
            SendersMatch(entries[h := e], perSender[s := Count(perSender, s) + 1])
  {
    var s := e.block.sender;
    var more, after := entries[h := e], perSender[s := Count(perSender, s) + 1];
    assert more - {h} == entries;
    forall t ensures Counted(more, after, t) {
      assert Counted(entries, perSender, t);
      FromWithout(more, h, t);
    }
  }

  lemma SendersPromoted(entries: Entries, perSender: map<Validator, nat>, h: Hash, tier: Tier)
    requires SendersMatch(entries, perSender)
    ensures SendersMatch(Promote(entries, h, tier), perSender)
  {
    forall s ensures Counted(Promote(entries, h, tier), perSender, s) {
      assert Counted(entries, perSender, s);
      assert From(Promote(entries, h, tier), s) == From(entries, s);
    }
  }

  lemma IndexesWithout(
      entries: Entries, tiers: seq<AgeMap>, tierBytes: seq<nat>, bytes: nat, perSender: map<Validator, nat>, h: Hash)
    requires AgesDiffer(entries) && IndexesMatch(entries, tiers, tierBytes, bytes, perSender) && h in entries
    ensures var e := entries[h];
            var k := e.tier.Rank();
            && tierBytes[k] >= e.block.size && bytes >= e.block.size
            && e.block.sender in perSender && perSender[e.block.sender] > 0
            && IndexesMatch(entries - {h}, tiers[k := tiers[k] - {e.age}], tierBytes[k := tierBytes[k] - e.block.size],
                            bytes - e.block.size, SenderWithout(perSender, e.block.sender))
  {
    TiersWithout(entries, tiers, h);
    BytesIndexWithout(entries, tierBytes, bytes, h);
    SendersWithout(entries, perSender, h);
  }

  lemma IndexesWith(
      entries: Entries, tiers: seq<AgeMap>, tierBytes: seq<nat>, bytes: nat, perSender: map<Validator, nat>,
      h: Hash, e: Entry)
    requires IndexesMatch(entries, tiers, tierBytes, bytes, perSender) && h !in entries
    requires forall g :: g in entries ==> entries[g].age != e.age
    ensures var k, s := e.tier.Rank(), e.block.sender;
            IndexesMatch(entries[h := e], tiers[k := File(tiers[k], e.age, h)],
                         tierBytes[k := tierBytes[k] + e.block.size],
                         bytes + e.block.size, perSender[s := Count(perSender, s) + 1])
  {
    TiersWith(entries, tiers, h, e);
    BytesIndexWith(entries, tierBytes, bytes, h, e);
    SendersWith(entries, perSender, h, e);
  }

  /** Promotion moves one age between two tiers and its bytes with it. */
  lemma IndexesPromoted(
      entries: Entries, tiers: seq<AgeMap>, tierBytes: seq<nat>, bytes: nat, perSender: map<Validator, nat>,
      h: Hash, tier: Tier)
    requires AgesDiffer(entries) && IndexesMatch(entries, tiers, tierBytes, bytes, perSender)
    requires h in entries && tier.Rank() > entries[h].tier.Rank()
    ensures var e := entries[h];
            var old', new' := e.tier.Rank(), tier.Rank();
            var tiers1 := tiers[old' := tiers[old'] - {e.age}];
            && tierBytes[old'] >= e.block.size
            && var bytes1 := tierBytes[old' := tierBytes[old'] - e.block.size];
               IndexesMatch(Promote(entries, h, tier), tiers1[new' := File(tiers1[new'], e.age, h)],
                            bytes1[new' := bytes1[new'] + e.block.size], bytes, perSender)
  {
    var e := entries[h];
    var left := entries - {h};
    var promoted := e.(tier := tier);
    TiersWithout(entries, tiers, h);
    BytesIndexWithout(entries, tierBytes, bytes, h);
    forall g | g in left ensures left[g].age != e.age {
      assert !SameAge(entries, g, h);
    }
    TiersWith(left, tiers[e.tier.Rank() := tiers[e.tier.Rank()] - {e.age}], h, promoted);
    BytesIndexWith(left, tierBytes[e.tier.Rank() := tierBytes[e.tier.Rank()] - e.block.size],
                   bytes - e.block.size, h, promoted);
    SendersPromoted(entries, perSender, h, tier);
    assert left[h := promoted] == Promote(entries, h, tier);
  }

  // ---- Sizes of the tiers ----

  lemma {:induction false} InjectiveCount(m: AgeMap)
    requires forall a, b :: a in m && b in m && m[a] == m[b] ==> a == b
    ensures |m| == |m.Values|
    decreases |m|
  {
    if m == map[] {
      assert m.Values == {};
    } else {
      var a :| a in m;
      var rest := m - {a};
      InjectiveCount(rest);
      assert m.Values == rest.Values + {m[a]} by {
        forall h | h in m.Values ensures h in rest.Values + {m[a]} {
          var b :| b in m && m[b] == h;
          assert b != a ==> b in rest && rest[b] == h;
        }
      }
      assert m[a] !in rest.Values;
      assert |m| == |rest| + 1 by {
        assert m.Keys == rest.Keys + {a};
        assert |m| == |m.Keys| && |rest| == |rest.Keys|;
      }
    }
  }

  lemma TierCount(entries: Entries, c: Tier, ages: AgeMap)
    requires TierMatches(entries, c, ages)
    ensures |ages| == |InTier(entries, c)|
  {
    forall a, b | a in ages && b in ages && ages[a] == ages[b] ensures a == b {
      assert Listed(entries, c, ages, a) && Listed(entries, c, ages, b);
    }
    InjectiveCount(ages);
    forall h | h in InTier(entries, c) ensures h in ages.Values {
      assert Filed(entries, c, ages, h);
    }
    forall h | h in ages.Values ensures h in InTier(entries, c) {
      var a :| a in ages && ages[a] == h;
      assert Listed(entries, c, ages, a);
    }
    assert ages.Values == InTier(entries, c);
  }

  lemma KeptByTier(entries: Entries, c: Tier)
    ensures Kept(entries, c).Keys
         == (if c == Unsolicited then InTier(entries, KnownSender) else {})
            + (if c != Solicited then InTier(entries, Solicited) else {})
  {
    forall h | h in Kept(entries, c)
      ensures h in (if c == Unsolicited then InTier(entries, KnownSender) else {})
                   + (if c != Solicited then InTier(entries, Solicited) else {})
    {
      assert entries[h].tier.Rank() > c.Rank();
    }
  }

  lemma KeptCount(entries: Entries, c: Tier)
    ensures |Kept(entries, c)|
         == (if c == Unsolicited then |InTier(entries, KnownSender)| else 0)
            + (if c != Solicited then |InTier(entries, Solicited)| else 0)
  {
    KeptByTier(entries, c);
    assert InTier(entries, KnownSender) !! InTier(entries, Solicited);
    assert |Kept(entries, c)| == |Kept(entries, c).Keys|;
  }

  lemma KeptBytes(entries: Entries, c: Tier)
    ensures Bytes(Kept(entries, c))
         == (if c == Unsolicited then TierBytes(entries, KnownSender) else 0)
            + (if c != Solicited then TierBytes(entries, Solicited) else 0)
  {
    var kept := Kept(entries, c);
    KeptByTier(entries, c);
    Sums.Congruent(kept.Keys, x => Size(kept, x), x => Size(entries, x));
    if c == Unsolicited {
      assert InTier(entries, KnownSender) !! InTier(entries, Solicited);
      Sums.Disjoint(InTier(entries, KnownSender), InTier(entries, Solicited), x => Size(entries, x));
    } else {
      assert kept.Keys == if c != Solicited then InTier(entries, Solicited) else {};
    }
  }

  lemma TierFacts(entries: Entries, tiers: seq<AgeMap>, c: Tier)
    requires TiersMatch(entries, tiers)
    ensures |tiers[c.Rank()]| == |InTier(entries, c)|
  {
    TierCount(entries, c, tiers[c.Rank()]);
  }

  /** The tiers above `c` together count and weigh what the indexes say. */
  lemma KeptTotals(entries: Entries, tiers: seq<AgeMap>, tierBytes: seq<nat>, bytes: nat, c: Tier)
    requires TiersMatch(entries, tiers) && BytesMatch(entries, tierBytes, bytes)
    ensures |Kept(entries, c)|
         == (if c == Unsolicited then |tiers[1]| else 0) + (if c != Solicited then |tiers[2]| else 0)
    ensures Bytes(Kept(entries, c))
         == (if c == Unsolicited then tierBytes[1] else 0) + (if c != Solicited then tierBytes[2] else 0)
  {
    TierFacts(entries, tiers, KnownSender);
    TierFacts(entries, tiers, Solicited);
    KeptCount(entries, c);
    KeptBytes(entries, c);
    assert tierBytes[KnownSender.Rank()] == TierBytes(entries, KnownSender);
    assert tierBytes[Solicited.Rank()] == TierBytes(entries, Solicited);
  }

  // ---- Ordered lookups ----

  lemma MinKeyExists(m: AgeMap)
    requires m != map[]
    ensures exists k :: k in m && forall j :: j in m ==> k <= j
  {
    var less: (nat, nat) -> bool := (a, b) => a < b;
    assert m.Keys != {};
    Orders.LeastExists(m.Keys, less);
    var k :| Orders.IsLeast(m.Keys, less, k);
    assert forall j :: j in m ==> k <= j;
  }

  /** The least key of a non-empty ordered map. */
  function MinKey(m: AgeMap): (k: nat)
    requires m != map[]
    ensures k in m && forall j :: j in m ==> k <= j
  {
    MinKeyExists(m);
    var k :| k in m && forall j :: j in m ==> k <= j;
    k
  }

  /** The entries of one sender in a tier, still by age. */
  function OfSender(entries: Entries, ages: AgeMap, s: Validator): AgeMap {
    map a | a in ages && ages[a] in entries && entries[ages[a]].block.sender == s :: ages[a]
  }

  lemma FirstOfTierIsOldest(entries: Entries, upTo: Tier, c: Tier, ages: AgeMap)
    requires AgesDiffer(entries) && TierMatches(entries, c, ages) && ages != map[]
    requires c.Rank() <= upTo.Rank()
    requires forall h :: h in Evictable(entries, upTo) ==> entries[h].tier.Rank() >= c.Rank()
    ensures IsOldest(entries, upTo, ages[MinKey(ages)])
  {
    var h := ages[MinKey(ages)];
    assert Listed(entries, c, ages, MinKey(ages));
    forall g | g in Evictable(entries, upTo) && g != h ensures Older(entries[h], entries[g]) {
      assert Filed(entries, c, ages, g) && !SameAge(entries, g, h);
    }
  }

  lemma EmptyTierHoldsNothing(entries: Entries, c: Tier, ages: AgeMap)
    requires TierMatches(entries, c, ages) && ages == map[]
    ensures forall h :: h in entries ==> entries[h].tier != c
  {
    forall h | h in entries ensures entries[h].tier != c {
      assert Filed(entries, c, ages, h);
    }
  }

  /** The sender's oldest entry in a tier, if it has one there. */
  lemma FirstOfSender(entries: Entries, c: Tier, ages: AgeMap, s: Validator)
    requires TierMatches(entries, c, ages)
    ensures forall h :: h in From(entries, s) && entries[h].tier == c ==>
                          entries[h].age in OfSender(entries, ages, s)
    ensures forall a :: a in OfSender(entries, ages, s) ==>
                          var h := OfSender(entries, ages, s)[a];
                          h in From(entries, s) && entries[h].tier == c && entries[h].age == a
  {
    forall h | h in From(entries, s) && entries[h].tier == c ensures entries[h].age in OfSender(entries, ages, s) {
      assert Filed(entries, c, ages, h);
    }
    forall a | a in OfSender(entries, ages, s)
      ensures var h := OfSender(entries, ages, s)[a];
              h in From(entries, s) && entries[h].tier == c && entries[h].age == a
    {
      assert Listed(entries, c, ages, a);
    }
  }

  lemma OlderOfTwo(entries: Entries, tiers: seq<AgeMap>, s: Validator, low: AgeMap, known: AgeMap, h: Hash)
    requires AgesDiffer(entries) && TiersMatch(entries, tiers)
    requires low == OfSender(entries, tiers[0], s) && known == OfSender(entries, tiers[1], s)
    requires low != map[] || known != map[]
    requires h == if known == map[] || (low != map[] && MinKey(low) < MinKey(known))
                  then low[MinKey(low)] else known[MinKey(known)]
    ensures IsSenderVictim(entries, s, h)
  {
    FirstOfSender(entries, Unsolicited, tiers[0], s);
    FirstOfSender(entries, KnownSender, tiers[1], s);
    forall g | g in From(entries, s) && entries[g].tier != Solicited && g != h
      ensures entries[h].age < entries[g].age
    {
      assert !SameAge(entries, g, h);
      if entries[g].tier == Unsolicited {
        assert entries[g].age in low;
      } else {
        assert entries[g].age in known;
      }
    }
  }

  lemma OldestIsUnique(entries: Entries, upTo: Tier, h: Hash)
    requires IsOldest(entries, upTo, h)
    ensures Oldest(entries, upTo) == h
  {
  }

  lemma SenderVictimIsUnique(entries: Entries, s: Validator, h: Hash)
    requires IsSenderVictim(entries, s, h)
    ensures HasSenderVictim(entries, s) && h == SenderVictim(entries, s)
  {
  }

  // ---- Eviction ----

  lemma NothingKeptHasRoom(limits: Limits, entries: Entries)
    ensures HasRoom(limits, Kept(entries, Solicited), 0, 0)
  {
    assert Evictable(entries, Solicited) == entries.Keys;
    assert Kept(entries, Solicited) == map[];
  }

  lemma LimitsKeepCoherent(area: Area, limits: Limits)
    requires Coherent(area)
    ensures Coherent(area.(limits := limits))
  {
    forall h ensures InPlace(area.(limits := limits), h) {
      assert InPlace(area, h);
    }
  }

  /** Entries that leave no room although the protected ones do hold a victim. */
  lemma CrowdedHasVictim(limits: Limits, entries: Entries, upTo: Tier, blocks: nat, bytes: nat)
    requires HasRoom(limits, Kept(entries, upTo), blocks, bytes) && !HasRoom(limits, entries, blocks, bytes)
    ensures Evictable(entries, upTo) != {}
  {
    if Evictable(entries, upTo) == {} {
      KeptIsAll(entries, upTo);
    }
  }

  /** Between two turns of the loop: what was taken, then what is still due. */
  ghost predicate Evicting(
      limits: Limits, start: Entries, entries: Entries, upTo: Tier, blocks: nat, bytes: nat, evicted: seq<Hash>)
  {
    && HasRoom(limits, Kept(entries, upTo), blocks, bytes)
    && entries == start - Members(evicted)
    && Victims(limits, start, upTo, blocks, bytes) == evicted + Victims(limits, entries, upTo, blocks, bytes)
  }

  lemma EvictingStarts(limits: Limits, start: Entries, upTo: Tier, blocks: nat, bytes: nat)
    requires HasRoom(limits, Kept(start, upTo), blocks, bytes)
    ensures Evicting(limits, start, start, upTo, blocks, bytes, [])
  {
    WithoutNothing(start);
  }

  lemma {:induction false} EvictingEnds(
      limits: Limits, start: Entries, entries: Entries, upTo: Tier, blocks: nat, bytes: nat, evicted: seq<Hash>)
    requires Evicting(limits, start, entries, upTo, blocks, bytes, evicted) && HasRoom(limits, entries, blocks, bytes)
    ensures evicted == Victims(limits, start, upTo, blocks, bytes) && entries == start - Members(evicted)
  {
    assert evicted + [] == evicted;
  }

  lemma Associative(a: seq<Hash>, b: seq<Hash>, c: seq<Hash>)
    ensures a + (b + c) == a + b + c
  {
  }

  lemma EvictOne(
      limits: Limits, start: Entries, entries: Entries, upTo: Tier, blocks: nat, bytes: nat,
      evicted: seq<Hash>, h: Hash)
    requires Evicting(limits, start, entries, upTo, blocks, bytes, evicted)
    requires !HasRoom(limits, entries, blocks, bytes) && IsOldest(entries, upTo, h)
    ensures Evicting(limits, start, entries - {h}, upTo, blocks, bytes, evicted + [h])
    ensures (entries - {h}).Keys < entries.Keys
  {
    OldestIsUnique(entries, upTo, h);
    VictimsUnfold(limits, entries, upTo, blocks, bytes);
    KeptWithout(entries, upTo, h);
    MembersOfSnoc(evicted, h);
    WithoutTwice(start, Members(evicted), {h});
    Associative(evicted, [h], Victims(limits, entries - {h}, upTo, blocks, bytes));
  }

  // ---- The area itself ----

  class Inner {
    var limits: Limits
    var entries: Entries
    var tiers: seq<AgeMap>
    var tierBytes: seq<nat>
    var perSender: map<Validator, nat>
    var bytes: nat
    var nextSeq: nat

    ghost function Value(): Area
      reads this
    {
      Area(limits, entries, nextSeq)
    }

    ghost predicate Valid()
      reads this
    {
      Coherent(Value()) && IndexesMatch(entries, tiers, tierBytes, bytes, perSender)
    }

    constructor (limits: Limits)
      ensures Valid() && Value() == Empty(limits) && WithinLimits(Value())
    {
      this.limits := limits;
      entries, tiers, tierBytes := map[], [map[], map[], map[]], [0, 0, 0];
      perSender, bytes, nextSeq := map[], 0, 0;
      new;
      EmptyIsSound(limits);
      forall c: Tier ensures tierBytes[c.Rank()] == TierBytes(entries, c) {
        assert InTier(entries, c) == {};
      }
    }

    /** `Inner::remove`. */
    method Remove(hash: Hash) returns (removed: Option<Entry>)
      requires Valid()
      modifies this
      ensures Valid() && Value() == Discard(old(Value()), hash)
      ensures removed == if hash in old(entries) then Some(old(entries)[hash]) else None
    {
      if hash !in entries {
        assert entries - {hash} == entries;
        return None;
      }
      var entry := entries[hash];
      var tier, size := entry.tier.Rank(), entry.block.size;
      FewerIsCoherent(Value(), limits, {hash});
      IndexesWithout(entries, tiers, tierBytes, bytes, perSender, hash);
      entries, tiers := entries - {hash}, tiers[tier := tiers[tier] - {entry.age}];
      tierBytes, bytes := tierBytes[tier := tierBytes[tier] - size], bytes - size;
      perSender := SenderWithout(perSender, entry.block.sender);
      return Some(entry);
    }

    /** `oldest`: the first entry of the lowest tier that has one. */
    method OldestUpTo(upTo: Tier) returns (victim: Option<Hash>)
      requires Valid()
      ensures victim.None? ==> Evictable(entries, upTo) == {}
      ensures victim.Some? ==> IsOldest(entries, upTo, victim.value)
    {
      var all := [Unsolicited, KnownSender, Solicited];
      for i := 0 to 3
        invariant forall h :: h in Evictable(entries, upTo) ==> entries[h].tier.Rank() >= i
      {
        var c := all[i];
        assert c.Rank() == i && TierMatches(entries, c, tiers[i]);
        if c.Rank() <= upTo.Rank() && tiers[i] != map[] {
          FirstOfTierIsOldest(entries, upTo, c, tiers[i]);
          return Some(tiers[i][MinKey(tiers[i])]);
        }
        if tiers[i] == map[] {
          EmptyTierHoldsNothing(entries, c, tiers[i]);
        }
      }
      return None;
    }

    /** `oldest_unsolicited_from`. */
    method OldestUnsolicitedFrom(s: Validator) returns (victim: Option<Hash>)
      requires Valid()
      ensures victim.Some? <==> Unrequested(entries, s) != {}
      ensures victim.Some? <==> HasSenderVictim(entries, s)
      ensures victim.Some? ==> victim.value == SenderVictim(entries, s)
    {
      SenderVictimExists(entries, s);
      var low, known := OfSender(entries, tiers[0], s), OfSender(entries, tiers[1], s);
      if low == map[] && known == map[] {
        FirstOfSender(entries, Unsolicited, tiers[0], s);
        FirstOfSender(entries, KnownSender, tiers[1], s);
        return None;
      }
      var h: Hash;
      if known == map[] || (low != map[] && MinKey(low) < MinKey(known)) {
        h := low[MinKey(low)];
      } else {
        h := known[MinKey(known)];
      }
      OlderOfTwo(entries, tiers, s, low, known, h);
      SenderVictimIsUnique(entries, s, h);
      return Some(h);
    }

    /** `can_fit`. */
    method CanFitBlock(size: nat, tier: Tier) returns (fits: bool)
      requires Valid()
      ensures fits == CanFit(Value(), size, tier)
    {
      var keptBlocks, keptBytes := 0, 0;
      var all := [Unsolicited, KnownSender, Solicited];
      for i := 0 to 3
        invariant keptBlocks == (if i > 1 && tier == Unsolicited then |tiers[1]| else 0)
                                + (if i > 2 && tier != Solicited then |tiers[2]| else 0)
        invariant keptBytes == (if i > 1 && tier == Unsolicited then tierBytes[1] else 0)
                               + (if i > 2 && tier != Solicited then tierBytes[2] else 0)
      {
        if all[i].Rank() > tier.Rank() {
          keptBlocks := keptBlocks + |tiers[i]|;
          keptBytes := keptBytes + tierBytes[i];
        }
      }
      KeptTotals(entries, tiers, tierBytes, bytes, tier);
      return keptBlocks < limits.maxBlocks && keptBytes + size <= limits.maxBytes;
    }

    /** `promote`. */
    method PromoteEntry(hash: Hash, tier: Tier)
      requires Valid()
      modifies this
      ensures Valid() && Value() == old(Value()).(entries := Promote(old(entries), hash, tier))
    {
      if hash !in entries || tier.Rank() <= entries[hash].tier.Rank() {
        return;
      }
      var entry := entries[hash];
      var from, to := entry.tier.Rank(), tier.Rank();
      IndexesPromoted(entries, tiers, tierBytes, bytes, perSender, hash, tier);
      PromoteIsCoherent(Value(), hash, tier);
      entries := entries[hash := entry.(tier := tier)];
      tiers := tiers[from := tiers[from] - {entry.age}];
      tierBytes := tierBytes[from := tierBytes[from] - entry.block.size];
      tiers := tiers[to := File(tiers[to], entry.age, hash)];
      tierBytes := tierBytes[to := tierBytes[to] + entry.block.size];
    }

    /** One turn of the eviction loops. */
    method EvictOldest(upTo: Tier) returns (victim: Option<Hash>)
      requires Valid()
      modifies this
      ensures Valid() && limits == old(limits) && nextSeq == old(nextSeq)
      ensures victim.None? ==> Evictable(entries, upTo) == {} && entries == old(entries)
      ensures victim.Some? ==> IsOldest(old(entries), upTo, victim.value) && entries == old(entries) - {victim.value}
    {
      victim := OldestUpTo(upTo);
      if victim.Some? {
        var _ := Remove(victim.value);
      }
    }

    /** The eviction loop: it stops as soon as there is room, having taken
        exactly the victims the order names. */
    method MakeRoom(upTo: Tier, blocks: nat, size: nat) returns (evicted: seq<Hash>)
      requires Valid() && HasRoom(limits, Kept(entries, upTo), blocks, size)
      modifies this
      ensures Valid() && limits == old(limits) && nextSeq == old(nextSeq)
      ensures evicted == Victims(limits, old(entries), upTo, blocks, size)
      ensures entries == old(entries) - Members(evicted)
      ensures HasRoom(limits, entries, blocks, size)
    {
      evicted := [];
      ghost var start := entries;
      EvictingStarts(limits, start, upTo, blocks, size);
      while |entries| + blocks > limits.maxBlocks || bytes + size > limits.maxBytes
        invariant Valid() && limits == old(limits) && nextSeq == old(nextSeq)
        invariant Evicting(limits, start, entries, upTo, blocks, size, evicted)
        decreases entries.Keys
      {
        ghost var before := entries;
        CrowdedHasVictim(limits, entries, upTo, blocks, size);
        var victim := EvictOldest(upTo);
        if victim.None? {
          assert false;
        }
        EvictOne(limits, start, before, upTo, blocks, size, evicted, victim.value);
        evicted := evicted + [victim.value];
      }
      EvictingEnds(limits, start, entries, upTo, blocks, size, evicted);
    }

    /** Removes the quota's victim, if there is one. */
    method RemoveFirst(quota: seq<Hash>)
      requires Valid() && |quota| <= 1
      modifies this
      ensures Valid() && limits == old(limits) && nextSeq == old(nextSeq)
      ensures entries == old(entries) - Members(quota)
    {
      if quota == [] {
        WithoutNothing(entries);
      } else {
        assert Members(quota) == {quota[0]};
        var _ := Remove(quota[0]);
      }
    }

    /** Filing a block the area does not hold, at the end of `insert_as`. */
    method FileEntry(b: Block, tier: Tier)
      requires Valid() && b.hash !in entries
      modifies this
      ensures Valid() && limits == old(limits) && nextSeq == old(nextSeq) + 1
      ensures entries == old(entries)[b.hash := Entry(b, tier, old(nextSeq))]
    {
      var seq_, k := nextSeq, tier.Rank();
      var entry := Entry(b, tier, seq_);
      forall g | g in entries ensures entries[g].age != entry.age {
        assert InPlace(Value(), g);
      }
      FilingIsCoherent(Value(), entries, b, tier);
      IndexesWith(entries, tiers, tierBytes, bytes, perSender, b.hash, entry);
      nextSeq := nextSeq + 1;
      perSender := perSender[b.sender := Count(perSender, b.sender) + 1];
      bytes := bytes + b.size;
      tiers := tiers[k := File(tiers[k], seq_, b.hash)];
      tierBytes := tierBytes[k := tierBytes[k] + b.size];
      entries := entries[b.hash := entry];
    }

    /** The second half of `insert_as`, once the block is known to fit. */
    method Admit(b: Block, tier: Tier, quota: seq<Hash>) returns (evicted: seq<Hash>)
      requires Valid() && Admits(Value(), b, tier) && QuotaVictims(Value(), b, tier) == Ok(quota)
      modifies this
      ensures Valid() && Value() == Admitted(old(Value()), b, tier)
      ensures evicted == quota + RoomVictims(old(Value()), b, tier)
    {
      QuotaKeepsHigherTiers(Value(), b, tier);
      RemoveFirst(quota);
      var room := MakeRoom(tier, 1, b.size);
      assert room == RoomVictims(old(Value()), b, tier);
      assert entries == Survivors(old(Value()), b, tier);
      FileEntry(b, tier);
      return quota + room;
    }

    /** `insert_as`. Its second AreaFull exit, out of the eviction loop, is never
        taken: `CanFitBlock` has promised the loop a victim. */
    method Insert(b: Block, tier: Tier) returns (outcome: Outcome)
      requires Valid() && WithinLimits(Value())
      modifies this
      ensures Valid() && WithinLimits(Value())
      ensures (Value(), outcome) == InsertAs(old(Value()), b, tier)
    {
      InsertKeepsInvariant(Value(), b, tier);
      if b.hash in entries {
        PromoteEntry(b.hash, tier);
        return Outcome(Accepted, []);
      }
      if b.size > limits.maxBytes {
        return Outcome(TooLarge, []);
      }
      assert Counted(entries, perSender, b.sender);
      var quota: seq<Hash> := [];
      if Count(perSender, b.sender) >= limits.maxPerSender {
        if tier != Solicited {
          return Outcome(SenderLimitReached, []);
        }
        var victim := OldestUnsolicitedFrom(b.sender);
        if victim.None? {
          return Outcome(SenderLimitReached, []);
        }
        quota := [victim.value];
      }
      var fits := CanFitBlock(b.size, tier);
      if !fits {
        return Outcome(AreaFull, []);
      }
      var evicted := Admit(b, tier, quota);
      return Outcome(Accepted, evicted);
    }

    /** `set_limits`. */
    method Resize(newLimits: Limits) returns (evicted: seq<Hash>)
      requires Valid()
      modifies this
      ensures Valid() && WithinLimits(Value())
      ensures (Value(), evicted) == SetLimits(old(Value()), newLimits)
    {
      SetLimitsKeepsInvariant(Value(), newLimits);
      LimitsKeepCoherent(Value(), newLimits);
      NothingKeptHasRoom(newLimits, entries);
      limits := newLimits;
      evicted := MakeRoom(Solicited, 0, 0);
    }
  }
}
