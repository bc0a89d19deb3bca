/** The pending-block area as a value: what an insert, a removal and a change of
    limits do, and what they promise. */
module PendingArea {
  import opened Prelude
  import opened Dag
  import opened Seqs
  import Orders
  import Sums

  /** Eviction classes, cheapest first. */
  datatype Tier = Unsolicited | KnownSender | Solicited {
    function Rank(): nat {
      match this
      case Unsolicited => 0
      case KnownSender => 1
      case Solicited => 2
    }
  }

  /** A block message; `size` is the length of its encoding and `body` whatever
      else the encoding carries. */
  datatype Block = Block(hash: Hash, sender: Validator, body: nat, size: nat)

  datatype Entry = Entry(block: Block, tier: Tier, age: nat)

  datatype Limits = Limits(maxBlocks: nat, maxBytes: nat, maxPerSender: nat)

  type Entries = map<Hash, Entry>

  datatype Area = Area(limits: Limits, entries: Entries, nextSeq: nat)

  datatype InsertStatus = Accepted | SenderLimitReached | AreaFull | TooLarge

  datatype Outcome = Outcome(status: InsertStatus, evicted: seq<Hash>)

  // ---- Projections of the entries ----

  function Size(entries: Entries, h: Hash): nat {
    if h in entries then entries[h].block.size else 0
  }

  ghost function Bytes(entries: Entries): int {
    Sums.Sum(entries.Keys, h => Size(entries, h))
  }

  function InTier(entries: Entries, c: Tier): set<Hash> {
    set h | h in entries && entries[h].tier == c
  }

  ghost function TierBytes(entries: Entries, c: Tier): int {
    Sums.Sum(InTier(entries, c), h => Size(entries, h))
  }

  function From(entries: Entries, s: Validator): set<Hash> {
    set h | h in entries && entries[h].block.sender == s
  }

  ghost predicate SameAge(entries: Entries, g: Hash, h: Hash) {
    g in entries && h in entries && entries[g].age == entries[h].age
  }

  ghost predicate AgesDiffer(entries: Entries) {
    forall g, h {:trigger SameAge(entries, g, h)} :: SameAge(entries, g, h) ==> g == h
  }

  lemma FewerAgesDiffer(entries: Entries, out: set<Hash>)
    requires AgesDiffer(entries)
    ensures AgesDiffer(entries - out)
  {
    forall g, h | SameAge(entries - out, g, h) ensures g == h {
      assert SameAge(entries, g, h);
    }
  }

  ghost predicate InPlace(area: Area, h: Hash) {
    h in area.entries ==> area.entries[h].block.hash == h && area.entries[h].age < area.nextSeq
  }

  /** Entries are filed under their own hash and no two share an age. */
  ghost predicate Coherent(area: Area) {
    && (forall h {:trigger InPlace(area, h)} :: InPlace(area, h))
    && AgesDiffer(area.entries)
  }

  /** Room for `blocks` more entries and `bytes` more bytes. */
  ghost predicate HasRoom(limits: Limits, entries: Entries, blocks: nat, bytes: nat) {
    |entries| + blocks <= limits.maxBlocks && Bytes(entries) + bytes <= limits.maxBytes
  }

  ghost predicate WithinLimits(area: Area) {
    HasRoom(area.limits, area.entries, 0, 0)
  }

  // ---- Eviction order ----

  /** (tier, age), lexicographically. */
  predicate Older(e: Entry, f: Entry) {
    e.tier.Rank() < f.tier.Rank() || (e.tier == f.tier && e.age < f.age)
  }

  function Evictable(entries: Entries, upTo: Tier): set<Hash> {
    set h | h in entries && entries[h].tier.Rank() <= upTo.Rank()
  }

  ghost predicate IsOldest(entries: Entries, upTo: Tier, h: Hash) {
    && h in Evictable(entries, upTo)
    && forall g :: g in Evictable(entries, upTo) && g != h ==> Older(entries[h], entries[g])
  }

  /** Ages differ, so whenever something is evictable something is oldest. */
  lemma OldestExists(entries: Entries, upTo: Tier)
    requires AgesDiffer(entries) && Evictable(entries, upTo) != {}
    ensures exists h :: IsOldest(entries, upTo, h)
  {
    var s := Evictable(entries, upTo);
    var less: (Hash, Hash) -> bool := (a, b) => a in entries && b in entries && Older(entries[a], entries[b]);
    forall a, b | a in s && b in s ensures a == b || less(a, b) || less(b, a) {
      assert SameAge(entries, a, b) ==> a == b;
    }
    Orders.LeastExists(s, less);
    var h :| Orders.IsLeast(s, less, h);
    assert IsOldest(entries, upTo, h);
  }

  ghost function Oldest(entries: Entries, upTo: Tier): (h: Hash)
    requires exists h :: IsOldest(entries, upTo, h)
    ensures IsOldest(entries, upTo, h)
  {
    var h :| IsOldest(entries, upTo, h);
    h
  }

  /** The victims taken, oldest first, until there is room or nothing of tier
      `upTo` or below is left. */
  ghost function Victims(limits: Limits, entries: Entries, upTo: Tier, blocks: nat, bytes: nat): seq<Hash>
    decreases |entries|
  {
    if HasRoom(limits, entries, blocks, bytes) || !exists h :: IsOldest(entries, upTo, h) then []
    else
      var h := Oldest(entries, upTo);
      [h] + Victims(limits, entries - {h}, upTo, blocks, bytes)
  }

  // ---- The operations ----

  ghost function Kept(entries: Entries, tier: Tier): Entries {
    entries - Evictable(entries, tier)
  }

  /** `can_fit`: the tiers above `tier` leave room on their own. */
  ghost predicate CanFit(area: Area, size: nat, tier: Tier) {
    HasRoom(area.limits, Kept(area.entries, tier), 1, size)
  }

  /** `promote`. */
  function Promote(entries: Entries, h: Hash, tier: Tier): Entries {
    if h in entries && tier.Rank() > entries[h].tier.Rank()
    then entries[h := entries[h].(tier := tier)]
    else entries
  }

  /** The block of `s` that a requested block may displace: its oldest one that
      was not requested itself. */
  ghost predicate IsSenderVictim(entries: Entries, s: Validator, h: Hash) {
    && h in From(entries, s) && entries[h].tier != Solicited
    && forall g :: g in From(entries, s) && entries[g].tier != Solicited && g != h ==> entries[h].age < entries[g].age
  }

  ghost predicate HasSenderVictim(entries: Entries, s: Validator) {
    exists h :: IsSenderVictim(entries, s, h)
  }

  /** The blocks of a sender that were not asked for. */
  function Unrequested(entries: Entries, s: Validator): set<Hash> {
    set h | h in From(entries, s) && entries[h].tier != Solicited
  }

  /** A sender with any such block has an oldest one. */
  lemma SenderVictimExists(entries: Entries, s: Validator)
    requires AgesDiffer(entries)
    ensures HasSenderVictim(entries, s) <==> Unrequested(entries, s) != {}
  {
    var cs := Unrequested(entries, s);
    if h :| IsSenderVictim(entries, s, h) {
      assert h in cs;
    }
    if cs == {} {
      return;
    }
    var less: (Hash, Hash) -> bool := (a, b) => a in entries && b in entries && entries[a].age < entries[b].age;
    forall a, b | a in cs && b in cs ensures a == b || less(a, b) || less(b, a) {
      assert SameAge(entries, a, b) ==> a == b;
    }
    Orders.LeastExists(cs, less);
    var h :| Orders.IsLeast(cs, less, h);
    assert IsSenderVictim(entries, s, h) by {
      assert forall g :: g in From(entries, s) && entries[g].tier != Solicited ==> g in cs;
    }
  }

  ghost function SenderVictim(entries: Entries, s: Validator): (h: Hash)
    requires HasSenderVictim(entries, s)
    ensures IsSenderVictim(entries, s, h)
  {
    var h :| IsSenderVictim(entries, s, h);
    h
  }

  /** What an insert does before it looks at capacity: a verdict, or the entries
      left after the sender's own victim made way. */
  ghost function QuotaVictims(area: Area, b: Block, tier: Tier): Result<seq<Hash>, InsertStatus>
  {
    if |From(area.entries, b.sender)| < area.limits.maxPerSender then Ok([])
    else if tier == Solicited && HasSenderVictim(area.entries, b.sender)
      then Ok([SenderVictim(area.entries, b.sender)])
    else Err(SenderLimitReached)
  }

  /** The victims taken for capacity once the sender's own has gone. */
  ghost function RoomVictims(area: Area, b: Block, tier: Tier): seq<Hash>
    requires QuotaVictims(area, b, tier).Ok?
  {
    Victims(area.limits, area.entries - Members(QuotaVictims(area, b, tier).value), tier, 1, b.size)
  }

  /** The entries an accepted insert of a new block keeps. */
  ghost function Survivors(area: Area, b: Block, tier: Tier): Entries
    requires QuotaVictims(area, b, tier).Ok?
  {
    area.entries - Members(QuotaVictims(area, b, tier).value) - Members(RoomVictims(area, b, tier))
  }

  ghost function Admitted(area: Area, b: Block, tier: Tier): Area
    requires QuotaVictims(area, b, tier).Ok?
  {
    Area(area.limits, Survivors(area, b, tier)[b.hash := Entry(b, tier, area.nextSeq)], area.nextSeq + 1)
  }

  /** `insert_as`. */
  ghost function InsertAs(area: Area, b: Block, tier: Tier): (r: (Area, Outcome))
  {
    if b.hash in area.entries then
      (area.(entries := Promote(area.entries, b.hash, tier)), Outcome(Accepted, []))
    else if b.size > area.limits.maxBytes then (area, Outcome(TooLarge, []))
    else
      match QuotaVictims(area, b, tier)
      case Err(status) => (area, Outcome(status, []))
      case Ok(quota) =>
        if !CanFit(area, b.size, tier) then (area, Outcome(AreaFull, []))
        else (Admitted(area, b, tier), Outcome(Accepted, quota + RoomVictims(area, b, tier)))
  }

  ghost function SetLimits(area: Area, limits: Limits): (Area, seq<Hash>)
  {
    var out := Victims(limits, area.entries, Solicited, 0, 0);
    (Area(limits, area.entries - Members(out), area.nextSeq), out)
  }

  function Discard(area: Area, h: Hash): Area {
    area.(entries := area.entries - {h})
  }
}
