/** Slash authorization on both sides: the proposer's enumeration and the
    receiver's check. */
module Slashing {
  import opened Prelude
  import opened Dag
  import Orders

  datatype SlashError =
    | NumberOverflow
    | InvalidEpochLength
    | NegativeBlockNumber
    | NegativeSequenceNumber
    | IssuerMismatch
    | EpochMismatch
    | ReferencesUnknownBlock
    | ReferencesValidBlock
    | EvidenceEpochMismatch
    | TargetNotBonded
    | NotAuthorizedByEvidence
    | DuplicateTarget

  /** A block flagged invalid, with the metadata kept beside it. */
  datatype Evidence = Evidence(hash: Hash, meta: Meta)

  datatype Snapshot = Snapshot(
    dag: Blocks,
    invalidBlocks: set<Evidence>,
    bonds: map<Validator, int>,
    epochLength: int,
    maxBlockNum: Int64,
    lastFinalized: Hash)

  datatype Candidate = Candidate(offender: Validator, evidence: Hash, epoch: int)

  function Bond(bonds: map<Validator, int>, v: Validator): int {
    if v in bonds then bonds[v] else 0
  }

  /** `epoch_for_block_number`. */
  function EpochFor(number: int, epochLength: int): Result<int, SlashError> {
    if epochLength <= 0 then Err(InvalidEpochLength)
    else if number < 0 then Err(NegativeBlockNumber)
    else Ok(number / epochLength)
  }

  lemma ProductsGrow(a: int, b: int, n: int)
    requires a < b && n > 0
    ensures (a + 1) * n <= b * n
  {
    assert b * n - (a + 1) * n == (b - a - 1) * n;
  }

  /** An epoch is a window of `epochLength` consecutive block numbers. */
  lemma EpochIsAWindow(number: nat, epochLength: int, epoch: int)
    requires epochLength > 0
    ensures EpochFor(number, epochLength) == Ok(epoch) <==> epoch * epochLength <= number < (epoch + 1) * epochLength
  {
    var q := number / epochLength;
    assert number == q * epochLength + number % epochLength;
    assert (q + 1) * epochLength == q * epochLength + epochLength;
    if epoch < q {
      ProductsGrow(epoch, q, epochLength);
    } else if epoch > q {
      ProductsGrow(q, epoch, epochLength);
    }
  }

  /** The number lies in the epoch's window. */
  ghost predicate InEpoch(number: int, epochLength: int, epoch: int) {
    epochLength > 0 && number >= 0 && epoch * epochLength <= number < (epoch + 1) * epochLength
  }

  /** Numbers below zero and empty epochs have no epoch; every other number has the one
      whose window it is in. */
  lemma EpochIff(number: int, epochLength: int, epoch: int)
    ensures EpochFor(number, epochLength) == Ok(epoch) <==> InEpoch(number, epochLength, epoch)
    ensures EpochFor(number, epochLength) == Err(InvalidEpochLength) <==> epochLength <= 0
    ensures EpochFor(number, epochLength) == Err(NegativeBlockNumber) <==> epochLength > 0 && number < 0
  {
    if epochLength > 0 && number >= 0 {
      EpochIsAWindow(number, epochLength, epoch);
    }
  }

  /** `received_slash_deploy_authorized`. */
  function Authorized(refNumber: int, evidenceNumber: int, epoch: int, epochLength: int, bond: int, invalid: bool)
    : Result<bool, SlashError>
  {
    match EpochFor(refNumber, epochLength)
    case Err(e) => Err(e)
    case Ok(current) =>
      match EpochFor(evidenceNumber, epochLength)
      case Err(e) => Err(e)
      case Ok(evidence) => Ok(epoch == current && epoch == evidence && bond > 0 && invalid)
  }

  // ---- The proposer ----

  /** Evidence that justifies a slash in `epoch`: current and against a bonded
      validator. */
  predicate Qualifies(s: Snapshot, epoch: int, m: Evidence) {
    && m.meta.invalid
    && EpochFor(m.meta.number, s.epochLength) == Ok(epoch)
    && Bond(s.bonds, m.meta.sender) > 0
  }

  ghost predicate Offends(s: Snapshot, epoch: int, found: set<Evidence>, v: Validator) {
    exists m :: m in found && Qualifies(s, epoch, m) && m.meta.sender == v
  }

  /** `c` slashes its offender on the least hash among the evidence found. */
  ghost predicate IsLeastEvidence(s: Snapshot, epoch: int, found: set<Evidence>, c: Candidate) {
    && c.epoch == epoch
    && (exists m :: m in found && Qualifies(s, epoch, m) && m.meta.sender == c.offender && m.hash == c.evidence)
    && forall m :: m in found && Qualifies(s, epoch, m) && m.meta.sender == c.offender ==> c.evidence <= m.hash
  }

  ghost predicate Collected(s: Snapshot, epoch: int, found: set<Evidence>, byOffender: map<Validator, Candidate>) {
    && (forall v :: v in byOffender <==> Offends(s, epoch, found, v))
    && forall v :: v in byOffender ==> byOffender[v].offender == v && IsLeastEvidence(s, epoch, found, byOffender[v])
  }

  /** One turn of the proposer's loop. */
  function Collect(s: Snapshot, epoch: int, byOffender: map<Validator, Candidate>, m: Evidence)
    : map<Validator, Candidate>
  {
    if !Qualifies(s, epoch, m) then byOffender
    else
      var v, c := m.meta.sender, Candidate(m.meta.sender, m.hash, epoch);
      if v !in byOffender || c.evidence < byOffender[v].evidence then byOffender[v := c] else byOffender
  }

  lemma CollectIrrelevant(s: Snapshot, epoch: int, found: set<Evidence>, m: Evidence, v: Validator)
    requires !Qualifies(s, epoch, m) || m.meta.sender != v
    ensures Offends(s, epoch, found + {m}, v) <==> Offends(s, epoch, found, v)
    ensures forall c: Candidate :: c.offender == v ==>
              (IsLeastEvidence(s, epoch, found + {m}, c) <==> IsLeastEvidence(s, epoch, found, c))
  {
    forall x | x in found && Qualifies(s, epoch, x) && x.meta.sender == v ensures x in found + {m} {
    }
  }

  lemma CollectOffender(
      s: Snapshot, epoch: int, found: set<Evidence>, byOffender: map<Validator, Candidate>, m: Evidence)
    requires Collected(s, epoch, found, byOffender) && Qualifies(s, epoch, m)
    ensures var v := m.meta.sender;
            && Offends(s, epoch, found + {m}, v) && v in Collect(s, epoch, byOffender, m)
            && Collect(s, epoch, byOffender, m)[v].offender == v
            && IsLeastEvidence(s, epoch, found + {m}, Collect(s, epoch, byOffender, m)[v])
  {
    var v := m.meta.sender;
    assert m in found + {m};
    var c := Collect(s, epoch, byOffender, m)[v];
    if v in byOffender && c == byOffender[v] {
      var old' :| old' in found && Qualifies(s, epoch, old') && old'.meta.sender == v && old'.hash == c.evidence;
      assert old' in found + {m};
    } else if v !in byOffender {
      assert !Offends(s, epoch, found, v);
    }
  }

  lemma CollectStep(s: Snapshot, epoch: int, found: set<Evidence>, byOffender: map<Validator, Candidate>, m: Evidence)
    requires Collected(s, epoch, found, byOffender)
    ensures Collected(s, epoch, found + {m}, Collect(s, epoch, byOffender, m))
  {
    var after := Collect(s, epoch, byOffender, m);
    forall v
      ensures v in after <==> Offends(s, epoch, found + {m}, v)
      ensures v in after ==> after[v].offender == v && IsLeastEvidence(s, epoch, found + {m}, after[v])
    {
      if Qualifies(s, epoch, m) && m.meta.sender == v {
        CollectOffender(s, epoch, found, byOffender, m);
      } else {
        CollectIrrelevant(s, epoch, found, m, v);
      }
    }
  }

  // ---- Ordered output ----

  lemma LeastKeyExists(byOffender: map<Validator, Candidate>)
    requires byOffender != map[]
    ensures exists v :: v in byOffender && forall u :: u in byOffender ==> v <= u
  {
    var less: (Validator, Validator) -> bool := (a, b) => a < b;
    assert byOffender.Keys != {};
    Orders.LeastExists(byOffender.Keys, less);
    var v :| Orders.IsLeast(byOffender.Keys, less, v);
    assert forall u :: u in byOffender ==> v <= u;
  }

  function LeastKey(byOffender: map<Validator, Candidate>): (v: Validator)
    requires byOffender != map[]
    ensures v in byOffender && forall u :: u in byOffender ==> v <= u
  {
    LeastKeyExists(byOffender);
    var v :| v in byOffender && forall u :: u in byOffender ==> v <= u;
    v
  }

  /** The values of an ordered map, in key order. */
  function InKeyOrder(byOffender: map<Validator, Candidate>): seq<Candidate>
    decreases |byOffender|
  {
    if byOffender == map[] then []
    else
      var v := LeastKey(byOffender);
      [byOffender[v]] + InKeyOrder(byOffender - {v})
  }

  ghost predicate ListsValues(byOffender: map<Validator, Candidate>, cs: seq<Candidate>) {
    forall c :: c in cs <==> c.offender in byOffender && byOffender[c.offender] == c
  }

  ghost predicate Ascending(cs: seq<Candidate>) {
    forall i, j :: 0 <= i < j < |cs| ==> cs[i].offender < cs[j].offender
  }

  lemma AscendingCons(c: Candidate, cs: seq<Candidate>)
    requires Ascending(cs) && forall d :: d in cs ==> c.offender < d.offender
    ensures Ascending([c] + cs)
  {
  }

  lemma ListsCons(byOffender: map<Validator, Candidate>, v: Validator, rest: seq<Candidate>)
    requires v in byOffender && byOffender[v].offender == v && ListsValues(byOffender - {v}, rest)
    ensures ListsValues(byOffender, [byOffender[v]] + rest)
    ensures forall d :: d in rest ==> d.offender in byOffender && d.offender != v
  {
  }

  lemma {:induction false} InKeyOrderLists(byOffender: map<Validator, Candidate>)
    requires forall v :: v in byOffender ==> byOffender[v].offender == v
    ensures ListsValues(byOffender, InKeyOrder(byOffender)) && Ascending(InKeyOrder(byOffender))
    decreases |byOffender|
  {
    if byOffender != map[] {
      var v := LeastKey(byOffender);
      var rest := InKeyOrder(byOffender - {v});
      InKeyOrderLists(byOffender - {v});
      ListsCons(byOffender, v, rest);
      AscendingCons(byOffender[v], rest);
    }
  }

  /** The node's own finalized frontier is in a later epoch than its view. */
  predicate Suppressed(s: Snapshot, epoch: int) {
    && s.lastFinalized in s.dag
    && EpochFor(s.dag[s.lastFinalized].number, s.epochLength).Ok?
    && EpochFor(s.dag[s.lastFinalized].number, s.epochLength).value > epoch
  }

  /** Exactly one candidate per offender, on its least evidence, by offender. */
  ghost predicate AreCandidates(s: Snapshot, epoch: int, cs: seq<Candidate>) {
    && (forall i :: 0 <= i < |cs| ==> IsLeastEvidence(s, epoch, s.invalidBlocks, cs[i]))
    && (forall v :: Offends(s, epoch, s.invalidBlocks, v) ==> exists i :: 0 <= i < |cs| && cs[i].offender == v)
    && Ascending(cs)
  }

  /** Issuance is suppressed exactly when the last finalized block is numbered past the
      window of the epoch. */
  lemma SuppressedIff(s: Snapshot, epoch: int)
    ensures Suppressed(s, epoch) <==>
            && s.lastFinalized in s.dag && s.epochLength > 0 && s.dag[s.lastFinalized].number >= 0
            && s.dag[s.lastFinalized].number >= (epoch + 1) * s.epochLength
  {
    if s.lastFinalized in s.dag && s.epochLength > 0 && s.dag[s.lastFinalized].number >= 0 {
      var number := s.dag[s.lastFinalized].number;
      var final := number / s.epochLength;
      EpochIsAWindow(number, s.epochLength, final);
      if final > epoch {
        ProductsGrow(epoch, final, s.epochLength);
      } else if final < epoch {
        ProductsGrow(final, epoch, s.epochLength);
        assert (epoch + 1) * s.epochLength == epoch * s.epochLength + s.epochLength;
      }
    }
  }

  /** An offender is a bonded validator with an invalid block in the epoch's window. */
  lemma OffendsIff(s: Snapshot, epoch: int, v: Validator)
    ensures Offends(s, epoch, s.invalidBlocks, v) <==>
            && v in s.bonds && s.bonds[v] > 0
            && exists m :: m in s.invalidBlocks && m.meta.sender == v && m.meta.invalid
                           && InEpoch(m.meta.number, s.epochLength, epoch)
  {
    forall m: Evidence
      ensures EpochFor(m.meta.number, s.epochLength) == Ok(epoch) <==> InEpoch(m.meta.number, s.epochLength, epoch)
    {
      EpochIff(m.meta.number, s.epochLength, epoch);
    }
    if v in s.bonds && s.bonds[v] > 0 {
      if m :| m in s.invalidBlocks && m.meta.sender == v && m.meta.invalid
              && InEpoch(m.meta.number, s.epochLength, epoch) {
        assert Qualifies(s, epoch, m);
      }
    }
  }

  /** What the proposer issues. */
  ghost predicate AreIssued(s: Snapshot, epoch: int, cs: seq<Candidate>) {
    if Suppressed(s, epoch) then cs == [] else AreCandidates(s, epoch, cs)
  }

  lemma {:induction false} CollectedAreCandidates(s: Snapshot, epoch: int, byOffender: map<Validator, Candidate>)
    requires Collected(s, epoch, s.invalidBlocks, byOffender)
    ensures AreCandidates(s, epoch, InKeyOrder(byOffender))
  {
    InKeyOrderLists(byOffender);
    var cs := InKeyOrder(byOffender);
    forall i | 0 <= i < |cs| ensures IsLeastEvidence(s, epoch, s.invalidBlocks, cs[i]) {
      assert cs[i] in cs;
    }
    forall v | Offends(s, epoch, s.invalidBlocks, v) ensures exists i :: 0 <= i < |cs| && cs[i].offender == v {
      assert byOffender[v] in cs;
    }
  }

  /** `authorized_slash_candidates`: the evidence may come in any order. */
  method AuthorizedSlashCandidates(s: Snapshot) returns (r: Result<seq<Candidate>, SlashError>)
    ensures s.maxBlockNum == I64_MAX ==> r == Err(NumberOverflow)
    ensures s.maxBlockNum < I64_MAX && r.Err? ==>
              || EpochFor(s.maxBlockNum + 1, s.epochLength) == Err(r.error)
              || (s.lastFinalized in s.dag && EpochFor(s.dag[s.lastFinalized].number, s.epochLength) == Err(r.error))
    ensures r.Ok? ==> s.maxBlockNum < I64_MAX && EpochFor(s.maxBlockNum + 1, s.epochLength).Ok?
    ensures r.Ok? ==> AreIssued(s, EpochFor(s.maxBlockNum + 1, s.epochLength).value, r.value)
  {
    if s.maxBlockNum == I64_MAX {
      return Err(NumberOverflow);
    }
    var current := EpochFor(s.maxBlockNum + 1, s.epochLength);
    if current.Err? {
      return Err(current.error);
    }
    var epoch := current.value;
    if s.lastFinalized in s.dag {
      var lfbEpoch := EpochFor(s.dag[s.lastFinalized].number, s.epochLength);
      if lfbEpoch.Err? {
        return Err(lfbEpoch.error);
      }
      if lfbEpoch.value > epoch {
        return Ok([]);
      }
    }
    var byOffender: map<Validator, Candidate> := map[];
    var todo := s.invalidBlocks;
    ghost var found: set<Evidence> := {};
    while todo != {}
      invariant todo <= s.invalidBlocks && found == s.invalidBlocks - todo
      invariant Collected(s, epoch, found, byOffender)
      decreases todo
    {
      var m :| m in todo;
      todo := todo - {m};
      CollectStep(s, epoch, found, byOffender, m);
      byOffender := Collect(s, epoch, byOffender, m);
      found := found + {m};
    }
    assert found == s.invalidBlocks;
    CollectedAreCandidates(s, epoch, byOffender);
    return Ok(InKeyOrder(byOffender));
  }

  lemma CandidateIsInOther(s: Snapshot, epoch: int, cs: seq<Candidate>, ds: seq<Candidate>, c: Candidate)
    requires AreCandidates(s, epoch, cs) && AreCandidates(s, epoch, ds) && c in cs
    ensures c in ds
  {
    assert IsLeastEvidence(s, epoch, s.invalidBlocks, c);
    assert Offends(s, epoch, s.invalidBlocks, c.offender);
    var i :| 0 <= i < |ds| && ds[i].offender == c.offender;
    assert IsLeastEvidence(s, epoch, s.invalidBlocks, ds[i]);
    assert ds[i] == c;
  }

  /** Ascending lists of the same candidates begin alike. */
  lemma SameHead(cs: seq<Candidate>, ds: seq<Candidate>)
    requires Ascending(cs) && Ascending(ds) && cs != [] && ds != [] && cs[0] in ds && ds[0] in cs
    ensures cs[0] == ds[0]
  {
    var i :| 0 <= i < |ds| && ds[i] == cs[0];
    var j :| 0 <= j < |cs| && cs[j] == ds[0];
  }

  lemma TailMember(cs: seq<Candidate>, c: Candidate)
    requires Ascending(cs) && cs != []
    ensures c in cs[1..] <==> c in cs && c != cs[0]
  {
    if c in cs && c != cs[0] {
      var i :| 0 <= i < |cs| && cs[i] == c;
      assert cs[1..][i - 1] == c;
    }
  }

  lemma SameParts(cs: seq<Candidate>, ds: seq<Candidate>)
    requires cs != [] && ds != [] && cs[0] == ds[0] && cs[1..] == ds[1..]
    ensures cs == ds
  {
    assert cs == [cs[0]] + cs[1..] && ds == [ds[0]] + ds[1..];
  }

  lemma {:induction false} AscendingIsUnique(cs: seq<Candidate>, ds: seq<Candidate>)
    requires Ascending(cs) && Ascending(ds) && forall c :: c in cs <==> c in ds
    ensures cs == ds
    decreases |cs|
  {
    assert cs != [] ==> cs[0] in cs;
    assert ds != [] ==> ds[0] in ds;
    if cs != [] && ds != [] {
      SameHead(cs, ds);
      forall c ensures c in cs[1..] <==> c in ds[1..] {
        TailMember(cs, c);
        TailMember(ds, c);
      }
      AscendingIsUnique(cs[1..], ds[1..]);
      SameParts(cs, ds);
    }
  }

  /** Every node that reads the same snapshot proposes the same slashes. */
  lemma CandidatesAreUnique(s: Snapshot, epoch: int, cs: seq<Candidate>, ds: seq<Candidate>)
    requires AreCandidates(s, epoch, cs) && AreCandidates(s, epoch, ds)
    ensures cs == ds
  {
    forall c ensures c in cs <==> c in ds {
      if c in cs { CandidateIsInOther(s, epoch, cs, ds, c); }
      if c in ds { CandidateIsInOther(s, epoch, ds, cs, c); }
    }
    AscendingIsUnique(cs, ds);
  }

  // ---- The receiver ----

  /** System deploys, as far as slashing goes. */
  datatype SystemDeploy = Slash(evidence: Hash, issuer: Validator, epoch: int) | OtherDeploy

  datatype Block = Block(
    number: int,
    seqNum: int,
    sender: Validator,
    deploys: seq<SystemDeploy>,
    bonds: seq<BondEntry>,
    justifications: seq<Justification>)

  predicate HasSlash(ds: seq<SystemDeploy>) {
    exists i :: 0 <= i < |ds| && ds[i].Slash?
  }

  /** Why one slash deploy is refused on its own. */
  function Fault(b: Block, s: Snapshot, epoch: int, d: SystemDeploy): Option<SlashError>
    requires d.Slash?
  {
    if d.issuer == 0 || d.issuer != b.sender then Some(IssuerMismatch)
    else if d.epoch != epoch then Some(EpochMismatch)
    else if d.evidence !in s.dag then Some(ReferencesUnknownBlock)
    else
      var m := s.dag[d.evidence];
      if !m.invalid then Some(ReferencesValidBlock)
      else
        match EpochFor(m.number, s.epochLength)
        case Err(e) => Some(e)
        case Ok(evidenceEpoch) =>
          if evidenceEpoch != d.epoch then Some(EvidenceEpochMismatch)
          else if Bond(s.bonds, m.sender) <= 0 then Some(TargetNotBonded)
          else
            match Authorized(b.number, m.number, d.epoch, s.epochLength, Bond(s.bonds, m.sender), m.invalid)
            case Err(e) => Some(e)
            case Ok(authorized) => if authorized then None else Some(NotAuthorizedByEvidence)
  }

  /** The slash is the sender's own, for this epoch, against a bonded validator with a
      block that is held, invalid and in the epoch's window. */
  ghost predicate Justified(b: Block, s: Snapshot, epoch: int, d: SystemDeploy)
    requires d.Slash?
  {
    && d.issuer == b.sender && b.sender != 0 && d.epoch == epoch
    && d.evidence in s.dag && s.dag[d.evidence].invalid
    && InEpoch(s.dag[d.evidence].number, s.epochLength, epoch)
    && s.dag[d.evidence].sender in s.bonds && s.bonds[s.dag[d.evidence].sender] > 0
  }

  lemma FaultlessIff(b: Block, s: Snapshot, epoch: int, d: SystemDeploy)
    requires d.Slash? && EpochFor(b.number, s.epochLength) == Ok(epoch)
    ensures Fault(b, s, epoch, d).None? <==> Justified(b, s, epoch, d)
  {
    if d.evidence in s.dag {
      EpochIff(s.dag[d.evidence].number, s.epochLength, epoch);
    }
  }

  /** What each refusal of one slash means. The last check of the receiver, the one the
      proposer's rule is shared with, refuses nothing the others let through. */
  lemma FaultMeans(b: Block, s: Snapshot, epoch: int, d: SystemDeploy)
    requires d.Slash? && EpochFor(b.number, s.epochLength) == Ok(epoch)
    ensures var fault, own := Fault(b, s, epoch, d), d.issuer == b.sender && b.sender != 0;
            var held := own && d.epoch == epoch && d.evidence in s.dag;
            && (fault == Some(IssuerMismatch) <==> !own)
            && (fault == Some(EpochMismatch) <==> own && d.epoch != epoch)
            && (fault == Some(ReferencesUnknownBlock) <==> own && d.epoch == epoch && d.evidence !in s.dag)
            && (fault == Some(ReferencesValidBlock) <==> held && !s.dag[d.evidence].invalid)
            && (fault == Some(NegativeBlockNumber) <==>
                held && s.dag[d.evidence].invalid && s.dag[d.evidence].number < 0)
            && (fault == Some(EvidenceEpochMismatch) <==>
                held && s.dag[d.evidence].invalid && s.dag[d.evidence].number >= 0
                && !InEpoch(s.dag[d.evidence].number, s.epochLength, epoch))
            && (fault == Some(TargetNotBonded) <==>
                held && s.dag[d.evidence].invalid && InEpoch(s.dag[d.evidence].number, s.epochLength, epoch)
                && !(s.dag[d.evidence].sender in s.bonds && s.bonds[s.dag[d.evidence].sender] > 0))
            && fault != Some(NotAuthorizedByEvidence) && fault != Some(InvalidEpochLength)
  {
    if d.evidence in s.dag {
      EpochIff(s.dag[d.evidence].number, s.epochLength, epoch);
    }
  }

  /** The receiver's verdict on the deploys from `i` on, with the targets `seen`
      behind it. */
  function VerdictFrom(b: Block, s: Snapshot, epoch: int, i: nat, seen: set<Validator>): Option<SlashError>
    requires i <= |b.deploys|
    decreases |b.deploys| - i
  {
    if i == |b.deploys| then None
    else if !b.deploys[i].Slash? then VerdictFrom(b, s, epoch, i + 1, seen)
    else
      match Fault(b, s, epoch, b.deploys[i])
      case Some(e) => Some(e)
      case None =>
        var v := s.dag[b.deploys[i].evidence].sender;
        if v in seen then Some(DuplicateTarget) else VerdictFrom(b, s, epoch, i + 1, seen + {v})
  }

  /** Why the block's slashes are refused, if they are. */
  function SlashVerdict(b: Block, s: Snapshot): Option<SlashError> {
    if !HasSlash(b.deploys) then None
    else
      match EpochFor(b.number, s.epochLength)
      case Err(e) => Some(e)
      case Ok(epoch) =>
        if b.seqNum < 0 then Some(NegativeSequenceNumber) else VerdictFrom(b, s, epoch, 0, {})
  }

  /** `validate_received_slash_deploys`. Targets are keyed by offender and epoch;
      an accepted deploy's epoch is always the current one. */
  method ValidateReceivedSlashDeploys(b: Block, s: Snapshot) returns (r: Option<SlashError>)
    ensures r == SlashVerdict(b, s)
  {
    if !HasSlash(b.deploys) {
      return None;
    }
    var current := EpochFor(b.number, s.epochLength);
    if current.Err? {
      return Some(current.error);
    }
    var epoch := current.value;
    if b.seqNum < 0 {
      return Some(NegativeSequenceNumber);
    }
    var seen: map<(Validator, int), Hash> := map[];
    ghost var targets: set<Validator> := {};
    for i := 0 to |b.deploys|
      invariant SlashVerdict(b, s) == VerdictFrom(b, s, epoch, i, targets)
      invariant forall v, e :: (v, e) in seen <==> v in targets && e == epoch
    {
      if !b.deploys[i].Slash? {
        continue;
      }
      var d := b.deploys[i];
      var fault := Fault(b, s, epoch, d);
      if fault.Some? {
        return fault;
      }
      var v := s.dag[d.evidence].sender;
      if (v, d.epoch) in seen {
        return Some(DuplicateTarget);
      }
      seen := seen[(v, d.epoch) := d.evidence];
      targets := targets + {v};
    }
    return None;
  }

  /** What acceptance means: every slash is faultless and no two name the same
      offender. */
  ghost predicate Acceptable(b: Block, s: Snapshot, epoch: int, from: nat) {
    && (forall i :: from <= i < |b.deploys| && b.deploys[i].Slash? ==> Fault(b, s, epoch, b.deploys[i]).None?)
    && forall i, j :: from <= i < j < |b.deploys| && b.deploys[i].Slash? && b.deploys[j].Slash?
                      && b.deploys[i].evidence in s.dag && b.deploys[j].evidence in s.dag
                      ==> s.dag[b.deploys[i].evidence].sender != s.dag[b.deploys[j].evidence].sender
  }

  ghost predicate AvoidsTargets(b: Block, s: Snapshot, from: nat, seen: set<Validator>) {
    forall i :: from <= i < |b.deploys| && b.deploys[i].Slash? && b.deploys[i].evidence in s.dag
                ==> s.dag[b.deploys[i].evidence].sender !in seen
  }

  lemma {:induction false} VerdictMeaning(b: Block, s: Snapshot, epoch: int, i: nat, seen: set<Validator>)
    requires i <= |b.deploys|
    ensures VerdictFrom(b, s, epoch, i, seen).None? <==> Acceptable(b, s, epoch, i) && AvoidsTargets(b, s, i, seen)
    decreases |b.deploys| - i
  {
    if i < |b.deploys| {
      if !b.deploys[i].Slash? {
        VerdictMeaning(b, s, epoch, i + 1, seen);
      } else if Fault(b, s, epoch, b.deploys[i]).None? {
        var v := s.dag[b.deploys[i].evidence].sender;
        VerdictMeaning(b, s, epoch, i + 1, seen + {v});
      }
    }
  }

  ghost predicate JustifiedAll(b: Block, s: Snapshot, epoch: int) {
    && (forall i :: 0 <= i < |b.deploys| && b.deploys[i].Slash? ==> Justified(b, s, epoch, b.deploys[i]))
    && forall i, j :: 0 <= i < j < |b.deploys| && b.deploys[i].Slash? && b.deploys[j].Slash?
                      && b.deploys[i].evidence in s.dag && b.deploys[j].evidence in s.dag ==>
                        s.dag[b.deploys[i].evidence].sender != s.dag[b.deploys[j].evidence].sender
  }

  /** The receiver accepts exactly the blocks without slashes, and those numbered in an
      epoch and with a sequence number of at least 0 whose slashes are all justified and
      name different offenders. */
  lemma AcceptedIff(b: Block, s: Snapshot)
    ensures SlashVerdict(b, s).None? <==>
            || (forall i :: 0 <= i < |b.deploys| ==> !b.deploys[i].Slash?)
            || (&& b.seqNum >= 0
                && exists epoch :: && InEpoch(b.number, s.epochLength, epoch)
                                   && JustifiedAll(b, s, epoch))
  {
    if HasSlash(b.deploys) {
      if EpochFor(b.number, s.epochLength).Ok? {
        var epoch := EpochFor(b.number, s.epochLength).value;
        EpochIff(b.number, s.epochLength, epoch);
        VerdictMeaning(b, s, epoch, 0, {});
        forall i | 0 <= i < |b.deploys| && b.deploys[i].Slash?
          ensures Fault(b, s, epoch, b.deploys[i]).None? <==> Justified(b, s, epoch, b.deploys[i])
        {
          FaultlessIff(b, s, epoch, b.deploys[i]);
        }
        assert JustifiedAll(b, s, epoch) <==> Acceptable(b, s, epoch, 0);
      }
      forall epoch
        ensures InEpoch(b.number, s.epochLength, epoch) <==> EpochFor(b.number, s.epochLength) == Ok(epoch)
      {
        EpochIff(b.number, s.epochLength, epoch);
      }
    }
  }
}
