/** `Validate::neglected_invalid_block`: a block that cites an invalid block of a
    bonded validator has to slash that validator. */
module NeglectedBlock {
  import opened Prelude
  import opened Dag
  import opened Slashing
  import opened SlashAgreement

  datatype Neglect = Fine | Neglected | Fault(error: SlashError)

  /** The last of the bonds to name `v` has this stake. */
  ghost predicate LastBond(bonds: seq<BondEntry>, v: Validator, stake: int) {
    exists i ::
      && 0 <= i < |bonds| && bonds[i] == BondEntry(v, stake)
      && forall k :: i < k < |bonds| ==> bonds[k].validator != v
  }

  lemma LastBondOfSnoc(bonds: seq<BondEntry>, v: Validator, stake: int)
    requires bonds != []
    ensures var front, last := bonds[..|bonds| - 1], bonds[|bonds| - 1];
            LastBond(bonds, v, stake) <==>
            if v == last.validator then stake == last.stake else LastBond(front, v, stake)
  {
    var front, last := bonds[..|bonds| - 1], bonds[|bonds| - 1];
    if v == last.validator {
      if stake == last.stake {
        assert bonds[|bonds| - 1] == BondEntry(v, stake);
      }
    } else {
      if i :| 0 <= i < |bonds| && bonds[i] == BondEntry(v, stake)
              && forall k :: i < k < |bonds| ==> bonds[k].validator != v {
        assert front[i] == BondEntry(v, stake);
      }
      if i :| 0 <= i < |front| && front[i] == BondEntry(v, stake)
              && forall k :: i < k < |front| ==> front[k].validator != v {
        assert bonds[i] == BondEntry(v, stake);
        forall k | i < k < |bonds| ensures bonds[k].validator != v {
          assert k < |front| ==> bonds[k] == front[k];
        }
      }
    }
  }

  lemma {:induction false} LastEntry(bonds: seq<BondEntry>, v: Validator)
    requires exists e :: e in bonds && e.validator == v
    ensures exists stake :: LastBond(bonds, v, stake)
    decreases |bonds|
  {
    var front, last := bonds[..|bonds| - 1], bonds[|bonds| - 1];
    if last.validator == v {
      LastBondOfSnoc(bonds, v, last.stake);
    } else {
      LastEntry(front, v);
      var stake :| LastBond(front, v, stake);
      LastBondOfSnoc(bonds, v, stake);
    }
  }

  /** The block's own bonds; a later entry for a validator wins. */
  function BondMap(bonds: seq<BondEntry>): (r: map<Validator, int>)
    ensures forall v, stake :: (v in r && r[v] == stake) <==> LastBond(bonds, v, stake)
  {
    if bonds == [] then map[]
    else
      var last := bonds[|bonds| - 1];
      assert forall v, stake :: LastBond(bonds, v, stake) <==>
               if v == last.validator then stake == last.stake else LastBond(bonds[..|bonds| - 1], v, stake) by {
        forall v, stake ensures LastBond(bonds, v, stake) <==>
               if v == last.validator then stake == last.stake else LastBond(bonds[..|bonds| - 1], v, stake)
        {
          LastBondOfSnoc(bonds, v, stake);
        }
      }
      BondMap(bonds[..|bonds| - 1])[last.validator := last.stake]
  }

  /** The bond held against the author of a cited block: its own, or, when the
      author has no entry at all, the citing validator's. */
  function CitedBond(bonds: map<Validator, int>, author: Validator, citing: Validator): int {
    if author in bonds then bonds[author] else Bond(bonds, citing)
  }

  /** A cited block that is held, flagged invalid and of this epoch. */
  predicate Current(s: Snapshot, epoch: int, j: Justification) {
    && j.latest in s.dag && s.dag[j.latest].invalid
    && EpochFor(s.dag[j.latest].number, s.epochLength) == Ok(epoch)
  }

  predicate SlashRequired(b: Block, s: Snapshot, epoch: int, j: Justification) {
    && Current(s, epoch, j)
    && CitedBond(BondMap(b.bonds), s.dag[j.latest].sender, j.validator) > 0
  }

  /** The deploy slashes `v` with authority, by the block's own bonds. */
  predicate Targets(b: Block, s: Snapshot, epoch: int, d: SystemDeploy, v: Validator) {
    && d.Slash? && d.issuer == b.sender && d.epoch == epoch
    && d.evidence in s.dag && s.dag[d.evidence].sender == v && s.dag[d.evidence].invalid
    && EpochFor(s.dag[d.evidence].number, s.epochLength) == Ok(epoch)
    && Bond(BondMap(b.bonds), v) > 0
  }

  ghost predicate Slashes(b: Block, s: Snapshot, epoch: int, v: Validator) {
    exists i :: 0 <= i < |b.deploys| && Targets(b, s, epoch, b.deploys[i], v)
  }

  ghost predicate Neglects(b: Block, s: Snapshot, epoch: int, j: Justification) {
    SlashRequired(b, s, epoch, j) && !Slashes(b, s, epoch, s.dag[j.latest].sender)
  }

  ghost predicate Bonded(bonds: seq<BondEntry>, v: Validator) {
    exists stake :: LastBond(bonds, v, stake) && stake > 0
  }

  lemma {:induction false} BondIff(bonds: seq<BondEntry>, v: Validator)
    ensures v in BondMap(bonds) <==> exists e :: e in bonds && e.validator == v
    ensures Bond(BondMap(bonds), v) > 0 <==> Bonded(bonds, v)
  {
    var m := BondMap(bonds);
    if v in m {
      assert LastBond(bonds, v, m[v]);
    }
    if e :| e in bonds && e.validator == v {
      LastEntry(bonds, v);
    }
  }

  /** The block is invalid and of the epoch. */
  ghost predicate Offence(s: Snapshot, epoch: int, h: Hash) {
    h in s.dag && s.dag[h].invalid && InEpoch(s.dag[h].number, s.epochLength, epoch)
  }

  /** In the block's own terms: it cites an offence, whose author has a positive bond or
      has none and is cited under a bonded validator's name, and no slash of its own for
      this epoch points at an offence of that author while the author is bonded. */
  lemma NeglectMeans(b: Block, s: Snapshot, epoch: int, j: Justification)
    ensures Neglects(b, s, epoch, j) <==>
            && Offence(s, epoch, j.latest)
            && (var author := s.dag[j.latest].sender;
                && (if exists e :: e in b.bonds && e.validator == author then Bonded(b.bonds, author)
                    else Bonded(b.bonds, j.validator))
                && !(&& Bonded(b.bonds, author)
                     && exists d :: && d in b.deploys && d.Slash? && d.issuer == b.sender && d.epoch == epoch
                                    && Offence(s, epoch, d.evidence) && s.dag[d.evidence].sender == author))
  {
    forall n: int ensures EpochFor(n, s.epochLength) == Ok(epoch) <==> InEpoch(n, s.epochLength, epoch) {
      EpochIff(n, s.epochLength, epoch);
    }
    if j.latest in s.dag {
      BondIff(b.bonds, s.dag[j.latest].sender);
      BondIff(b.bonds, j.validator);
    }
  }

  /** Some held block has a number no epoch covers. */
  ghost predicate BadNumber(s: Snapshot, e: SlashError) {
    exists h :: h in s.dag && EpochFor(s.dag[h].number, s.epochLength) == Err(e)
  }

  /** The first loop: the targets the block slashes with authority. */
  method SlashTargets(b: Block, s: Snapshot, epoch: int) returns (r: Result<set<(Validator, int)>, SlashError>)
    requires EpochFor(b.number, s.epochLength) == Ok(epoch)
    ensures r.Err? ==> BadNumber(s, r.error)
    ensures r.Ok? ==> forall v: Validator :: (v, epoch) in r.value <==> Slashes(b, s, epoch, v)
  {
    var bonds := BondMap(b.bonds);
    var targets: set<(Validator, int)> := {};
    for i := 0 to |b.deploys|
      invariant forall v: Validator ::
                  (v, epoch) in targets <==> exists k :: 0 <= k < i && Targets(b, s, epoch, b.deploys[k], v)
    {
      var d := b.deploys[i];
      if d.Slash? && d.issuer == b.sender && d.evidence in s.dag {
        var m := s.dag[d.evidence];
        var authorized := Authorized(b.number, m.number, d.epoch, s.epochLength, Bond(bonds, m.sender), m.invalid);
        if authorized.Err? {
          return Err(authorized.error);
        }
        if authorized.value {
          targets := targets + {(m.sender, d.epoch)};
        }
      }
    }
    return Ok(targets);
  }

  // ---- A proposer that issues every candidate ----

  ghost predicate CarriesAll(b: Block, cs: seq<Candidate>) {
    forall c :: c in cs ==> Issue(c, b.sender) in b.deploys
  }

  /** The block and the snapshot agree on who is bonded. */
  ghost predicate SameBonded(b: Block, s: Snapshot) {
    forall v :: Bond(BondMap(b.bonds), v) > 0 <==> Bond(s.bonds, v) > 0
  }

  /** The block carries every candidate and its justifications cite each validator's
      own blocks. */
  ghost predicate IsComplete(b: Block, s: Snapshot, epoch: int, cs: seq<Candidate>) {
    && IndexMatches(s) && AreCandidates(s, epoch, cs) && CarriesAll(b, cs) && SameBonded(b, s)
    && forall j :: j in b.justifications && j.latest in s.dag ==> s.dag[j.latest].sender == j.validator
  }

  /** The cited author has no bond entry of its own, and the bond of the citing
      validator stands in for it. */
  predicate BorrowsBond(b: Block, s: Snapshot, epoch: int, j: Justification) {
    && Current(s, epoch, j)
    && s.dag[j.latest].sender !in BondMap(b.bonds)
    && Bond(BondMap(b.bonds), j.validator) > 0
  }

  lemma CandidateIsTargeted(b: Block, s: Snapshot, epoch: int, cs: seq<Candidate>, v: Validator)
    requires IndexMatches(s) && AreCandidates(s, epoch, cs) && CarriesAll(b, cs) && SameBonded(b, s)
    requires Offends(s, epoch, s.invalidBlocks, v)
    ensures Slashes(b, s, epoch, v)
  {
    var i :| 0 <= i < |cs| && cs[i].offender == v;
    assert IsLeastEvidence(s, epoch, s.invalidBlocks, cs[i]);
    CandidateMeans(s, epoch, cs[i]);
    assert Issue(cs[i], b.sender) in b.deploys;
    var k :| 0 <= k < |b.deploys| && b.deploys[k] == Issue(cs[i], b.sender);
    assert Targets(b, s, epoch, b.deploys[k], v);
  }

  /** A complete proposer neglects a cited block exactly when the bond it is held
      to is borrowed: the author is not bonded, so nothing may slash it, yet the
      citing validator's stake asks for the slash. */
  lemma NeglectIffBorrowedBond(b: Block, s: Snapshot, epoch: int, cs: seq<Candidate>, j: Justification)
    requires IndexMatches(s) && AreCandidates(s, epoch, cs) && CarriesAll(b, cs) && SameBonded(b, s)
    ensures Neglects(b, s, epoch, j) <==> BorrowsBond(b, s, epoch, j)
  {
    if SlashRequired(b, s, epoch, j) && s.dag[j.latest].sender in BondMap(b.bonds) {
      var h := j.latest;
      var v := s.dag[h].sender;
      assert Bond(BondMap(b.bonds), v) > 0;
      assert Qualifies(s, epoch, Evidence(h, s.dag[h])) && Evidence(h, s.dag[h]) in s.invalidBlocks;
      CandidateIsTargeted(b, s, epoch, cs, v);
    }
  }

  /** Whatever a proposer issues, and nothing else, in its block: it neglects a cited
      block exactly when the bond is borrowed or, its issuance being suppressed, when
      the block has to be slashed at all. */
  lemma NeglectOfIssued(b: Block, s: Snapshot, epoch: int, cs: seq<Candidate>, j: Justification)
    requires IndexMatches(s) && AreIssued(s, epoch, cs) && CarriesAll(b, cs) && CarriesOnly(b, cs) && SameBonded(b, s)
    ensures Neglects(b, s, epoch, j) <==>
            if Suppressed(s, epoch) then SlashRequired(b, s, epoch, j) else BorrowsBond(b, s, epoch, j)
  {
    if !Suppressed(s, epoch) {
      NeglectIffBorrowedBond(b, s, epoch, cs, j);
    }
  }

  /** A suppressed proposer is told it neglected a block: its finalized frontier, at
      15, is in the epoch after that of its view, so it issues nothing, and the cited
      invalid block of the bonded validator 7 has to be slashed. */
  lemma SuppressedExample() returns (b: Block, s: Snapshot)
    ensures IndexMatches(s) && Suppressed(s, 0) && AreIssued(s, 0, []) && CarriesAll(b, []) && CarriesOnly(b, [])
    ensures SameBonded(b, s) && EpochFor(b.number, s.epochLength) == Ok(0) && b.number == s.maxBlockNum + 1
    ensures b.justifications == [Justification(7, 1)] && 1 in s.dag && s.dag[1].sender == 7
    ensures Neglects(b, s, 0, b.justifications[0])
  {
    var bad := Meta([], 7, 0, 3, true, [], map[]);
    var final := Meta([], 3, 0, 15, false, [], map[]);
    s := Snapshot(map[1 := bad, 2 := final], {Evidence(1, bad)}, map[7 := 10], 10, 5, 2);
    b := Block(6, 0, 3, [], [BondEntry(7, 10)], [Justification(7, 1)]);
    assert BondMap([]) == map[];
    assert b.bonds[..0] == [];
    assert BondMap(b.bonds) == map[7 := 10];
    NeglectOfIssued(b, s, 0, [], b.justifications[0]);
  }

  /** In particular, a complete proposer whose justifications cite each
      validator's own blocks is never neglectful. */
  lemma CompleteProposerIsFine(b: Block, s: Snapshot, epoch: int, cs: seq<Candidate>)
    requires IsComplete(b, s, epoch, cs)
    ensures forall j :: j in b.justifications ==> !Neglects(b, s, epoch, j)
  {
    forall j | j in b.justifications ensures !Neglects(b, s, epoch, j) {
      NeglectIffBorrowedBond(b, s, epoch, cs, j);
    }
  }

  /** Borrowed bonds do occur: validator 3, fully bonded and with nothing to
      slash, cites an invalid block signed by the unbonded validator 7. */
  lemma BorrowedBondExample() returns (b: Block, s: Snapshot)
    ensures IndexMatches(s) && AreCandidates(s, 0, []) && CarriesAll(b, []) && SameBonded(b, s)
    ensures EpochFor(b.number, s.epochLength) == Ok(0) && b.number == s.maxBlockNum + 1
    ensures b.justifications != [] && Neglects(b, s, 0, b.justifications[0])
  {
    var bad := Meta([], 7, 0, 0, true, [], map[]);
    s := Snapshot(map[1 := bad], {Evidence(1, bad)}, map[3 := 10], 10, 0, 0);
    b := Block(1, 0, 3, [], [BondEntry(3, 10)], [Justification(3, 1)]);
    assert BondMap([]) == map[];
    assert b.bonds[..0] == [];
    assert BondMap(b.bonds) == map[3 := 10];
    assert Current(s, 0, b.justifications[0]);
    assert BorrowsBond(b, s, 0, b.justifications[0]);
    NeglectIffBorrowedBond(b, s, 0, [], b.justifications[0]);
  }

  // ---- The check ----

  /** The answer is Fine, Neglected or a fault as the justifications say, there is no
      fault where block numbers are natural, and a complete proposer is always told
      Fine. */
  method NeglectedInvalidBlock(b: Block, s: Snapshot) returns (r: Neglect)
    ensures EpochFor(b.number, s.epochLength).Err? ==> r == Fault(EpochFor(b.number, s.epochLength).error)
    ensures EpochFor(b.number, s.epochLength).Ok? ==>
              var epoch := EpochFor(b.number, s.epochLength).value;
              && (r.Fault? ==> BadNumber(s, r.error) && !NumbersNatural(s.dag))
              && (r.Neglected? ==> exists j :: j in b.justifications && Neglects(b, s, epoch, j))
              && (r.Fine? ==> forall j :: j in b.justifications ==> !Neglects(b, s, epoch, j))
    ensures EpochFor(b.number, s.epochLength).Ok? && NumbersNatural(s.dag)
            && (exists cs :: IsComplete(b, s, EpochFor(b.number, s.epochLength).value, cs))
            ==> r == Fine
  {
    var current := EpochFor(b.number, s.epochLength);
    if current.Err? {
      return Fault(current.error);
    }
    var epoch := current.value;
    if cs :| IsComplete(b, s, epoch, cs) {
      CompleteProposerIsFine(b, s, epoch, cs);
    }
    var bonds := BondMap(b.bonds);
    var built := SlashTargets(b, s, epoch);
    if built.Err? {
      return Fault(built.error);
    }
    var targets := built.value;
    for i := 0 to |b.justifications|
      invariant forall k :: 0 <= k < i ==> !Neglects(b, s, epoch, b.justifications[k])
    {
      var j := b.justifications[i];
      if j.latest in s.dag && s.dag[j.latest].invalid {
        var m := s.dag[j.latest];
        var bond := CitedBond(bonds, m.sender, j.validator);
        var required := Authorized(b.number, m.number, epoch, s.epochLength, bond, m.invalid);
        if required.Err? {
          return Fault(required.error);
        }
        if required.value && (m.sender, epoch) !in targets {
          assert j in b.justifications && Neglects(b, s, epoch, j);
          return Neglected;
        }
      }
    }
    return Fine;
  }
}
