/** The proposer's slashes satisfy the receiver, and what the receiver accepts are
    offenders the proposer would slash. */
module SlashAgreement {
  import opened Prelude
  import opened Dag
  import opened Slashing

  /** The invalid-block index and the DAG agree. */
  ghost predicate IndexMatches(s: Snapshot) {
    && (forall m :: m in s.invalidBlocks && m.meta.invalid ==> m.hash in s.dag && s.dag[m.hash] == m.meta)
    && forall h :: h in s.dag && s.dag[h].invalid ==> Evidence(h, s.dag[h]) in s.invalidBlocks
  }

  /** The slash deploy a candidate becomes in the sender's block. */
  function Issue(c: Candidate, sender: Validator): SystemDeploy {
    Slash(c.evidence, sender, c.epoch)
  }

  /** The slashes a block carries are issued candidates, some or all of them, none
      twice, among other system deploys and in any order. */
  ghost predicate CarriesOnly(b: Block, cs: seq<Candidate>) {
    && (forall i :: 0 <= i < |b.deploys| && b.deploys[i].Slash? ==>
                      exists c :: c in cs && b.deploys[i] == Issue(c, b.sender))
    && (forall i, j :: 0 <= i < j < |b.deploys| && b.deploys[i].Slash? ==> b.deploys[i] != b.deploys[j])
  }

  lemma CandidateMeans(s: Snapshot, epoch: int, c: Candidate)
    requires IndexMatches(s) && IsLeastEvidence(s, epoch, s.invalidBlocks, c)
    ensures c.evidence in s.dag
    ensures var m := s.dag[c.evidence];
            && m.invalid && m.sender == c.offender && c.epoch == epoch
            && EpochFor(m.number, s.epochLength) == Ok(epoch) && Bond(s.bonds, c.offender) > 0
  {
    var m :| m in s.invalidBlocks && Qualifies(s, epoch, m) && m.meta.sender == c.offender && m.hash == c.evidence;
  }

  lemma CandidateIsFaultless(b: Block, s: Snapshot, epoch: int, c: Candidate)
    requires IndexMatches(s) && IsLeastEvidence(s, epoch, s.invalidBlocks, c)
    requires b.sender != 0 && EpochFor(b.number, s.epochLength) == Ok(epoch)
    ensures Fault(b, s, epoch, Issue(c, b.sender)).None?
  {
    CandidateMeans(s, epoch, c);
  }

  lemma SameOffenderSameCandidate(s: Snapshot, epoch: int, cs: seq<Candidate>, c: Candidate, d: Candidate)
    requires AreCandidates(s, epoch, cs) && c in cs && d in cs && c.offender == d.offender
    ensures c == d
  {
    var i :| 0 <= i < |cs| && cs[i] == c;
    var j :| 0 <= j < |cs| && cs[j] == d;
  }

  /** A block whose slashes are those the proposer issues always validates. */
  lemma ProposerSatisfiesReceiver(b: Block, s: Snapshot, epoch: int, cs: seq<Candidate>)
    requires IndexMatches(s) && AreIssued(s, epoch, cs) && CarriesOnly(b, cs)
    requires s.maxBlockNum < I64_MAX && b.number == s.maxBlockNum + 1
    requires EpochFor(b.number, s.epochLength) == Ok(epoch)
    requires b.sender != 0 && b.seqNum >= 0
    ensures SlashVerdict(b, s).None?
  {
    if HasSlash(b.deploys) {
      forall i | 0 <= i < |b.deploys| && b.deploys[i].Slash?
        ensures Fault(b, s, epoch, b.deploys[i]).None?
      {
        var c :| c in cs && b.deploys[i] == Issue(c, b.sender);
        CandidateIsFaultless(b, s, epoch, c);
      }
      forall i, j | 0 <= i < j < |b.deploys| && b.deploys[i].Slash? && b.deploys[j].Slash?
        ensures s.dag[b.deploys[i].evidence].sender != s.dag[b.deploys[j].evidence].sender
      {
        var c :| c in cs && b.deploys[i] == Issue(c, b.sender);
        var d :| d in cs && b.deploys[j] == Issue(d, b.sender);
        CandidateMeans(s, epoch, c);
        CandidateMeans(s, epoch, d);
        if c.offender == d.offender {
          SameOffenderSameCandidate(s, epoch, cs, c, d);
        }
      }
      assert Acceptable(b, s, epoch, 0);
      VerdictMeaning(b, s, epoch, 0, {});
    }
  }

  /** Whatever slash list the receiver accepts names distinct offenders, each one
      the proposer would have slashed too. */
  lemma AcceptedSlashesAreOffenders(b: Block, s: Snapshot, epoch: int)
    requires IndexMatches(s) && SlashVerdict(b, s).None? && EpochFor(b.number, s.epochLength) == Ok(epoch)
    ensures forall i :: 0 <= i < |b.deploys| && b.deploys[i].Slash? ==>
                          && b.deploys[i].evidence in s.dag && b.deploys[i].issuer == b.sender
                          && Offends(s, epoch, s.invalidBlocks, s.dag[b.deploys[i].evidence].sender)
    ensures forall i, j :: 0 <= i < j < |b.deploys| && b.deploys[i].Slash? && b.deploys[j].Slash? ==>
                             && b.deploys[i].evidence in s.dag && b.deploys[j].evidence in s.dag
                             && s.dag[b.deploys[i].evidence].sender != s.dag[b.deploys[j].evidence].sender
  {
    if HasSlash(b.deploys) {
      VerdictMeaning(b, s, epoch, 0, {});
      forall i | 0 <= i < |b.deploys| && b.deploys[i].Slash?
        ensures b.deploys[i].evidence in s.dag && b.deploys[i].issuer == b.sender
        ensures Offends(s, epoch, s.invalidBlocks, s.dag[b.deploys[i].evidence].sender)
      {
        assert Fault(b, s, epoch, b.deploys[i]).None?;
        var h := b.deploys[i].evidence;
        assert Evidence(h, s.dag[h]) in s.invalidBlocks && Qualifies(s, epoch, Evidence(h, s.dag[h]));
      }
    }
  }
}
