/** The block DAG as the node indexes it, and the two validation rules that
    shape it: block numbers and sequence numbers. */
module Dag {
  import opened Prelude

  /** Block hashes are byte strings of one fixed length, so their lexicographic
      order is the order of the natural numbers they spell. */
  type Hash = nat

  /** Validator keys under their byte order; 0 is the empty key. */
  type Validator = nat

  datatype Justification = Justification(validator: Validator, latest: Hash)

  datatype Meta = Meta(
    parents: seq<Hash>,
    sender: Validator,
    seqNum: int,
    number: int,
    invalid: bool,
    justifications: seq<Justification>,
    weights: map<Validator, int>)

  type Blocks = map<Hash, Meta>

  /** One entry of a block's list of bonds. */
  datatype BondEntry = BondEntry(validator: Validator, stake: int)

  /** `parents.first()`. */
  function MainParent(dag: Blocks, h: Hash): Option<Hash> {
    if h in dag && dag[h].parents != [] then Some(dag[h].parents[0]) else None
  }

  /** The first justification a block carries for its own sender. */
  function CreatorJustification(sender: Validator, js: seq<Justification>): (r: Option<Hash>)
    ensures r.Some? ==> exists i :: 0 <= i < |js| && js[i] == Justification(sender, r.value)
                                    && forall k :: 0 <= k < i ==> js[k].validator != sender
    ensures r.None? ==> forall j :: j in js ==> j.validator != sender
  {
    if js == [] then None
    else if js[0].validator == sender then Some(js[0].latest)
    else
      assert forall k :: 0 < k < |js| ==> js[k] == js[1..][k - 1];
      CreatorJustification(sender, js[1..])
  }

  /** `self_justification` of a held block. */
  function SelfJustification(dag: Blocks, h: Hash): Option<Hash>
    requires h in dag
  {
    CreatorJustification(dag[h].sender, dag[h].justifications)
  }

  datatype Verdict =
    | Valid
    | InvalidBlockNumber
    | InvalidSequenceNumber
    | MissingBlock(hash: Hash)

  /** The first of `hs` the node does not hold. */
  function FirstUnheld(dag: Blocks, hs: seq<Hash>): (r: Option<Hash>)
    ensures r.None? <==> forall i :: 0 <= i < |hs| ==> hs[i] in dag
    ensures r.Some? ==> exists i :: 0 <= i < |hs| && hs[i] == r.value && r.value !in dag
                                    && forall k :: 0 <= k < i ==> hs[k] in dag
  {
    if hs == [] then None
    else if hs[0] !in dag then Some(hs[0])
    else
      assert forall k :: 0 < k < |hs| ==> hs[k] == hs[1..][k - 1];
      FirstUnheld(dag, hs[1..])
  }

  /** The greatest number among held blocks, -1 when there is none. */
  function MaxNumber(dag: Blocks, hs: seq<Hash>): (r: int)
    requires forall i :: 0 <= i < |hs| ==> hs[i] in dag
    ensures r >= -1
    ensures forall i :: 0 <= i < |hs| ==> dag[hs[i]].number <= r
    ensures r == -1 || exists i :: 0 <= i < |hs| && dag[hs[i]].number == r
  {
    if hs == [] then -1
    else
      var rest := MaxNumber(dag, hs[1..]);
      assert forall i :: 0 < i < |hs| ==> hs[i] == hs[1..][i - 1];
      if dag[hs[0]].number > rest then dag[hs[0]].number else rest
  }

  /** `Validate::block_number`. */
  function BlockNumberRule(dag: Blocks, b: Meta): Verdict {
    match FirstUnheld(dag, b.parents)
    case Some(h) => MissingBlock(h)
    case None =>
      if MaxNumber(dag, b.parents) + 1 == b.number then Valid else InvalidBlockNumber
  }

  /** `Validate::sequence_number`. */
  function SequenceNumberRule(dag: Blocks, b: Meta): Verdict {
    match CreatorJustification(b.sender, b.justifications)
    case None => if b.seqNum == 0 then Valid else InvalidSequenceNumber
    case Some(h) =>
      if h !in dag then MissingBlock(h)
      else if dag[h].seqNum + 1 == b.seqNum then Valid else InvalidSequenceNumber
  }

  /** Adding one block the node has validated; known hashes are left alone. */
  function Insert(dag: Blocks, h: Hash, b: Meta): Blocks {
    if h !in dag && BlockNumberRule(dag, b).Valid? && SequenceNumberRule(dag, b).Valid?
    then dag[h := b]
    else dag
  }

  function Grow(dag: Blocks, run: seq<(Hash, Meta)>): Blocks
    decreases |run|
  {
    if run == [] then dag else Grow(Insert(dag, run[0].0, run[0].1), run[1..])
  }

  /** Numbers fall strictly along every parent edge the node holds. */
  ghost predicate HeightsFall(dag: Blocks) {
    forall h, i :: h in dag && 0 <= i < |dag[h].parents| && dag[h].parents[i] in dag
                   ==> dag[dag[h].parents[i]].number < dag[h].number
  }

  /** The blocks below a held one: a measure for walks down the DAG. */
  ghost function Lower(dag: Blocks, h: Hash): set<Hash>
    requires h in dag
  {
    set x | x in dag && dag[x].number < dag[h].number
  }

  lemma ParentsAreLower(dag: Blocks, h: Hash, i: nat)
    requires HeightsFall(dag) && h in dag && i < |dag[h].parents| && dag[h].parents[i] in dag
    ensures Lower(dag, dag[h].parents[i]) < Lower(dag, h)
  {
    assert dag[h].parents[i] in Lower(dag, h);
  }

  ghost predicate NumbersNatural(dag: Blocks) {
    forall h :: h in dag ==> dag[h].number >= 0
  }

  /** Every parent is held and numbers are never negative. */
  ghost predicate ParentsHeld(dag: Blocks) {
    && NumbersNatural(dag)
    && forall h :: h in dag ==> forall i :: 0 <= i < |dag[h].parents| ==> dag[h].parents[i] in dag
  }

  ghost predicate SequenceRuleAt(dag: Blocks, h: Hash)
    requires h in dag
  {
    match SelfJustification(dag, h)
    case None => dag[h].seqNum == 0
    case Some(p) => p in dag && dag[h].seqNum == dag[p].seqNum + 1
  }

  /** Sequence numbers start at 0 and rise by one over the creator justification. */
  ghost predicate SequenceRule(dag: Blocks) {
    forall h {:trigger SequenceRuleAt(dag, h)} :: h in dag ==> SequenceRuleAt(dag, h)
  }

  ghost predicate WellFormed(dag: Blocks) {
    HeightsFall(dag) && ParentsHeld(dag) && SequenceRule(dag)
  }

  /** The number rule: the parents are held, all lower, and one of them directly below,
      unless the block is at height 0. */
  ghost predicate NumberFits(dag: Blocks, b: Meta) {
    && (forall p :: p in b.parents ==> p in dag && dag[p].number < b.number)
    && b.number >= 0
    && (b.number == 0 || exists p :: p in b.parents && p in dag && dag[p].number == b.number - 1)
  }

  /** The sequence rule: 0 without a justification of one's own, otherwise one more than
      the block the first of them names. */
  ghost predicate SequenceFits(dag: Blocks, b: Meta) {
    (b.seqNum == 0 && forall j :: j in b.justifications ==> j.validator != b.sender)
    || exists i :: 0 <= i < |b.justifications| && b.justifications[i].validator == b.sender
                   && (forall k :: 0 <= k < i ==> b.justifications[k].validator != b.sender)
                   && b.justifications[i].latest in dag
                   && dag[b.justifications[i].latest].seqNum == b.seqNum - 1
  }

  lemma NumberRuleIff(dag: Blocks, b: Meta)
    ensures BlockNumberRule(dag, b).Valid? <==> NumberFits(dag, b)
    ensures (BlockNumberRule(dag, b) == InvalidBlockNumber
             <==> (forall p :: p in b.parents ==> p in dag) && !NumberFits(dag, b))
  {
    if FirstUnheld(dag, b.parents).None? {
      var top := MaxNumber(dag, b.parents);
      forall p | p in b.parents ensures p in dag && dag[p].number <= top {
        var i :| 0 <= i < |b.parents| && b.parents[i] == p;
      }
      if NumberFits(dag, b) && b.number > 0 {
        var p :| p in b.parents && p in dag && dag[p].number == b.number - 1;
        assert top >= b.number - 1;
      }
    }
  }

  lemma SequenceRuleIff(dag: Blocks, b: Meta)
    ensures SequenceNumberRule(dag, b).Valid? <==> SequenceFits(dag, b)
  {
    var own := CreatorJustification(b.sender, b.justifications);
    if own.Some? {
      var i :| 0 <= i < |b.justifications| && b.justifications[i] == Justification(b.sender, own.value)
               && forall k :: 0 <= k < i ==> b.justifications[k].validator != b.sender;
      assert b.justifications[i] in b.justifications;
      if SequenceFits(dag, b) {
        var x :| 0 <= x < |b.justifications| && b.justifications[x].validator == b.sender
                 && (forall k :: 0 <= k < x ==> b.justifications[k].validator != b.sender)
                 && b.justifications[x].latest in dag
                 && dag[b.justifications[x].latest].seqNum == b.seqNum - 1;
        assert x == i;
      }
    }
  }

  /** A new block gets in exactly when it fits both rules, and nothing else changes. */
  lemma InsertIff(dag: Blocks, h: Hash, b: Meta)
    requires h !in dag
    ensures Insert(dag, h, b) == if NumberFits(dag, b) && SequenceFits(dag, b) then dag[h := b] else dag
  {
    NumberRuleIff(dag, b);
    SequenceRuleIff(dag, b);
  }

  lemma InsertKeepsHeights(dag: Blocks, h: Hash, b: Meta)
    requires HeightsFall(dag) && ParentsHeld(dag)
    requires h !in dag && BlockNumberRule(dag, b).Valid?
    ensures HeightsFall(dag[h := b]) && ParentsHeld(dag[h := b])
  {
  }

  lemma InsertKeepsSequence(dag: Blocks, h: Hash, b: Meta)
    requires SequenceRule(dag)
    requires h !in dag && SequenceNumberRule(dag, b).Valid?
    ensures SequenceRule(dag[h := b])
  {
    var dag' := dag[h := b];
    forall x | x in dag' ensures SequenceRuleAt(dag', x) {
      assert x in dag ==> SequenceRuleAt(dag, x);
    }
  }

  ghost predicate Extends(dag: Blocks, dag': Blocks) {
    forall h :: h in dag ==> h in dag' && dag'[h] == dag[h]
  }

  lemma InsertStep(dag: Blocks, h: Hash, b: Meta)
    requires WellFormed(dag)
    ensures WellFormed(Insert(dag, h, b)) && Extends(dag, Insert(dag, h, b))
  {
    if Insert(dag, h, b) != dag {
      InsertKeepsHeights(dag, h, b);
      InsertKeepsSequence(dag, h, b);
    }
  }

  /** Both rules checked block by block give the global shape, on every run,
      and no block the node holds ever changes. */
  lemma {:induction false} GrownDagIsWellFormed(dag: Blocks, run: seq<(Hash, Meta)>)
    requires WellFormed(dag)
    ensures WellFormed(Grow(dag, run)) && Extends(dag, Grow(dag, run))
    decreases |run|
  {
    if run != [] {
      var next := Insert(dag, run[0].0, run[0].1);
      InsertStep(dag, run[0].0, run[0].1);
      GrownDagIsWellFormed(next, run[1..]);
      assert Grow(dag, run) == Grow(next, run[1..]);
    }
  }
}
