# Verified models of an F1R3FLY node

These modules model the consensus decisions of the node, the bounded stores around them and
the pure expression evaluator, and prove what those parts promise together.

- **The block DAG** (`Dag`): blocks enter a finite map only past the block-number and
  sequence-number rules, so heights fall along parents and sequence numbers step by one along a
  sender's own chain in every DAG so grown.
- **GHOST fork choice** (`Scores`, `ForkChoice`, `Ghost`, `Estimator`): scoring, descent, ranking
  and truncation, and what the head and the tips mean.
- **Equivocation detection** (`Equivocation`): a memoised, cycle-guarded walk and a record loop
  against a set-level statement about real forks.
- **The pending area and the block store** (`PendingArea`, `PendingRuns`, `PendingVerdicts`, `PendingBlocks`,
  `BlockStore`, `DeploySigCache`): a three-tier bounded cache with five redundant indexes, the
  disk/pending overlay as interleaved calls with program counters, and the signature cache.
- **Slashing** (`Slashing`, `SlashAgreement`, `NeglectedBlock`): the proposer's candidates, the
  receiver's check, and the check for neglected invalid blocks.
- **Fast paths of validation** (`Ancestors`, `RepeatDeploy`): the height-truncated ancestor closure,
  and the carrier-index shortcut with the signature cache, against the slow definitions.
- **The pure evaluator** (`Rho`, `PureEval`, `EvalRuns`, `EvalEnds`, `EvalProcesses`, `Substitution`): evaluation
  under a de Bruijn environment as a delayed substitution, when it ends, and what it adds to a term.
- **Synchrony recovery** (`Synchrony`): a timed automaton per validator, over whole runs.

`Prelude`, `Seqs`, `Paths`, `Sums` and `Orders` hold shared types, lists read as sets, reachability,
sums over finite sets and least elements.

## Conventions

Hashes and validators are natural numbers: only equality and order matter, and validator 0 is the
empty key. Block numbers, byte counts and clock readings are unbounded integers; the 64-bit limits
that decide a result (scores, the next block number, evaluator arithmetic) are written out. Iteration
over a hash map or hash set is a nondeterministic choice in a method, so its contract holds for
every order. Blocks held in memory, bodies on disk, the index answers, the finalized-floor context
and the clock are parameters. No proof relies on automatic induction.

## Where a property holds only under a condition

- The canonical child of an equivocator is its block right after the base exactly when no chain of
  its blocks above the base is rooted, through a creator justification by someone else, above the base
  (`BaseSuccessorIffRootsLow`); `HighRootExample` is a DAG obeying both rules with such a root. Creator
  justifications that cite the sender's own block or a genesis of sequence number 0 keep all roots low
  (`GenesisRootsAreLow`).
- `neglected_invalid_block` falls back to the bond of the validator a justification names when the
  invalid block's own sender has none. A proposer that carries every candidate, in a block whose bonds
  agree in positivity with the snapshot's, is therefore told it neglected a block exactly when a
  justification borrows a bond in this way (`NeglectIffBorrowedBond`, `BorrowedBondExample`). One whose
  issuance is suppressed is told so for every cited block that has to be slashed (`NeglectOfIssued`,
  `SuppressedExample`).
- The comment at casper/src/rust/validate.rs:725-736 takes absence from the carrier index to prove that a
  signature has no carrier in the window. The scan also reads the declared parents, which may lie
  below the window. A complete index may replace the scan exactly when every declared parent is at or
  above its watermark (`ShortcutSafeIffStartsCovered`); parents that spread less than the expiration
  threshold always are (`NarrowParentsAreCovered`). When the index clears every signature, the check also
  passes where the scan would have met a body it cannot read (`CheckRepeatDeploy`).
- The ancestor closure truncated at the lowest held declared parent loses no held parent. A declared
  parent that is not held is lost exactly when ancestors cite it and all of them lie below that height
  (`UnheldParentLosslessIff`). The parents rule then differs from the rule over the full closure exactly
  when it is the progress of the sender that decides and no declared parent is new
  (`TruncatedRuleDiffersIff`, `UnheldParentExample`).
- The majority theorem is stated for validator weights that do not rise from a block to its
  main-parent children, of which constant weights are a case. `RisingBondsExample` is a raised bond with
  which the descent leaves a block that scores two thirds of the LCA.
- The comment at rho-pure-eval/src/eval.rs:10-15 says process fields pass through unchanged. In every
  environment in which the term evaluates they do so exactly when no binding it looks up has processes,
  directly or through other bindings (`ProcessesUnchangedIff`, `BoundSendExample`,
  `IndirectSendExample`).
- Evaluation need not end. It has no answer at any depth of lookups exactly when it comes to need, with no
  error before, a binding out of a set in which each needs another (`NeverEndsIff`,
  `SelfReferenceNeverEnds`). It ends wherever bindings do not refer back to themselves (`RunAgrees`), and
  also where an error comes before the cycle (`CutOffCycleExample`).
- In composed checks a granted bypass is recorded as a success at once, so the bypass cooldown and the
  size of the bypass budget never influence a run (`CooldownAndBudgetAreIdle`). The spacing comes from
  the stall window alone.

## Model

| member | source | states |
|---|---|---|
| `Dag.CreatorJustification` | casper/src/rust/util/proto_util.rs:55-61 | the result is the first entry of the justifications that names the sender, and none is found only if there is none |
| `Dag.FirstUnheld` | casper/src/rust/util/proto_util.rs:275-293 | a listed block that is not held with all before it held, none exactly when all are held |
| `Dag.MaxNumber` | casper/src/rust/util/proto_util.rs:410-414 | the greatest number among the blocks, -1 for none |
| `Dag.InsertKeepsHeights` | casper/src/rust/validate.rs:964-1006 | a block that passes the block-number rule leaves parents held and strictly lower than their children |
| `Dag.InsertKeepsSequence` | casper/src/rust/validate.rs:1106-1142 | a block that passes the sequence-number rule leaves sequence numbers stepping by one along creator justifications |
| `Dag.NumberRuleIff` | casper/src/rust/validate.rs:964-1006 | the rule accepts exactly a block whose parents are all held and lower, one of them directly below unless the block is at height 0 |
| `Dag.SequenceRuleIff` | casper/src/rust/validate.rs:1106-1142 | the rule accepts exactly a block whose first own justification is held and one below it, or that has none and the number 0 |
| `Dag.InsertIff` | casper/src/rust/validate.rs:964-1142 | a new block gets in exactly when it fits both, and nothing else changes |
| `Dag.GrownDagIsWellFormed` | casper/src/rust/validate.rs:964-1142 | every DAG grown by any run of guarded insertions obeys both rules and keeps every block it had |
| `Scores.AddValidatorWeight` | casper/src/rust/estimator.rs:309-364 | for any weights, one validator's walk credits its weight to exactly the blocks of its supporting chain down to the LCA height; which block is missing, and that an overflow is one of some block's sum |
| `Scores.SupportIsTheChain` | casper/src/rust/estimator.rs:309-364 | a latest message supports exactly the blocks of its main-parent chain down to the first below the LCA height; the walk fails exactly when one of them or its main parent is not held |
| `Scores.BuildScoresMap` | casper/src/rust/estimator.rs:274-381 | for any weights and every processing order a score map, if there is one, holds the summed weights of each block's supporters; with all walked blocks held and no negative bond it fails exactly when some total exceeds i64 |
| `Scores.TotalIsMonotone` | casper/src/rust/estimator.rs:309-381 | with non-negative weights a partial total never exceeds the whole, which is what makes the overflow verdict order-independent |
| `Scores.OverflowShows` | casper/src/rust/estimator.rs:347-354 | a credit that overflows on the way is an overflow of a final total |
| `Scores.ScoresGrow` | casper/src/rust/estimator.rs:309-381 | adding one latest message to the meaning of the score map is exactly one credit |
| `ForkChoice.RankedIsUnique` | shared/src/rust/shared/list_ops.rs:44-66 | any listing of a set sorted by score descending then hash ascending is the same list |
| `ForkChoice.RankedOrder` | shared/src/rust/shared/list_ops.rs:44-66 | the ranking lists higher scores first and, among equal scores, lower hashes |
| `ForkChoice.Best` | casper/src/rust/estimator.rs:440-453 | the chosen child has the greatest score and, among those, the least hash |
| `ForkChoice.FindHead` | casper/src/rust/estimator.rs:439-453 | the loop ends on the last block of the heaviest-child descent from the LCA |
| `ForkChoice.RankForkchoices` | casper/src/rust/estimator.rs:409-474 | the tips are the head followed by the ranked remaining frontier, for every order of the latest messages |
| `Ghost.ScoreIsSubtreeSupport` | casper/src/rust/estimator.rs:274-381 | with constant weights a block at or above the LCA height scores the weight sitting on it plus the scores of its scored main-parent children |
| `Ghost.TotalSplits` | casper/src/rust/estimator.rs:274-381 | without that assumption, a score splits into the weight sitting on the block and the weight behind each scored child |
| `Ghost.SiblingsShareScore` | casper/src/rust/estimator.rs:274-381 | two scored siblings together never outweigh their main parent |
| `Ghost.ChildrenShareScore` | casper/src/rust/estimator.rs:274-381 | any set of scored siblings together never outweighs their main parent |
| `Ghost.PathScoresFall` | casper/src/rust/estimator.rs:274-381 | scores fall along main-parent paths away from the LCA |
| `Ghost.MajorityBranchWins` | casper/src/rust/estimator.rs:274-453 | the descent from the LCA follows the whole main-parent path to any block that scores more than half the LCA's score, so the head is that block or descends from it |
| `Ghost.RisingBondsExample` | casper/src/rust/estimator.rs:274-453 | with a bond raised at the LCA, the descent leaves a child that scores more than half the LCA |
| `Ghost.DescentEnds` | casper/src/rust/estimator.rs:439-453 | the descent terminates on a block without scored main-parent children |
| `Ghost.DescentIsMainPath` | casper/src/rust/estimator.rs:416-453 | the head is a main-parent descendant of the LCA |
| `Ghost.LeafIsLatest` | casper/src/rust/estimator.rs:409-453 | a scored block without scored main-parent children is a latest message |
| `Ghost.TipsAreLatestMessages` | casper/src/rust/estimator.rs:409-474 | head first, the head is the LCA or a latest message, every other tip is a latest message, no tip twice, none with scored children |
| `Ghost.TipsAreAnAntichain` | casper/src/rust/estimator.rs:409-474 | among tips at or above the LCA height none is a main-parent ancestor of another |
| `Ghost.LatestLeadsToTip` | casper/src/rust/estimator.rs:409-474 | every latest message is a tip or a main-parent ancestor of one |
| `Estimator.TipsWithLatestMessages` | casper/src/rust/estimator.rs:83-171 | filtering, scoring, ranking, depth filter and cap compose to one function of the DAG and the latest messages; every tip is the LCA or a held and valid latest message, every score the summed weight of the validators behind the block whose latest message is held and valid; the only failure with everything held is an overflow, a real one if no bond is negative |
| `Estimator.AbstainersDoNotCount` | casper/src/rust/estimator.rs:97-121 | whether a validator has an invalid or unheld latest message, and which, makes no difference to what is scored and ranked |
| `Estimator.ScoreIsBacking` | casper/src/rust/estimator.rs:97-171 | a score is the weight of the validators whose held and valid latest message has the block on its chain |
| `Estimator.CountedAreScored` | casper/src/rust/estimator.rs:97-171 | every held and valid latest message is scored |
| `Estimator.TipsCount` | casper/src/rust/estimator.rs:97-171 | the tips are exactly the head and the held and valid latest messages without a scored main-parent child |
| `Estimator.ChosenCount` | casper/src/rust/estimator.rs:97-230 | what is left after depth filter and cap is the LCA or a held and valid latest message |
| `Estimator.TipsAreHeld` | casper/src/rust/estimator.rs:83-230 | with walks and latest messages held, so is every tip, so the depth filter can read them |
| `Estimator.TruncationKeepsHead` | casper/src/rust/estimator.rs:173-230 | the depth filter keeps exactly the tips within the depth of the head, in order; the cap keeps as many as allowed, and neither drops the head |
| `Equivocation.FindCanonicalChild` | casper/src/rust/equivocation_detector.rs:514-556 | the loop with its cycle guard computes the oldest block on the self-justification chain above the base, and terminates on any map, cyclic ones included |
| `Equivocation.WalkMeans` | casper/src/rust/equivocation_detector.rs:514-556 | the walk fails exactly when it comes by a block, or a justification of one, that is not held; otherwise it ends on a block of its chain with no step left above the base, or on a cycle |
| `Equivocation.LatestMessageHashes` | casper/src/rust/equivocation_detector.rs:314-332 | a validator maps to the hash of the last justification that names it |
| `Equivocation.SourceSpeaks` | casper/src/rust/equivocation_detector.rs:383-452 | a cited block speaks for the validator by itself if it is its author, and by the last justification of the validator otherwise, above the base only |
| `Equivocation.AddEquivocationChild` | casper/src/rust/equivocation_detector.rs:456-501 | a sound memo cache stays sound and does not change which child is added |
| `Equivocation.MaybeAddEquivocationChild` | casper/src/rust/equivocation_detector.rs:383-452 | a cited block adds exactly the held canonical child it exposes, without repeats |
| `Equivocation.IsEquivocationDetectable` | casper/src/rust/equivocation_detector.rs:334-379 | in any order of justifications the answer is that a witness is cited or more than one held canonical child is exposed; it fails only on a gap in the store |
| `Equivocation.DiscoveryStatus` | casper/src/rust/equivocation_detector.rs:242-313 | Neglected exactly for a record whose equivocator has positive stake and is detectable |
| `Equivocation.CheckNeglectedEquivocation` | casper/src/rust/equivocation_detector.rs:177-237 | over all records in any order the answer is the set-level meaning, and the tracker is left unchanged |
| `Equivocation.WalkReachesBase` | casper/src/rust/equivocation_detector.rs:514-556 | from any block of the validator above the base the walk ends on that chain's block with sequence number base + 1 |
| `Equivocation.GenesisRootsAreLow` | casper/src/rust/validate.rs:1106-1142 | creator justifications citing the sender's own block or a genesis of sequence 0 keep every chain rooted low |
| `Equivocation.BaseSuccessorIffRootsLow` | casper/src/rust/equivocation_detector.rs:514-556 | all walks land on the base's successor if and only if no chain is rooted above the base |
| `Equivocation.HighRootExample` | casper/src/rust/equivocation_detector.rs:514-556 | a DAG obeying the number and sequence rules on which the walk misses the successor of the base |
| `Equivocation.ExposedIsShown` | casper/src/rust/equivocation_detector.rs:383-501 | a child is exposed if and only if a cited block has it as the self-ancestor with sequence base + 1 |
| `Equivocation.DetectionIsAFork` | casper/src/rust/equivocation_detector.rs:334-379 | with no witness cited, detection holds if and only if the citations show two different blocks of the validator with the sequence number right after the base |
| `Equivocation.NeglectIsComplicity` | casper/src/rust/equivocation_detector.rs:177-379 | a block neglects a record exactly when the first bond of the equivocator is positive and it cites a witness, or cites two blocks that expose different blocks of the validator right after the base |
| `PendingBlocks.Inner.constructor` | block-storage/src/rust/pending_blocks.rs:153-165 | a new area is empty and consistent |
| `PendingBlocks.Inner.Remove` | block-storage/src/rust/pending_blocks.rs:82-95 | the entry leaves all five indexes and nothing else changes |
| `PendingBlocks.Inner.OldestUpTo` | block-storage/src/rust/pending_blocks.rs:97-103 | the least evictable entry by (tier, age), or none exactly when none is evictable |
| `PendingBlocks.Inner.OldestUnsolicitedFrom` | block-storage/src/rust/pending_blocks.rs:105-117 | a victim is found if and only if the sender has a block that was not requested, and it is the oldest of them across two tiers |
| `PendingArea.SenderVictimExists` | block-storage/src/rust/pending_blocks.rs:105-117 | with ages distinct, a sender has an oldest unrequested block exactly when it has any |
| `PendingBlocks.Inner.CanFitBlock` | block-storage/src/rust/pending_blocks.rs:119-130 | whether the block fits beside the entries it may not evict, read off the tier totals |
| `PendingBlocks.Inner.PromoteEntry` | block-storage/src/rust/pending_blocks.rs:132-145 | the entry moves up in every index and keeps its age |
| `PendingBlocks.Inner.EvictOldest` | block-storage/src/rust/pending_blocks.rs:234-247 | one turn of the eviction loops takes the oldest evictable entry |
| `PendingBlocks.Inner.MakeRoom` | block-storage/src/rust/pending_blocks.rs:229-248 | the eviction loop takes exactly the victims the order names, stops as soon as there is room, and never runs out of victims |
| `PendingBlocks.Inner.RemoveFirst` | block-storage/src/rust/pending_blocks.rs:230-233 | the sender's displaced block, if any, leaves first |
| `PendingBlocks.Inner.FileEntry` | block-storage/src/rust/pending_blocks.rs:250-262 | filing updates every index and uses up one age |
| `PendingBlocks.Inner.Admit` | block-storage/src/rust/pending_blocks.rs:229-266 | displacing, evicting and filing compose to the admitted area, with the victims reported in order |
| `PendingBlocks.Inner.Insert` | block-storage/src/rust/pending_blocks.rs:196-267 | the whole insertion is the area function, whose answers `PendingVerdicts` states outright, with all indexes exact and the limits met afterwards; the loop's own AreaFull exit is unreachable |
| `PendingBlocks.Inner.Resize` | block-storage/src/rust/pending_blocks.rs:171-185 | new limits evict exactly the named victims and are met afterwards |
| `PendingRuns.InsertKeepsInvariant` | block-storage/src/rust/pending_blocks.rs:196-267 | unique ages below the next one and both limits survive every insertion |
| `PendingRuns.SetLimitsKeepsInvariant` | block-storage/src/rust/pending_blocks.rs:171-185 | new limits are met, whatever the area held |
| `PendingRuns.DiscardKeepsInvariant` | block-storage/src/rust/pending_blocks.rs:82-95 | removal keeps the invariant |
| `PendingRuns.ReachableAreasAreSound` | block-storage/src/rust/pending_blocks.rs:71-267 | every state of every run of inserts, removals and resizes is sound |
| `PendingRuns.InsertIsAllOrNothing` | block-storage/src/rust/pending_blocks.rs:213-248 | an insert that is not accepted changes nothing and reports no eviction; an accepted one loses exactly what it reports and gains exactly its block |
| `PendingRuns.InsertRespectsQuota` | block-storage/src/rust/pending_blocks.rs:213-228 | no insert lifts any sender above the larger of its quota and its previous count |
| `PendingRuns.InsertSparesHigherTiers` | block-storage/src/rust/pending_blocks.rs:213-248 | an insert neither evicts nor changes an entry of a higher tier |
| `PendingRuns.VictimsAreAPrefix` | block-storage/src/rust/pending_blocks.rs:97-103 | the victims are a prefix of the (tier, age) order |
| `PendingRuns.VictimsAreMinimal` | block-storage/src/rust/pending_blocks.rs:229-248 | the victims are contained in every prefix of the (tier, age) order whose removal makes room |
| `PendingRuns.VictimsMakeRoom` | block-storage/src/rust/pending_blocks.rs:119-130 | where `can_fit` agrees, the victims do make room |
| `PendingRuns.PrioritySafety` | block-storage/src/rust/pending_blocks.rs:97-145 | along any run of inserts of tier at most c, no entry of a higher tier is ever evicted |
| `PendingRuns.HigherTiersStay` | block-storage/src/rust/pending_blocks.rs:97-145 | along such a run entries of higher tiers stay as they are |
| `PendingRuns.StepOnlyRaises` | block-storage/src/rust/pending_blocks.rs:132-145 | no operation lowers an entry's tier or changes its age or block |
| `PendingVerdicts.InsertVerdict` | block-storage/src/rust/pending_blocks.rs:196-228 | for a new block: TooLarge exactly above the byte limit, SenderLimitReached exactly when the sender is at its quota and the block is not requested or there is no unrequested one of the sender to displace, AreaFull exactly when it does not fit beside what it may not evict, Accepted otherwise |
| `PendingVerdicts.HeldVerdict` | block-storage/src/rust/pending_blocks.rs:196-212 | a block already held is accepted and raised to the tier if that outranks its own |
| `PendingVerdicts.AcceptedInsert` | block-storage/src/rust/pending_blocks.rs:229-266 | an accepted new block is filed with the next age beside what was not evicted |
| `PendingVerdicts.AcceptedBelowQuota` | block-storage/src/rust/pending_blocks.rs:229-248 | below the quota what is evicted is the least prefix of the (tier, age) order that makes room, oldest first |
| `PendingVerdicts.AcceptedAtQuota` | block-storage/src/rust/pending_blocks.rs:213-248 | at the quota the first evicted is the oldest unrequested block of the sender, then the least that makes room |
| `PendingVerdicts.ResizeVerdict` | block-storage/src/rust/pending_blocks.rs:171-185 | new limits are set and the least that meets them is evicted, oldest first |
| `BlockStore.ActKeepsCovered` | block-storage/src/rust/key_value_block_store.rs:277-343 | one atomic action of any call keeps: a hash both on disk and pending has a running call obliged to remove it |
| `BlockStore.DuplicatesAreCovered` | block-storage/src/rust/key_value_block_store.rs:277-343 | that holds after any interleaving of any number of calls |
| `BlockStore.QuiescentStoreIsDisjoint` | block-storage/src/rust/key_value_block_store.rs:277-343 | once all calls have returned no hash is both on disk and pending |
| `BlockStore.CallsFinish` | block-storage/src/rust/key_value_block_store.rs:277-343 | every action brings its call nearer to its end and leaves the other calls where they are |
| `BlockStore.ObligationIsMet` | block-storage/src/rust/key_value_block_store.rs:302-343 | an obliged call that runs to its end leaves the hash in at most one place |
| `BlockStore.AreaStaysSound` | block-storage/src/rust/key_value_block_store.rs:277-351 | the pending area keeps its own invariant under any interleaving |
| `BlockStore.StoringNeverLoses` | block-storage/src/rust/key_value_block_store.rs:277-326 | in one event, a block leaves the pending area only if it is on disk or reported evicted |
| `BlockStore.RunNeverLoses` | block-storage/src/rust/key_value_block_store.rs:277-326 | while only storing calls run, a block leaves the pending area only for the disk or by a reported eviction, and never leaves the disk |
| `BlockStore.CopyStays` | block-storage/src/rust/key_value_block_store.rs:277-343 | through any interleaving, discards of other blocks under its hash included, a copy on disk stays as it is unless a put writes another or a discard names it |
| `BlockStore.CallsBegin` | block-storage/src/rust/key_value_block_store.rs:277-351 | each call of the store can be made, and begins with its first access |
| `BlockStore.PutAlone` | block-storage/src/rust/key_value_block_store.rs:277-283 | a put writes its block and takes the hash out of the pending area |
| `BlockStore.PersistAlone` | block-storage/src/rust/key_value_block_store.rs:320-326 | a persist leaves its block, or the one already there, on disk and the hash not pending |
| `BlockStore.PutPendingAlone` | block-storage/src/rust/key_value_block_store.rs:302-318 | a pending put changes nothing where the disk has the block, and is an insertion where it has not |
| `BlockStore.DiscardCopyAlone` | block-storage/src/rust/key_value_block_store.rs:332-343 | a discard removes a copy equal to its block, from the disk if the hash is there and otherwise from the pending area, and nothing else |
| `BlockStore.DiscardPendingAlone` | block-storage/src/rust/key_value_block_store.rs:328-330 | the pending entry goes, and nothing else |
| `BlockStore.ResizeAlone` | block-storage/src/rust/key_value_block_store.rs:349-351 | the new limits are the area's own resize |
| `BlockStore.TurnsAlone` | block-storage/src/rust/key_value_block_store.rs:277-351 | enough turns of one call with nothing between them are the call run alone |
| `BlockStore.CallsReturn` | block-storage/src/rust/key_value_block_store.rs:277-351 | a call that gets its turns returns, whatever other calls do between them |
| `BlockStore.StoredOnceReturned` | block-storage/src/rust/key_value_block_store.rs:277-326 | through any interleaving of storing calls, a put or persist that has returned, or has had its turns, has its hash on disk |
| `DeploySigCache.RememberKeepsFifo` | block-storage/src/rust/key_value_block_store.rs:565-581 | the order lists the cached keys exactly, without repeats, at most 1024 of them |
| `DeploySigCache.SurvivesNewerKeys` | block-storage/src/rust/key_value_block_store.rs:565-581 | a cached key survives as many insertions as it has room ahead of it in the queue |
| `DeploySigCache.FreshKeyLasts` | block-storage/src/rust/key_value_block_store.rs:565-581 | a new key outlives the next 1023 insertions |
| `DeploySigCache.NewestKeysStay` | block-storage/src/rust/key_value_block_store.rs:565-581 | of keys not cached before, the cache holds exactly the last 1024 to come, in that order |
| `DeploySigCache.RememberAgrees` | block-storage/src/rust/key_value_block_store.rs:565-581 | caching what a decode yields keeps the cache in agreement with the bodies |
| `DeploySigCache.Sigs` | block-storage/src/rust/key_value_block_store.rs:256-271 | the signatures of a body in order, an error exactly when a deploy is missing or a signature is short |
| `DeploySigCache.ReadSigs` | block-storage/src/rust/key_value_block_store.rs:256-271 | the reading loop yields those signatures or the first error |
| `DeploySigCache.ReadSigsAny` | block-storage/src/rust/key_value_block_store.rs:189-209 | the searching loop reads every signature, so a short one is an error even after a match |
| `DeploySigCache.SigCache.CacheDeploySigs` | block-storage/src/rust/key_value_block_store.rs:565-581 | the eviction loop and the queue implement the cache function |
| `DeploySigCache.SigCache.HasAnyDeploySigOpt` | block-storage/src/rust/key_value_block_store.rs:170-212 | for a held block and a non-empty query the answer is that of a fresh decode, a short signature always being an error, and cached bodies stay in agreement |
| `DeploySigCache.SigCache.DeploySigs` | block-storage/src/rust/key_value_block_store.rs:241-275 | for a held block the list is that of a fresh decode, errors included |
| `Slashing.EpochIsAWindow` | casper/src/rust/slashing_authorization.rs:140-148 | a block number is in epoch e exactly if it lies in the e-th window of the epoch length |
| `Slashing.EpochIff` | casper/src/rust/slashing_authorization.rs:140-148 | which epoch a number has, and exactly when it has none, by window bounds |
| `Slashing.OffendsIff` | casper/src/rust/slashing_authorization.rs:262-364 | an offender is a bonded validator with an invalid block in the window of the epoch |
| `Slashing.SuppressedIff` | casper/src/rust/slashing_authorization.rs:280-303 | issuance is suppressed exactly when the last finalized block is numbered past the window of the epoch |
| `Slashing.AuthorizedSlashCandidates` | casper/src/rust/slashing_authorization.rs:262-364 | unless suppressed, exactly one candidate per bonded offender with current-epoch evidence, with the least evidence hash, in offender order, for every iteration order |
| `Slashing.CandidatesAreUnique` | casper/src/rust/slashing_authorization.rs:262-364 | that description leaves one list only |
| `Slashing.ValidateReceivedSlashDeploys` | casper/src/rust/slashing_authorization.rs:382-532 | the loop over deploys with its set of seen targets computes the first fault, or none |
| `Slashing.VerdictMeaning` | casper/src/rust/slashing_authorization.rs:382-532 | acceptance is that every slash is faultless and no two share an offender |
| `Slashing.FaultMeans` | casper/src/rust/slashing_authorization.rs:382-532 | what each refusal of a single slash means; the shared authorization test at the end refuses nothing the others let through |
| `Slashing.AcceptedIff` | casper/src/rust/slashing_authorization.rs:382-532 | a block with slashes is accepted exactly when its number has an epoch, its sequence number is not negative, each of its slashes is the sender's own, for the current epoch, against a bonded validator with a held invalid block in the window, and no two have one offender |
| `SlashAgreement.ProposerSatisfiesReceiver` | casper/src/rust/slashing_authorization.rs:262-532 | a block numbered max + 1 whose slashes are issued candidates, all or some, none twice and issued by its non-empty sender, is accepted |
| `SlashAgreement.AcceptedSlashesAreOffenders` | casper/src/rust/slashing_authorization.rs:382-532 | an accepted list names distinct offenders, each one a bonded offender with current-epoch evidence, each issued by the sender |
| `NeglectedBlock.SlashTargets` | casper/src/rust/validate.rs:1703-1754 | the collected pairs are the offenders the block slashes in its epoch |
| `NeglectedBlock.NeglectedInvalidBlock` | casper/src/rust/validate.rs:1684-1798 | Neglected only when some justification cites an invalid block that has to be slashed and is not, Fine only when none does, no fault where held numbers are natural; there a block carrying every candidate and citing validators' own blocks is answered Fine |
| `NeglectedBlock.BondMap` | casper/src/rust/validate.rs:1698-1702 | a validator maps to the stake of its last bond entry |
| `NeglectedBlock.NeglectMeans` | casper/src/rust/validate.rs:1703-1795 | in terms of the block and the DAG alone: which cited block is neglected, by epoch window, last bonds and the block's own slashes |
| `NeglectedBlock.NeglectIffBorrowedBond` | casper/src/rust/validate.rs:1756-1795 | for a block carrying every candidate, neglect is exactly a bond borrowed from the validator a justification names |
| `NeglectedBlock.NeglectOfIssued` | casper/src/rust/slashing_authorization.rs:262-364 | for a block whose slashes are exactly what the proposer issues, neglect is a borrowed bond or, under suppression, any cited block that has to be slashed |
| `NeglectedBlock.SuppressedExample` | casper/src/rust/validate.rs:1756-1795 | a concrete suppressed proposer that is told it neglected a bonded validator's own invalid block |
| `NeglectedBlock.CompleteProposerIsFine` | casper/src/rust/validate.rs:1756-1795 | when justifications cite blocks of their own validators, none of them makes a complete proposer neglectful |
| `NeglectedBlock.BorrowedBondExample` | casper/src/rust/validate.rs:1756-1795 | a concrete block and snapshot where a complete proposer is told it neglected a block |
| `Ancestors.BfTraverse` | shared/src/rust/dag/dag_ops.rs:6-38 | the traversal lists exactly the reachable blocks, each once |
| `Ancestors.LowestParent` | casper/src/rust/validate.rs:1393-1400 | the least number among the held declared parents and the block's own |
| `Ancestors.TruncationIsLossless` | casper/src/rust/validate.rs:1393-1413 | a held declared parent is in the truncated closure of the previous block if and only if it is in the full one |
| `Ancestors.UnheldParentKeptIff` | casper/src/rust/validate.rs:1393-1413 | a declared parent that is not held stays in the truncated closure if and only if a reached block at or above the floor cites it |
| `Ancestors.UnheldParentLosslessIff` | casper/src/rust/validate.rs:1393-1413 | the two closures agree on it if and only if such a block exists or no reached block cites it at all |
| `Ancestors.PathStaysAbove` | casper/src/rust/validate.rs:1393-1413 | every path to a held block at or above the floor survives the truncation |
| `Ancestors.CheckSpread` | casper/src/rust/validate.rs:1277-1337 | the pairwise loop finds whether two parents are further apart than allowed |
| `Ancestors.ValidateParents` | casper/src/rust/validate.rs:1215-1460 | the loops compute the parents rule with the truncated closure, every error in its order |
| `Ancestors.SpreadIff` | casper/src/rust/validate.rs:1277-1337 | the spread is too wide exactly when two held parents, the lower not genesis, are further apart than allowed |
| `Ancestors.ParentsOkIff` | casper/src/rust/validate.rs:1215-1460 | a block passes exactly when count and spread are within limits and its sender has no latest message, or has a held one and the block has a user deploy, slashes, only closes, follows a block without parents or names a parent that is not reached, or the progress rule is off |
| `Ancestors.TruncatedRuleIsTheRule` | casper/src/rust/validate.rs:1215-1460 | with declared parents held, the verdict equals that of the rule with the full closure |
| `Ancestors.TruncatedRuleDiffersIff` | casper/src/rust/validate.rs:1215-1460 | in general the verdicts differ if and only if progress decides, no declared parent is new, and an unheld one is cited only from below the floor; the truncated rule is then the lenient one |
| `Ancestors.UnheldParentExample` | casper/src/rust/validate.rs:1393-1460 | a block that the truncated rule passes and the full one refuses |
| `RepeatDeploy.EnqueueParents` | casper/src/rust/util/proto_util.rs:341-356 | the loop over parents queues each new one of the window once, in order, and stops at one that is not held |
| `RepeatDeploy.QueueParents` | casper/src/rust/util/proto_util.rs:341-356 | it fails exactly when a parent is neither met nor held; met are exactly the old ones and the parents in the window, queued exactly the old ones and the newly met, without repeats |
| `RepeatDeploy.ReadThroughCache` | block-storage/src/rust/key_value_block_store.rs:155-167 | with any cache that agrees with the bodies, a block on disk reads as without a cache, decode errors included, and any answer is the right one |
| `RepeatDeploy.Scan` | casper/src/rust/util/proto_util.rs:320-359 | with any agreeing cache, a carrier is found if and only if one is in scope, and an error means something in scope is not held or not readable; with the scope on disk the outcome is that of reading the disk alone |
| `RepeatDeploy.KeysToScan` | casper/src/rust/validate.rs:741-812 | only signatures an engaged index proves absent are dropped, and after a failed probe none is |
| `RepeatDeploy.FindExempt` | casper/src/rust/validate.rs:667-712 | exempt are exactly the rejected signatures whose gate is open; a read error, or the first deploy whose gate is shut or unreadable, ends the check |
| `RepeatDeploy.FirstBarred` | casper/src/rust/validate.rs:667-712 | the first deploy that was rejected and whose gate does not open |
| `RepeatDeploy.ContextFaultIff` | casper/src/rust/validate.rs:662-712 | the context ends the check exactly when it cannot be read or some rejected deploy has a gate that does not open, with the verdict of the first such |
| `RepeatDeploy.WindowIff` | casper/src/rust/validate.rs:658-660 | a block is in the window exactly when no parent is the threshold or more above it |
| `RepeatDeploy.ScopeIff` | casper/src/rust/util/proto_util.rs:320-359 | in scope are the starts and, of a block in scope, the held parents no lower than the earliest height |
| `RepeatDeploy.RepeatMeans` | casper/src/rust/validate.rs:635-853 | the right verdict in the block's own terms: when it is a repeat, when valid, and which parent is missing |
| `RepeatDeploy.ShortcutKeepsVerdict` | casper/src/rust/validate.rs:725-853 | a complete index that covers the parents changes no verdict, for any pattern of probe failures |
| `RepeatDeploy.ShortcutKeepsScan` | casper/src/rust/validate.rs:725-853 | while a signature is left to look for, the pruned scan takes the course of the full one, errors included |
| `RepeatDeploy.ClearedIsValid` | casper/src/rust/validate.rs:813-815 | when the index clears every signature, nothing in scope carries one and the full scan finds none |
| `RepeatDeploy.UncoveredStartBreaksShortcut` | casper/src/rust/validate.rs:725-853 | for every declared parent below the watermark, bodies and a complete index on which the shortcut misses a repeat |
| `RepeatDeploy.ShortcutSafeIffStartsCovered` | casper/src/rust/validate.rs:725-853 | a complete index may replace the scan if and only if every declared parent is at or above the watermark |
| `RepeatDeploy.NarrowParentsAreCovered` | casper/src/rust/validate.rs:658-660 | parents that spread less than the expiration threshold are covered |
| `RepeatDeploy.CheckRepeatDeploy` | casper/src/rust/validate.rs:635-853 | where the index serves, a verdict without a scan error is the right one; with the scope on disk it is that of the full scan without index and cache, decode errors included, but for a block the index clears altogether; a scan error means something in scope is not held or not readable |
| `Rho.UnionBytes` | rho-pure-eval/src/eval.rs:55-63 | the in-place loop computes the union of the bit sets, the shorter padded with zeros |
| `Rho.ConcatUnit` | rho-pure-eval/src/eval.rs:39-53 | the empty term is the unit of parallel composition |
| `Rho.SameIffStripped` | models/src/lib.rs:107-680 | the node's equality of terms is equality after clearing free-level sets at every depth |
| `Rho.NanBits64` | rho-pure-eval/src/eval.rs:289 | a double is a NaN exactly when every exponent bit is set and the fraction is not zero |
| `Rho.NanBits32` | rho-pure-eval/src/eval.rs:290 | the same of single precision |
| `Rho.NanOfConcat` | rho-pure-eval/src/eval.rs:284-300 | the NaNs of terms in parallel are those of the terms |
| `Rho.NanOfList` | rho-pure-eval/src/eval.rs:284-300 | those of a list, tuple or set are those of its members |
| `Rho.NanOfMap` | rho-pure-eval/src/eval.rs:284-300 | those of a map are those of its keys and values |
| `EvalRuns.Eval` | rho-pure-eval/src/eval.rs:16-37 | in every environment the accumulating loop computes the recursive evaluation with its first error, or runs out of the given depth of lookups; in an acyclic one the term's depth is enough |
| `EvalRuns.RunAgrees` | rho-pure-eval/src/eval.rs:16-189 | without cycles evaluation ends, and its answer is the value or the error |
| `EvalRuns.IndexCountsFromTop` | rho-pure-eval/src/env.rs:35-55 | a variable evaluates as the binding that many places below the top, counted from the shift, and is unbound exactly outside the stack |
| `EvalRuns.PushedIsIndexZero` | rho-pure-eval/src/env.rs:35-38 | a binding just pushed is index 0 |
| `EvalRuns.IndicesMove` | rho-pure-eval/src/env.rs:35-62 | a push moves every index up by one and a shift by j moves it by j |
| `EvalRuns.OneMoreExpression` | rho-pure-eval/src/eval.rs:16-53 | a term with one more expression evaluates as the term and then the expression, the first without a value deciding, and the results in parallel field by field |
| `EvalRuns.MoreFuelChangesNothing` | rho-pure-eval/src/eval.rs:16-189 | an answer once given is the answer for any greater depth |
| `EvalRuns.RunIsIdempotent` | rho-pure-eval/src/eval.rs:16-189 | evaluating a successful result again, in any environment, cyclic or not, gives it back |
| `EvalEnds.NeverEndsIff` | rho-pure-eval/src/eval.rs:16-199 | evaluation has no answer at any depth if and only if it needs, past no error, a binding of a set whose members each need another member |
| `EvalRuns.SelfReferenceNeverEnds` | rho-pure-eval/src/eval.rs:96-102 | a binding that is a reference to itself has no answer at any depth |
| `EvalRuns.CutOffCycleExample` | rho-pure-eval/src/eval.rs:96-102 | an environment with a cycle in which an earlier error ends the evaluation |
| `EvalRuns.EvalIsIdempotent` | rho-pure-eval/src/eval.rs:16-189 | the same for values between acyclic environments |
| `PureEval.NeqNegatesEq` | rho-pure-eval/src/eval.rs:266-282 | `!=` negates `==`, NaN or not, and fails exactly when it does |
| `PureEval.EqualIffStripped` | rho-pure-eval/src/eval.rs:266-300 | `==` holds exactly between values without NaN that differ in nothing but free-level sets |
| `PureEval.SingleIff` | rho-pure-eval/src/eval.rs:224-246 | an operand counts as one value exactly when it is one expression and nothing else |
| `PureEval.UnaryOperators` | rho-pure-eval/src/eval.rs:104-126 | `!` negates a boolean and `-` an integer other than the least; anything else is reported with its type |
| `PureEval.SelfEqualIffNoNan` | rho-pure-eval/src/eval.rs:266-300 | a term equals itself if and only if its value holds no NaN |
| `PureEval.DivideAndModRecompose` | rho-pure-eval/src/eval.rs:343-362 | division and remainder fail together, on zero and on the least integer by -1, and otherwise recompose the dividend with a remainder smaller than the divisor |
| `PureEval.DivisionIsTruncating` | rho-pure-eval/src/eval.rs:159-164 | truncating division: sign of the remainder, size of the quotient, and when it does not fit |
| `PureEval.RecompositionEvaluates` | rho-pure-eval/src/eval.rs:150-164 | `(x / y) * y + x % y` evaluates to `x` and `x - (x / y) * y` to `x % y`, never overflowing, wherever the division does not fail |
| `PureEval.ComparisonsAgree` | rho-pure-eval/src/eval.rs:302-321 | the four comparisons describe one total order: the usual one on integers, false before true, strings by the first character that differs |
| `PureEval.OrderDecidesSameness` | rho-pure-eval/src/eval.rs:127-148 | through the evaluator, `<=` and `>=` together hold exactly on the same value, and `<` or `>` exactly on different ones |
| `PureEval.StringsAreOrdered` | rho-pure-eval/src/eval.rs:316 | the string comparison is antisymmetric and zero only on equal strings |
| `PureEval.StringOrderIsTransitive` | rho-pure-eval/src/eval.rs:316 | the string comparison is transitive |
| `PureEval.StringLessIff` | rho-pure-eval/src/eval.rs:316 | a string is less exactly when it ends first or has the smaller character where the two first differ |
| `Substitution.EvalOfConcat` | rho-pure-eval/src/eval.rs:16-53 | without an environment, evaluation distributes over parallel composition, the first error winning |
| `Substitution.EvalIsValues` | rho-pure-eval/src/eval.rs:16-37 | without an environment, evaluation works on the expressions alone |
| `Substitution.InlineAgrees` | rho-pure-eval/src/eval.rs:16-199 | evaluating under any acyclic environment equals inlining its bindings and evaluating under none: same term or same error with the same contents |
| `Substitution.SubstitutionLemma` | rho-pure-eval/src/eval.rs:16-199 | the same for closed bindings, with indices that do not resolve reported alike |
| `Substitution.InlineIsClosed` | rho-pure-eval/src/eval.rs:96-102 | the inlined term looks nothing up any more |
| `Substitution.ClosedInlinesToItself` | rho-pure-eval/src/eval.rs:96-102 | a term that looks nothing up is inlined to itself, so closed bindings go in as they stand |
| `Substitution.ResultFields` | rho-pure-eval/src/eval.rs:16-53 | all of a result but its expressions is that of the inlined term |
| `EvalProcesses.RunKeeps` | rho-pure-eval/src/eval.rs:16-53 | a result never has fewer processes than its term, and the same ones exactly when every expression evaluates to none |
| `EvalProcesses.ProcessesUnchangedIff` | rho-pure-eval/src/eval.rs:10-37 | in every environment in which the term evaluates, its process fields pass through unchanged if and only if no binding looked up, directly or through others, has processes |
| `EvalProcesses.AcyclicProcessesUnchangedIff` | rho-pure-eval/src/eval.rs:10-37 | the same of the value in an acyclic environment |
| `EvalProcesses.ClosedLookups` | rho-pure-eval/src/eval.rs:96-102 | with closed bindings, what is looked up are the variables of the term itself |
| `EvalProcesses.BoundSendExample` | rho-pure-eval/src/eval.rs:96-102 | evaluating a lone variable bound to a sending term yields the send |
| `EvalProcesses.IndirectSendExample` | rho-pure-eval/src/eval.rs:96-102 | so does a variable bound to a variable that is bound to it |
| `Synchrony.RecoveryTable.constructor` | casper/src/rust/synchrony_constraint_checker.rs:234-237 | the table starts empty |
| `Synchrony.RecoveryTable.UpdateOnSuccess` | casper/src/rust/synchrony_constraint_checker.rs:239-245 | a known validator's record is cleared, no other changes |
| `Synchrony.RecoveryTable.ShouldBypass` | casper/src/rust/synchrony_constraint_checker.rs:44-80 | the record step with its stall, cooldown and budget tests |
| `Synchrony.BypassIff` | casper/src/rust/synchrony_constraint_checker.rs:44-80 | a bypass needs the stall window since the first failure, the cooldown since the last bypass, and a budget not used up or last drawn on a stall window ago |
| `Synchrony.BypassLeaves` | casper/src/rust/synchrony_constraint_checker.rs:44-80 | what a record remembers afterwards: a bypass and its time, or one more failure of a streak whose beginning stays |
| `Synchrony.CounterCountsStreak` | casper/src/rust/synchrony_constraint_checker.rs:44-47 | over every run the failure counter is the length of the current streak, up to the largest u32 |
| `Synchrony.RecoveryTable.ShouldBypassConstraint` | casper/src/rust/synchrony_constraint_checker.rs:277-308 | a known hash takes the record step, a new one starts a record |
| `Synchrony.RecoveryTable.Conclude` | casper/src/rust/synchrony_constraint_checker.rs:388-467 | a check's effect on the table, a granted bypass recorded as a success |
| `Synchrony.BypassesAreForgotten` | casper/src/rust/synchrony_constraint_checker.rs:449-464 | in every reachable table no record remembers a bypass |
| `Synchrony.GrantedMeans` | casper/src/rust/synchrony_constraint_checker.rs:44-80 | a bypass is decided by the known hash and the recorded stall alone |
| `Synchrony.KnowsLastHolds` | casper/src/rust/synchrony_constraint_checker.rs:289-306 | the table knows exactly the validators that have failed, each with its latest failing hash |
| `Synchrony.CooldownAndBudgetAreIdle` | casper/src/rust/synchrony_constraint_checker.rs:44-80 | two configurations that agree on the stall window and on whether bypasses are allowed give the same run |
| `Synchrony.FirstFailureIsAStart` | casper/src/rust/synchrony_constraint_checker.rs:28-50 | a recorded first failure is the time a current failure streak began |
| `Synchrony.StreaksAreRecorded` | casper/src/rust/synchrony_constraint_checker.rs:28-50 | every current failure streak is on record, with a first failure no later than its start |
| `Synchrony.GrantedIffStalled` | casper/src/rust/synchrony_constraint_checker.rs:277-308 | over every run a failing check is let through if and only if bypasses are allowed, the previous failure was on the same hash, and failures on it have gone on for the window |
| `Synchrony.BypassesAreSpaced` | casper/src/rust/synchrony_constraint_checker.rs:449-464 | two bypasses of one validator are at least the stall window apart |
| `Synchrony.StalledValidatorsGetThrough` | casper/src/rust/synchrony_constraint_checker.rs:277-308 | a validator that keeps failing on one hash is let through by any check a window or more after its failures began, if not before |

## Left out

- PureEval.EvalPar: the value as a function, and with it the substitution theorem, is defined for acyclic environments; `EvalRuns.RunPar` covers the others, with a bound on the depth of lookups where the evaluator has its stack.
- Rho.Same: processes under a term are tokens compared as the node compares them, so the recursive equality inside sends, receives and the other process fields is not spelled out.
- Rho.Position: does not model i32 overflow of the index arithmetic.
- `Env::extended`: it repeats `put`.
- RepeatDeploy.CheckRepeatDeploy: the rejected signatures and the retry gate, with their read errors, are parameters; the finalized-floor walk that computes them is not modelled.
- Equivocation.CheckNeglectedEquivocation: the update of the tracker in `check_neglected_equivocations_with_update` and `check_equivocations` are not modelled.
- Estimator.TipsWithLatestMessages: the LCA computation is a parameter; the model takes any block it may answer.
- Synchrony.RecoveryTable.Conclude: whether the constraint is satisfied is an input, because the ratio of seen weight is floating point; `calculate_seen_senders_since` would only add a set union.
- BlockStore.DuplicatesAreCovered: store errors in the middle of a call are not modelled, nor is `get`, which reads disk and pending in two steps.
- The clique oracle, the finalized floor, the DAG merger, the tuple space and the Rholang reducer.
- Signatures, hashing, protobuf, compression and buffers: encoding is taken as given, with a size.
- The remaining block-summary checks (timestamps, expiration, shard identifiers, phlo price): comparisons without state.
- Agreement between the estimator's depth filter and the parent-spread rule: the proposer's filter that links them is not part of this model.
- Poisoned locks, metrics, tracing, work metering and networking.
