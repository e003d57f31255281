# Verification of OptiLog's consensus, tree search and supporting structures

This project models four parts of the repository in Dafny and proves properties of the model.

* **Consensus.** A replica is an object with the fields of `consensusBase` and of its rule set. All
  replicas together form a state machine in which at most NumFaulty(n) replicas sign and send whatever
  they like, and anyone builds any block. `RuleConditions` spells out what a step signs, locks and
  decides, and `Invariant` holds what each step keeps with either rule set. The order of certificates
  and SimpleHotStuff agreement are theorems about every run. Where the code keeps a promise only under a condition, the condition is proved exact: `Agreement` and `ChainedGap` do
  that for the views and the certificates behind ChainedHotStuff's decisions, `LogCondition` for the
  executed logs. `ChainedGap` and `LogGap` hold the runs in which the conditions fail, for every
  configuration. `OnPropose` is one step: when it is about to sign, the view change it asks for may have the
  replica propose and handle its own next block before the test of `lastVote`, which equals handling
  that block first, as it carries the same certificate.
* **Tree search.** The backtracking enumerator in both versions, the in-place latency evaluation with
  its sorting and leaf moves, and the search by one worker a root over a shared optimum. `PathTimes` says
  what a quorum latency is in terms of the paths that messages take. A turn of a
  worker is one evaluation: it touches the shared result only inside one critical section, so choosing
  the next worker freely gives every interleaving. Each worker's trees are the recorded calls of the
  enumerator, which its callback does not influence.
* **Aggregation and roles.** Handel's halving, Kauri's heap tree and the suspicion graph.
* **Supporting state.** Vote collection, pruning and its history over many commits, the twins generators
  and the event queue.

Loops over Go maps are loops that pick an arbitrary remaining key. Where a map changes while it is
iterated (`RoleAssignment.OptiTree.ImproveEdges`) an entry that is put in, or put back, may come up any
finite number of times.

## Assumptions

* Hashes do not collide, and a hash can only be named once it exists: hashes are numbers, and a block's
  hash is larger than those it names.
* Signatures cannot be forged: a certificate verifies when its signers have signed.
  `VoteCollection` leaves single-signature verification abstract and takes signatures to be stored under
  their signer, as `RestoreMultiSignature` stores them (overhead/crypto/ecdsa/ecdsa.go:68-74).
* The configuration is fixed.
* `Get` finds every certified block. Other blocks may or may not be found.
* Nothing is assumed of the blocks that anyone builds. Commit and ChainedHotStuff's vote rule follow
  parent links, and `OnPropose` does not compare a block's parent with its certificate, so some theorems
  ask something of the blocks that are certified when the run ends. *Shaped*: the parent is the block the
  certificate names, as `Propose` builds it (overhead/consensus/consensus.go:218-220). *Landing*, which is
  weaker: the walk along parents down to the view of the block the certificate names ends in that block,
  or misses a block. Blocks of the repository's own fork proposer are not shaped, but land
  (`Logs.ForkProposalLands`).
* Latencies are integers without overflow, and not negative where a quorum time is stated.
* The suspicion graph is symmetric and loop-free, and 0 is not a replica.

## Where the code differs from what is said about it

* `NextScenario` never returns the scenario of the last combination: base ^ views - 1 scenarios come
  out, while the log message at overhead/twins/generator.go:86-89 announces base ^ views and `remaining`
  stays at 1 (`Scenarios.AllScenarios`).
* `genPartitionSizes` is described as wanting a part greater than `minSize`
  (overhead/twins/generator.go:162-164); a first part equal to it is generated too
  (`PartitionSizes.GeneratesPartitions`).
* ChainedHotStuff returns a block without a test of its views. In every configuration and for all views that
  are not consecutive there is a run in which a decision from them conflicts with another, though no replica
  misbehaves; decisions from given views are final in all runs exactly when the views are consecutive or the
  block is genesis, given that certificates keep up (`ChainedGap.FinalExactlyWhenConsecutive`).
* Nor does ChainedHotStuff make certificates keep up. A certified block with an older certificate can pass a
  decision from consecutive views by, when its parent is the lock (`ChainedGap.ChainedNeedsKeepingUp`). A
  decision from consecutive views is final exactly when no certified block more than two views above it has
  a certificate older than it (`Agreement.ChainedAgreement`). The first branch of the vote rule asks for a
  certificate newer than the lock (overhead/consensus/chainedhotstuff/chainedhotstuff.go:85-87); it is the
  second that lets older ones pass. Along parents such a block does extend the decision
  (`Agreement.BranchAgreement`).
* The logs of correct replicas need not be prefixes of each other, not even with SimpleHotStuff. With one
  faulty replica of four, a certified block whose parent is not the block its certificate names makes one
  correct replica execute [X, Y] and another [Y] (`LogGap.UnshapedBlockForksLogs`). In every run of either
  rule set the logs are parent paths after each step exactly when every commit walks down to the block its
  replica executed last, and are prefix-ordered as well exactly when every committed block is also on one
  branch with what the other correct replicas executed (`LogCondition.FollowExactly`).
* The walk in PruneToHeight along the committed branch does not end when a block was indexed over its own
  parent, of the same view (`BlockChain.WalkNeedNotEnd`). It ends exactly when it comes to no view twice
  (`BlockChain.EndsExactly`).
* `verifyCert` appends votes without looking for an earlier one of the same replica. A repeated vote
  makes every later combination for that block fail (`VoteCollection.RepeatedVoteBlocks`), so nothing
  unsound comes out, but nothing at all comes out until the votes are cleaned up.
* `QuorumSize` is described as 2f + 1 (overhead/helper.go:8) and computes n - f, which is the same only for
  n = 1, 4, 7 and so on (`Quorum.QuorumSizeIsTwoFPlusOne`).
* With no views in the settings `remaining` announces one scenario, but NextScenario returns an empty one
  each time it is called and never reports the end (`Scenarios.EndlessScenarios`).
* The node set that computeMG1 works on is never cleared. Nodes left from an earlier suspicion graph stay as
  they are, and come up as candidates again if they had no partner
  (`RoleAssignment.OptiTree.GetTotalInternalNodesSet`).

## Model

| member | source | states |
|---|---|---|
| `Quorum.QuorumIntersection` | overhead/helper.go:4-11 | any two sets of QuorumSize replicas share a correct one, with at most NumFaulty faulty |
| `Quorum.NumFaultyIsLargest` | overhead/helper.go:4-11 | NumFaulty is the largest number below a third of all replicas, and QuorumSize is all others |
| `Quorum.QuorumSizeIsTwoFPlusOne` | overhead/helper.go:8-11 | for which numbers of replicas the documented 2f + 1 is what is computed |
| `SimpleHotStuff.Rules.constructor` | overhead/consensus/simplehotstuff/simplehotstuff.go:28-32 | the lock starts at genesis |
| `SimpleHotStuff.Rules.VoteRule` | overhead/consensus/simplehotstuff/simplehotstuff.go:40-62 | true exactly when the view is no older than the synchronizer's and the certified block is found and no older than the lock |
| `SimpleHotStuff.Rules.CommitRule` | overhead/consensus/simplehotstuff/simplehotstuff.go:65-88 | decides exactly when the three blocks down the certificates are found and their views span two; the lock it leaves, at every exit |
| `ChainedHotStuff.Rules.constructor` | overhead/consensus/chainedhotstuff/chainedhotstuff.go:26-30 | the lock starts at genesis |
| `ChainedHotStuff.Rules.VoteRule` | overhead/consensus/chainedhotstuff/chainedhotstuff.go:79-98 | true exactly when the certified block is newer than the lock or the walk of parent links ends in the lock |
| `ChainedHotStuff.Rules.CommitRule` | overhead/consensus/chainedhotstuff/chainedhotstuff.go:45-76 | decides exactly when the three blocks down the certificates are found and the upper two have the next ones as parents; the lock it leaves |
| `ReplicaObject.ConsensusBase.constructor` | overhead/consensus/consensus.go:68-76 | a fresh replica |
| `ReplicaObject.ConsensusBase.StopVoting` | overhead/consensus/consensus.go:114-118 | raises lastVote and changes nothing else |
| `ReplicaObject.ConsensusBase.OnPropose` | overhead/consensus/consensus.go:242-313 | the whole new state, and whether the block was signed, for every proposal and surroundings |
| `ReplicaObject.ConsensusBase.Commit` | overhead/consensus/consensus.go:340-349 | executes the path or nothing |
| `ReplicaObject.ConsensusBase.CommitInner` | overhead/consensus/consensus.go:359-375 | a failure deep in the recursion leaves the executed log and bExec as they were |
| `RuleConditions.SignsExactly` | overhead/consensus/consensus.go:242-313 | a step adds a signature of a correct replica, and raises its lastVote, exactly when the certificate verifies, the vote rule's conditions hold, the command is accepted, the view is above lastVote and signing succeeds |
| `RuleConditions.SignaturesExactly` | overhead/consensus/consensus.go:242-313 | in every run the signatures of a correct replica are those of the proposals it took and signed so |
| `RuleConditions.StopsExactly` | overhead/consensus/consensus.go:114-118 | StopVoting raises the view that later signatures must be above, and does nothing else |
| `RuleConditions.SimpleDecidesExactly` | overhead/consensus/simplehotstuff/simplehotstuff.go:65-88 | which block a SimpleHotStuff replica decides, and when |
| `RuleConditions.ChainedDecidesExactly` | overhead/consensus/chainedhotstuff/chainedhotstuff.go:45-76 | which block a ChainedHotStuff replica decides, and when: both upper blocks have to be linked by parents as well |
| `RuleConditions.LocksExactly` | overhead/consensus/consensus.go:297-299 | what either rule set leaves as the lock |
| `Invariant.InitInv` | overhead/consensus/consensus.go:68-76 | the protocol invariant holds initially |
| `Invariant.HonestVoter` | overhead/helper.go:4-11 | a certified block has a signature of a correct replica |
| `Invariant.CertifiedLink` | overhead/consensus/consensus.go:267-313 | the block a certified block certifies is certified and strictly older, because a correct replica in both quorums signed it first |
| `Invariant.CertificateHolds` | overhead/crypto/crypto.go:131-144 | a verified certificate comes from a quorum of signatures that exist |
| `Invariant.VoteRespectsLock` | overhead/consensus/consensus.go:278-281 | what a vote rule lets through certifies nothing older than the lock, or is the lock, or, with ChainedHotStuff only, has a certified block no older than the lock on its branch of parents |
| `Invariant.LockRises` | overhead/consensus/consensus.go:297-299 | CommitRule leaves a certified lock, no older than before nor than the block two certificates down |
| `Invariant.SignatureFits` | overhead/consensus/consensus.go:302-313 | a new signature is later than all others of its replica and respects the locks they gave, with either rule set and whatever blocks there are |
| `Invariant.ProposeKeeps` | overhead/consensus/consensus.go:242-313 | OnPropose keeps the invariant |
| `Invariant.StepKeeps` | overhead/consensus/consensus.go:242-313 | every step of every replica, faulty ones included, keeps the invariant |
| `Invariant.RunKeeps` | overhead/consensus/consensus.go:242-313 | the invariant holds in every reachable state of either rule set |
| `Agreement.OneCertifiedPerView` | overhead/consensus/consensus.go:302-313 | two certified blocks of one view are the same block |
| `Agreement.CertificatesWellOrdered` | overhead/consensus/consensus.go:267-313 | in every reachable state of either rule set: one certified block per view, and certificates lead to certified blocks of smaller view |
| `Agreement.LaterRespectsSeal` | overhead/consensus/consensus.go:302-313 | a certified block later than the one that seals a decision respects the lock the seal gave, because a correct replica signed both in that order |
| `Agreement.CertifiesNoOlder` | overhead/consensus/chainedhotstuff/chainedhotstuff.go:79-98 | a shaped certified block that respects a lock certifies nothing older than it, also when it passed by its branch |
| `Agreement.DecidesThird` | overhead/consensus/simplehotstuff/simplehotstuff.go:65-88 | a returned block is three certificates below the proposal |
| `Agreement.SimpleIsConsecutive` | overhead/consensus/simplehotstuff/simplehotstuff.go:84-86 | the view test makes the three views consecutive |
| `Agreement.DecisionIsSealed` | overhead/consensus/simplehotstuff/simplehotstuff.go:65-88 | a returned block is sealed by a certified block two views up |
| `Agreement.SealedIsFinalExactly` | overhead/consensus/chainedhotstuff/chainedhotstuff.go:79-98 | for a sealed block: all certified blocks not older extend it if and only if none more than two views above it has an older certificate |
| `Agreement.SealedIsFinal` | overhead/consensus/simplehotstuff/simplehotstuff.go:55-59 | that is so with SimpleHotStuff, and with ChainedHotStuff if certified blocks are shaped |
| `Agreement.SealedLands` | overhead/blockchain/blockchain.go:124-131 | with either rule set, if certified blocks land, the branch of a certified block that is not older than a sealed one comes by it |
| `Agreement.DecisionIsFinalExactly` | overhead/consensus/simplehotstuff/simplehotstuff.go:65-88 | in every run of either rule set, a decision from consecutive views is extended at the end of the run by all certified blocks not older, if and only if certificates keep up with it |
| `Agreement.ShapedAgreement` | overhead/consensus/consensus.go:218-220 | certificates keep up where certified blocks are shaped as Propose builds them |
| `Agreement.ShapedLand` | overhead/consensus/consensus.go:218-220 | shaped certified blocks land |
| `Agreement.SimpleAgreement` | overhead/consensus/simplehotstuff/simplehotstuff.go:40-88 | agreement for SimpleHotStuff: for every run and every block CommitRule returned in it |
| `Agreement.ChainedAgreement` | overhead/consensus/chainedhotstuff/chainedhotstuff.go:45-98 | agreement for ChainedHotStuff, for decisions from consecutive views: exactly when certificates keep up, over both branches of its vote rule |
| `Agreement.BranchAgreement` | overhead/consensus/chainedhotstuff/chainedhotstuff.go:45-98 | agreement along parents for either rule set, for decisions from consecutive views, if certified blocks land |
| `Agreement.DecisionsAgree` | overhead/consensus/simplehotstuff/simplehotstuff.go:65-88 | of any two decisions of correct SimpleHotStuff replicas one extends the other |
| `Agreement.ChainedDecisionsAgree` | overhead/consensus/chainedhotstuff/chainedhotstuff.go:45-76 | the same for two ChainedHotStuff decisions from consecutive views, if certificates keep up with the older one |
| `ChainedGap.ChainedNeedsConsecutiveViews` | overhead/consensus/chainedhotstuff/chainedhotstuff.go:60-76 | in every configuration and for all ascending views that are not consecutive: a run, with shaped blocks and certificates that keep up, that decides from these views and decides a conflicting block as well |
| `ChainedGap.FinalExactlyWhenConsecutive` | overhead/consensus/chainedhotstuff/chainedhotstuff.go:45-76 | in every configuration and for all views: decisions from them that certificates keep up with are final in all runs if and only if the views are consecutive, or the block is genesis, or nothing can be decided from them |
| `ChainedGap.ChainedNeedsKeepingUp` | overhead/consensus/chainedhotstuff/chainedhotstuff.go:79-98 | in every configuration and every view: a decision from consecutive views that a certified block of an older certificate passes by, because its parent is the lock |
| `Rounds.Play` | overhead/consensus/consensus.go:242-313 | any blocks that a quorum may sign in some order are signed in that order in some run, each handled by a correct replica |
| `Logs.WalkIsPath` | overhead/consensus/consensus.go:359-375 | Commit executes the part of the parent path above the block its walk ends in, or nothing if the walk misses a block |
| `Logs.CommitKeepsPath` | overhead/consensus/consensus.go:340-375 | for any blocks and any newer block: after Commit the log is the parent path again if and only if the walk lands on bExec or misses a block |
| `Logs.ShapedCommitSucceeds` | overhead/consensus/consensus.go:359-375 | where certified blocks are shaped, Commit finds all it has to execute |
| `Logs.ForkProposalLands` | overhead/consensus/byzantine/byzantine.go:66-91 | a block of the fork proposer lands on the block its certificate names |
| `Logs.CommitKeepsLog` | overhead/consensus/consensus.go:340-375 | after committing a decided block the log is still the parent path to bExec, if certified blocks land |
| `Logs.StepKeepsLog` | overhead/consensus/consensus.go:242-375 | so every step keeps all logs parent paths, whatever blocks are built |
| `Logs.LogsAgree` | overhead/consensus/consensus.go:359-375 | two correct logs are prefix-ordered |
| `Logs.ReplicatedLog` | overhead/consensus/consensus.go:340-375 | in every SimpleHotStuff run whose certified blocks land, each correct log is the parent path from genesis to bExec, and any two are prefix-ordered |
| `Logs.ShapedReplicatedLog` | overhead/consensus/consensus.go:340-375 | and so in every run whose certified blocks are shaped as Propose builds them |
| `Logs.ChainedReplicatedLog` | overhead/consensus/consensus.go:340-375 | the same for ChainedHotStuff runs whose decisions have consecutive views and whose certified blocks land |
| `LogCondition.PathsExactlyWhenLanding` | overhead/consensus/consensus.go:340-375 | in every configuration, for either rule set and every run over any blocks: all correct logs are the parent path after every step if and only if every commit that executes anything walks down to bExec |
| `LogCondition.FollowExactly` | overhead/consensus/consensus.go:340-375 | they are also prefix-ordered after every step if and only if every such commit is of a block on one branch with the last blocks of the other correct replicas |
| `LogCondition.PathIsPrefix` | overhead/consensus/consensus.go:359-375 | one parent path is a prefix of another exactly when its last block is on it |
| `LogCondition.LandingBlocksFollow` | overhead/consensus/consensus.go:340-375 | both conditions hold throughout every run whose certified blocks land and whose decisions have consecutive views |
| `LogGap.FollowExactlyWhenLanding` | overhead/consensus/consensus.go:359-375 | in every configuration, for a tower of blocks on genesis that decides X and Y: the logs follow in all runs over it whose other certified blocks land if and only if Y lands on X |
| `LogGap.LogsFork` | overhead/consensus/consensus.go:359-375 | in every configuration of at least four: whenever Y of such a tower passes X by, and its branch is complete, a run in which two correct logs are not prefix-ordered |
| `LogGap.UnshapedBlockForksLogs` | overhead/consensus/consensus.go:242-375 | one such run: a single faulty replica of four, logs [X, Y] and [Y] |
| `Logs.CommitIsAllOrNothing` | overhead/consensus/consensus.go:359-375 | for any stored blocks, Commit changes nothing or executes a parent-linked run that ends in the committed block |
| `CheckCommits.Check` | overhead/twins/scenario.go:87-118 | safe exactly when the logs of the replicas without twins are pairwise prefixes; commits is the longest length, or the first position that differs |
| `CheckCommits.PassExactly` | overhead/twins/scenario.go:87-118 | logs that are parent paths meet that condition if and only if the last executed blocks are on one branch, pair by pair |
| `CheckCommits.CorrectLogsPass` | overhead/twins/scenario.go:87-118 | the logs of correct replicas meet it after every run, of either rule set, that meets the conditions of `LogCondition.FollowExactly` |
| `BlockChain.WalkToTarget` | overhead/blockchain/blockchain.go:124-131 | the pointer walk computes Extends and ends |
| `BlockChain.ExtendsIsLanding` | overhead/blockchain/blockchain.go:124-131 | for any blocks, Extends holds exactly when the walk misses no block and ends in the target |
| `BlockChain.ExtendsIsOnBranch` | overhead/blockchain/blockchain.go:124-131 | for stored blocks of descending views, Extends holds exactly when the target is an ancestor or the block itself |
| `BlockChain.BlockStore.constructor` | overhead/blockchain/blockchain.go:41-49 | genesis is stored and indexed |
| `BlockChain.BlockStore.Store` | overhead/blockchain/blockchain.go:52-63 | stores and indexes; the index stays complete while no two stored blocks share a view |
| `BlockChain.BlockStore.MarkCommitted` | overhead/blockchain/blockchain.go:137-151 | the views that the walk from the committed view marks, whenever it ends |
| `BlockChain.MarkedAreLedTo` | overhead/blockchain/blockchain.go:137-151 | the marked views are the committed one and those led to by the parents of indexed blocks, down to the pruned height |
| `BlockChain.EndsExactly` | overhead/blockchain/blockchain.go:139-151 | the walk ends if and only if it comes to no view twice |
| `BlockChain.DescendingEnds` | overhead/blockchain/blockchain.go:139-151 | it ends when views descend along parents |
| `BlockChain.OnePerViewEnds` | overhead/blockchain/blockchain.go:139-151 | it ends when no two stored blocks share a view |
| `BlockChain.WalkNeedNotEnd` | overhead/blockchain/blockchain.go:139-151 | in every view: two stored blocks over which it goes on for ever |
| `BlockChain.BlockStore.CollectForked` | overhead/blockchain/blockchain.go:153-162 | collects the unmarked indexed blocks and removes the range from the index |
| `BlockChain.BlockStore.PruneToHeight` | overhead/blockchain/blockchain.go:133-165 | the returned blocks, the new index and the new pruned height |
| `BlockChain.MarkedAreBranchViews` | overhead/blockchain/blockchain.go:137-151 | the marked views above the pruned height are those of the committed branch |
| `BlockChain.PruningSeparatesForks` | overhead/blockchain/blockchain.go:133-165 | the returned blocks are exactly the stored ones of the range that are off the committed branch, each once, in descending views |
| `PruneHistory.ForksAreReportedOnce` | overhead/consensus/consensus.go:352-355 | over any history of storing blocks and committing along one branch: every stored block of the pruned range off the branch is reported exactly once, unless it came after its range was pruned, and nothing else is |
| `PruneHistory.Replay` | overhead/blockchain/blockchain.go:52-165 | the store object goes through the history and reports just that |
| `VoteCollection.Combine` | overhead/crypto/ecdsa/ecdsa.go:177-198 | the union of disjoint signatures, or which error |
| `VoteCollection.Verify` | overhead/crypto/ecdsa/ecdsa.go:201-229 | true exactly for a non-empty signature all of whose members verify, in any order of results |
| `VoteCollection.CreateQuorumCert` | overhead/crypto/crypto.go:67-83 | the genesis certificate, the combined one, or which error |
| `VoteCollection.VerifyPartialCert` | overhead/crypto/crypto.go:122-128 | accepts exactly verified votes for blocks that can be found |
| `VoteCollection.VerifyQuorumCert` | overhead/crypto/crypto.go:131-144 | accepts exactly the genesis certificate and verified ones of a quorum |
| `VoteCollection.SignersAdd` | overhead/crypto/ecdsa/ecdsa.go:184-195 | disjoint non-empty signatures have at least one signer each |
| `VoteCollection.CombinedVotesVerify` | overhead/consensus/votingmachine.go:121-136 | a certificate combined from verified votes has as many distinct verified signers as votes |
| `VoteCollection.RepeatedVoteBlocks` | overhead/consensus/votingmachine.go:121-133 | a list with two votes of one replica can never be combined, whatever is appended |
| `VoteCollection.VotingMachine.constructor` | overhead/consensus/votingmachine.go:28-32 | no votes yet |
| `VoteCollection.VotingMachine.CleanUp` | overhead/consensus/votingmachine.go:108-119 | keeps exactly the votes for stored blocks newer than the high certificate |
| `VoteCollection.AcceptedIsValid` | overhead/crypto/crypto.go:131-144 | with signatures that cannot be forged, what VerifyQuorumCert accepts is a certificate the protocol's replicas accept |
| `VoteCollection.Combination` | overhead/consensus/votingmachine.go:125-133 | whether the votes make a certificate, with all its properties |
| `VoteCollection.VotingMachine.VerifyCert` | overhead/consensus/votingmachine.go:98-137 | when a certificate is announced, in terms of the votes kept before; it combines exactly these, has a quorum of distinct verified signers, is accepted by VerifyQuorumCert and by the protocol's replicas; what is kept |
| `VoteCollection.CollectVotes` | overhead/consensus/votingmachine.go:98-137 | from verified votes of different replicas for one stored newer block, a fresh machine announces a certificate exactly when the quorum is reached (and two votes are there), combining exactly these |
| `UniqueTrees.UniqueTrees` | optitree/optitree/uniquetrees.go:13-17 | the sequence of eval calls |
| `UniqueTrees.EvalUniqueTree` | optitree/optitree/uniquetrees.go:21-42 | the calls below a prefix, with `used` and the prefix restored |
| `UniqueTrees.Place` | optitree/optitree/uniquetrees.go:36-39 | one candidate is placed, enumerated below and taken back |
| `UniqueTrees.UniqueTreesStruct` | optitree/optitree/uniquetrees_struct.go:11-20 | the same call sequence from the object version |
| `UniqueTrees.UniqueTree.EvalUniqueTree2` | optitree/optitree/uniquetrees_struct.go:22-43 | the same calls below a prefix, with `used` restored |
| `UniqueTrees.CallsAre` | optitree/optitree/uniquetrees.go:21-42 | below a prefix: exactly the complete arrangements that continue it with ascending groups |
| `UniqueTrees.CallsAscend` | optitree/optitree/uniquetrees.go:21-42 | in strictly increasing lexicographic order |
| `UniqueTrees.EnumerationIsExact` | optitree/optitree/uniquetrees.go:13-42 | eval is called once for each permutation with ascending groups, on nothing else, in lexicographic order |
| `TreeCount.NumTrees2` | optitree/optitree/statistics.go:17-24 | the loop multiplies n with all the binomial factors |
| `TreeCount.CountCalls` | optitree/optitree/uniquetrees.go:21-42 | the number of calls below any prefix |
| `TreeCount.CandidatesInside` | optitree/optitree/uniquetrees.go:33-35 | the sorting test leaves exactly the later candidates |
| `TreeCount.FillingsAreFactors` | optitree/optitree/statistics.go:17-24 | the closed form's factors are the ways to fill the groups |
| `TreeCount.EnumerationCount` | optitree/optitree/statistics.go:17-28 | TreeSize times the number of calls is NumTrees2(TreeSize, bf), for every branch factor |
| `TreePasses.ResetNodes` | optitree/optitree/tree.go:83-95 | every node reset, the root's identifier kept |
| `TreePasses.Disseminate` | optitree/optitree/score.go:13-25 | every internal node and leaf has its dissemination times |
| `TreePasses.Aggregate` | optitree/optitree/score.go:28-39 | every internal node has its branch's votes and delivery time; the leaves are untouched |
| `TreePasses.OrderByLatency` | optitree/optitree/score.go:59-82 | a permutation of the internal nodes in order of delivery, with the leaves of a full tree moved along |
| `TreePasses.MoveLeaves` | optitree/optitree/score.go:74-80 | each leaf group ends up under its own internal node |
| `PathTimes.DeliveryIsLongestPath` | optitree/optitree/score.go:28-39 | the votes of a branch, one of each of its nodes, are at the root as soon as its longest path is done: root, head, leaf, head, root, or root, head, root |
| `PathTimes.BranchShapeAny` | optitree/optitree/score.go:19-22 | which nodes are the leaves of which internal node, for full and partial trees |
| `PathTimes.TimesAgree` | optitree/optitree/score.go:8-54 | the quorum latency is the least time by which the votes whose paths are done make a quorum, or are all |
| `PathTimes.CollectIsPrefix` | optitree/optitree/score.go:45-53 | without sorting it is the least such time for the first branches that make a quorum |
| `Score.SortedCollectIsEarliest` | optitree/optitree/score.go:45-53 | collecting in order of delivery returns the least time with a quorum, or the last delivery |
| `Score.UnsortedIsNoLess` | optitree/optitree/score.go:41-53 | collecting in any order returns no less |
| `Evaluation.CollectVotes` | optitree/optitree/score.go:46-53 | the loop with its early return |
| `Evaluation.ReorderedRealises` | optitree/optitree/score.go:59-82 | the reordered nodes spell out an arrangement of the same nodes with these branches |
| `Evaluation.QcLatency` | optitree/optitree/score.go:8-54 | sorted: the least time in terms of paths by which a quorum of votes is there, which the tree left in the nodes attains; unsorted: the time for the first branches that make a quorum, never less |
| `Symmetry.LeafOrderIsFree` | optitree/optitree/score.go:28-39 | the order of a node's leaves does not change its delivery |
| `Symmetry.CanonicalIsEquivalent` | optitree/optitree/uniquetrees.go:3-5 | sorting siblings keeps the quorum latency |
| `Symmetry.CanonicalAscends` | optitree/optitree/uniquetrees.go:3-5 | and gives ascending groups |
| `Symmetry.EnumerationLosesNothing` | optitree/optitree/uniquetrees.go:3-9 | every arrangement has an enumerated counterpart with the same quorum latency |
| `OptimalTree.QuorumSize` | optitree/optitree/quorum.go:7-10 | the smallest size of which any two sets share more than the faulty nodes |
| `OptimalTree.NewSubtree` | optitree/optitree/tree.go:67-71 | the base tree without the root |
| `OptimalTree.NewNodes` | optitree/optitree/tree.go:73-80 | nodes for the root and the tree |
| `OptimalTree.Worker.Eval` | optitree/optitree/qc_optimal_lock.go:27-45 | one evaluation with its critical section: both branches, the local and the shared best |
| `OptimalTree.StartWorkers` | optitree/optitree/qc_optimal_lock.go:19-25 | one worker a root, with the trees it will evaluate |
| `OptimalTree.Turn` | optitree/optitree/qc_optimal_lock.go:27-45 | a worker's turn keeps: no evaluated tree beats the optimum, and the optimum is attained |
| `OptimalTree.QCOptimalTreeMutex` | optitree/optitree/qc_optimal_lock.go:9-50 | in every interleaving: no tree of the nodes, whatever its root and order, has a quorum of votes earlier, in terms of paths; below the starting bound the stored nodes are such a tree and attain it; latencies below a quarter of the bound suffice for that |
| `Handel.CeilLog2IsCeiling` | overhead/handel/partitioner.go:27-27 | the number of levels is the rounded-up binary logarithm |
| `Handel.Partitioner.RangeLevel` | overhead/handel/partitioner.go:26-56 | the narrowing loop, with bounds that slice the identifiers |
| `Handel.Partitioner.Partition` | overhead/handel/partitioner.go:58-61 | exactly the identifiers of the range |
| `Handel.Partitioner.Size` | overhead/handel/partitioner.go:63-66 | the number of indices in the range |
| `Handel.LowerHalfIsLarger` | overhead/handel/partitioner.go:35-53 | each level is cut in the middle, the lower half being the larger one, and the half without self is its range |
| `Handel.AllIsLeft` | overhead/handel/partitioner.go:33-35 | at the highest level all indices are there |
| `Handel.OwnIsSelfAndRanges` | overhead/handel/partitioner.go:35-53 | what is left at a level is self and the ranges below |
| `Handel.RangesPartition` | overhead/handel/partitioner.go:26-56 | for every n and self the ranges are disjoint, exclude self and with self cover all indices |
| `Handel.LevelZeroIsEmpty` | overhead/handel/partitioner.go:29-53 | the range of level 0 is empty |
| `Handel.RangesAreReciprocal` | overhead/handel/partitioner.go:35-53 | j is in i's range exactly when i is in j's, and then i's range is j with all of j's ranges below |
| `RoleAssignment.OptiTree.constructor` | overhead/kauri/optitree.go:17-22 | a fresh object |
| `RoleAssignment.MaximalMeansMaximal` | overhead/kauri/optitree.go:76-86 | no suspicion can be added to the matching |
| `RoleAssignment.OptiTree.ClearNodes` | overhead/kauri/optitree.go:73-75 | every suspicious node starts free |
| `RoleAssignment.OptiTree.MatchNodes` | overhead/kauri/optitree.go:76-86 | a maximal matching, for every iteration order |
| `RoleAssignment.DegreeIsOne` | overhead/kauri/optitree.go:24-29 | a node of degree one is one with a single neighbour |
| `RoleAssignment.OptiTree.LoneNeighbor` | overhead/kauri/optitree.go:48-58 | a neighbour that has no other neighbour, or none exists |
| `RoleAssignment.OptiTree.CheckForBetterEdge` | overhead/kauri/optitree.go:45-66 | an edge gives way to two exactly when both its ends have a neighbour that has no other neighbour; which edges change; no covered node becomes free |
| `RoleAssignment.ReplacementImproves` | overhead/kauri/optitree.go:59-65 | a replacement adds no edge that could give way to two, and takes one away |
| `RoleAssignment.OptiTree.ImproveNode` | overhead/kauri/optitree.go:87-91 | the inner loop, over a map it changes, leaves no such edge at its node |
| `RoleAssignment.OptiTree.ImproveEdges` | overhead/kauri/optitree.go:87-91 | the second loop, over maps it changes, frees no node and leaves no edge that could give way to two |
| `RoleAssignment.OptiTree.ComputeMG1` | overhead/kauri/optitree.go:72-92 | only suspicions, every suspicion keeps a covered end, no edge could still give way to two, and nodes left from an earlier graph stay as they are |
| `RoleAssignment.OptiTree.ComputeV2` | overhead/kauri/optitree.go:106-120 | exactly the nodes of v0 that close a triangle with an edge |
| `RoleAssignment.ZeroDegreeNodes` | overhead/kauri/optitree.go:31-39 | exactly the free nodes, each once |
| `RoleAssignment.SetMinus` | overhead/kauri/optitree.go:95-103 | exactly the difference |
| `RoleAssignment.OptiTree.GetTotalInternalNodesSet` | overhead/kauri/optitree.go:122-130 | exactly the nodes without a partner that do not suspect both ends of an edge; no two of them suspect each other, whatever is left from earlier graphs |
| `PartitionSizes.GenPartitionSizes` | overhead/twins/generator.go:165-169 | the sequence of sizes that is appended |
| `PartitionSizes.GenPartitionSizesRecursive` | overhead/twins/generator.go:171-200 | the same below a prefix, without 8-bit underflow |
| `PartitionSizes.Descend` | overhead/twins/generator.go:195-198 | the countdown loop |
| `PartitionSizes.EmittedAre` | overhead/twins/generator.go:171-200 | below a prefix: exactly the non-increasing divisions of the rest |
| `PartitionSizes.GeneratesPartitions` | overhead/twins/generator.go:165-200 | every integer partition once, in strictly decreasing lexicographic order |
| `Scenarios.Generator.constructor` | overhead/twins/generator.go:57-92 | indices at zero and `remaining` at the number of combinations |
| `Scenarios.Generator.Current` | overhead/twins/generator.go:127-135 | the scenario of the current indices, shifted by the offsets |
| `Scenarios.Generator.NextScenario` | overhead/twins/generator.go:121-153 | the scenario of the current number and the step to the next; `remaining` and the number add up; the end of file |
| `Scenarios.Carry` | overhead/twins/generator.go:138-148 | the carry loop makes the next number |
| `Scenarios.ValueIsLexicographic` | overhead/twins/generator.go:138-148 | numbers are in lexicographic order of their indices |
| `Scenarios.ChoicesAreShifted` | overhead/twins/generator.go:127-135 | each choice is the index plus the offset, modulo the number of choices |
| `Scenarios.ValueIsInjective` | overhead/twins/generator.go:137-148 | different numbers have different indices |
| `Scenarios.ChoicesAreInjective` | overhead/twins/generator.go:127-135 | offsets in range keep choices different |
| `Scenarios.AllScenarios` | overhead/twins/generator.go:121-153 | asking until the end gives base ^ views - 1 scenarios from pairwise different choices |
| `Scenarios.EndlessScenarios` | overhead/twins/generator.go:138-152 | without views every call gives an empty scenario, however many calls there are |
| `HeapTree.ChildrenInvertParent` | overhead/kauri/tree.go:60-66 | the child formula inverts the parent formula |
| `HeapTree.FaultFreeTree.constructor` | overhead/kauri/tree.go:31-48 | the height is the number of levels, in powers of two |
| `HeapTree.FaultFreeTree.InitializeWithPIDs` | overhead/kauri/tree.go:51-57 | the two maps invert each other, for any bijection |
| `HeapTree.FaultFreeTree.GetParent` | overhead/kauri/tree.go:60-66 | the replica at the parent position; the root has none |
| `HeapTree.FaultFreeTree.GetChildrenOfNode` | overhead/kauri/tree.go:97-109 | exactly the replicas whose parent is the node |
| `HeapTree.FaultFreeTree.GetHeight` | overhead/kauri/tree.go:112-127 | the tree's height minus the level the position lies in; a child is one lower |
| `HeapTree.FaultFreeTree.GetSubTreeNodes` | overhead/kauri/tree.go:152-170 | ends, with every proper descendant exactly once |
| `EventQueue.Queue.constructor` | overhead/eventloop/queue.go:15-22 | an empty queue of the capacity |
| `EventQueue.Queue.Push` | overhead/eventloop/queue.go:24-48 | appends, and drops the oldest entry, and only that, exactly when full |
| `EventQueue.Queue.Pop` | overhead/eventloop/queue.go:56-77 | removes and returns the oldest entry, or reports that there is none |
| `EventQueue.Queue.Len` | overhead/eventloop/queue.go:79-92 | the number of entries |
| `EventQueue.HoldsLatest` | overhead/eventloop/queue.go:5-6 | after any operations: the latest pushes, in order, at most the capacity |
| `EventQueue.NothingLost` | overhead/eventloop/queue.go:5-6 | what was popped and what is left are what was pushed, in order, exactly when the queue was never overrun |
| `EventQueue.Run` | overhead/eventloop/queue.go:24-77 | the buffer behaves like the bounded sequence over any list of operations |

## Left out

- OnPropose: leaves out the aggregate certificate, complaints and the latency vector; the view change it asks for is treated as said above.
- Commit: leaves out the pruning and fork handling that follow it; BlockChain and PruneHistory model pruning by itself.
- ReplicatedLog: gives a sufficient condition on certified blocks; LogCondition gives the exact one on commits.
- ChainedReplicatedLog: likewise.
- FollowExactlyWhenLanding: is about towers of five blocks on genesis; LogCondition is about all runs.
- PruningSeparatesForks: assumes one stored block per view, because the index keeps only the last block stored for a view.
- PruneToHeight: assumes that its walk ends, exactly when it can return at all.
- ForksAreReportedOnce: assumes that commits go up along one branch; a commit of an older block executes nothing but lowers the pruned height.
- GenPartitionSizes: assumes n and minSize of at least 1, because the 8-bit countdown wraps around at 0 otherwise.
- AllScenarios: is about settings with at least one view, without which it would not return.
- NextScenario: is not called again after the end of file, where the indices are empty.
- Liveness, timeouts, the synchronizer's view changes and its high certificate.
- AggregateQC and FastHotStuff, whose vote rule does not tie the aggregate's view to the block's.
- Reconfiguration, passive replicas and checkpoints, which move views and commit outside the commit rule.
- Leader rotation, the command queue, complaints and latency vectors; the acceptor's answer is a parameter.
- Fetching blocks over the network and pending fetches; what `Get` finds is a parameter.
- Signing, hashing, key handling, BLS signatures and BatchVerify.
- Handel's sessions and scoring, GetPeers of the Kauri tree, and the assignment of leaves by latency.
- Simulated annealing, the exhaustive searches over channels, partial trees in the search, and progress output.
- Assigning twins to partitions and executing scenarios.
- The condition variable of the event queue and the event loop around it.
- The copy of the protocol stack under wriggle.
