/** What every step of the protocol keeps. */
module Invariant {
  import opened HotStuff
  import opened Quorum
  import opened Consensus
  import opened Protocol
  import SimpleHotStuff
  import ChainedHotStuff
  import BlockChain

  function ViewOf(s: State, h: Hash): View {
    if h in s.blocks then s.blocks[h].view else 0
  }

  /** The hash named by the certificate of block `h`. */
  function Qc(s: State, h: Hash): Hash {
    if h in s.blocks then s.blocks[h].cert.hash else NO_HASH
  }

  /** A correct replica `i` signs block `h` only after a quorum has signed the block that `h`
      certifies, and after locking the one before that. */
  ghost predicate GoodVote(c: Config, s: State, i: ID, h: Hash)
    requires c.n >= 1 && i < |s.replicas|
  {
    && h in s.blocks && h != GENESIS_HASH
    && 0 < ViewOf(s, h) <= s.replicas[i].lastVote
    && var q := Qc(s, h);
       var signers := s.blocks[h].cert.signers;
    && q in s.blocks
    && (q != GENESIS_HASH ==> |signers| >= QuorumSize(c.n) && signers <= Voters(c.n, s.votes, q))
    && (i in signers ==> ViewOf(s, q) < ViewOf(s, h))
    && ViewOf(s, Qc(s, q)) <= s.replicas[i].locked.view
  }

  /** Walking down parent links from `h` leads to the certified block `lock`. */
  ghost predicate OnBranch(c: Config, s: State, h: Hash, lock: Hash)
    requires c.n >= 1 && WellHashed(s.blocks)
  {
    && h in s.blocks && lock in s.blocks && Certified(c, s, lock) && ViewOf(s, lock) < ViewOf(s, h)
    && BlockChain.Landing(s.blocks, ViewOf(s, lock), s.blocks[h]) == Some(lock)
  }

  /** Block `h` certifies a block no older than `view`, or, where the rules look at parent links, has a
      certified block no older than `view` on its branch. */
  ghost predicate RespectsLock(rules: RuleSet, c: Config, s: State, h: Hash, view: View)
    requires c.n >= 1 && WellHashed(s.blocks)
  {
    || ViewOf(s, Qc(s, h)) >= view
    || (rules == Chained && exists lock :: OnBranch(c, s, h, lock) && ViewOf(s, lock) >= view)
  }

  /** Two blocks that the same correct replica signed have different views, and the later one, if
      not yet certified when signed, respects the lock the earlier one gave. */
  ghost predicate GoodPair(rules: RuleSet, c: Config, s: State, i: ID, h1: Hash, h2: Hash)
    requires c.n >= 1 && WellHashed(s.blocks)
  {
    && (ViewOf(s, h1) == ViewOf(s, h2) ==> h1 == h2)
    && (ViewOf(s, h1) < ViewOf(s, h2) && Vote(i, h2) in s.early ==>
          RespectsLock(rules, c, s, h2, ViewOf(s, Qc(s, Qc(s, h1)))))
  }

  ghost predicate GoodLock(c: Config, s: State, b: Block)
    requires c.n >= 1
  {
    b.hash in s.blocks && s.blocks[b.hash] == b && Certified(c, s, b.hash)
  }

  /** A certified block got a quorum of signatures before it was certified. */
  ghost predicate EarlyQuorum(c: Config, s: State, h: Hash)
    requires c.n >= 1
  {
    if h != GENESIS_HASH && Certified(c, s, h) then |Voters(c.n, s.early, h)| >= QuorumSize(c.n)
    else h == GENESIS_HASH || Voters(c.n, s.early, h) == Voters(c.n, s.votes, h)
  }

  ghost predicate Inv(rules: RuleSet, c: Config, s: State)
    requires c.n >= 1
  {
    && WellHashed(s.blocks)
    && |s.replicas| == c.n
    && s.early <= s.votes
    && (forall i, h :: c.Honest(i) && Vote(i, h) in s.votes ==> GoodVote(c, s, i, h))
    && (forall i, h1, h2 :: c.Honest(i) && Vote(i, h1) in s.votes && Vote(i, h2) in s.votes ==>
          GoodPair(rules, c, s, i, h1, h2))
    && (forall i: ID :: c.Honest(i) ==> GoodLock(c, s, s.replicas[i].locked))
    && (forall h :: EarlyQuorum(c, s, h))
  }

  // ---------------------------------------------------------------- consequences

  /** Some correct replica signed a certified block. */
  lemma HonestVoter(rules: RuleSet, c: Config, s: State, h: Hash) returns (i: ID)
    requires c.Valid() && Inv(rules, c, s) && Certified(c, s, h) && h != GENESIS_HASH
    ensures c.Honest(i) && Vote(i, h) in s.votes
  {
    var v := Voters(c.n, s.votes, h);
    i := QuorumIntersection(c, v, v);
  }

  /** The block that a certified block's certificate names is itself certified, and older. */
  lemma CertifiedLink(rules: RuleSet, c: Config, s: State, h: Hash)
    requires c.Valid() && Inv(rules, c, s) && Certified(c, s, h) && h != GENESIS_HASH
    ensures h in s.blocks && Qc(s, h) in s.blocks && Certified(c, s, Qc(s, h))
    ensures ViewOf(s, Qc(s, h)) < ViewOf(s, h)
  {
    var i := HonestVoter(rules, c, s, h);
    var q := Qc(s, h);
    assert GoodVote(c, s, i, h);
    if q != GENESIS_HASH {
      var signers := s.blocks[h].cert.signers;
      SubsetSize(signers, Voters(c.n, s.votes, q));
      var j := QuorumIntersection(c, Voters(c.n, s.votes, h), signers);
      assert GoodVote(c, s, j, h);
    }
  }

  lemma CertifiedIsBuilt(rules: RuleSet, c: Config, s: State, h: Hash)
    requires c.Valid() && Inv(rules, c, s) && Certified(c, s, h)
    ensures h in s.blocks
  {
    if h != GENESIS_HASH {
      CertifiedLink(rules, c, s, h);
    }
  }

  // ---------------------------------------------------------------- preservation

  lemma InitInv(rules: RuleSet, c: Config)
    requires c.Valid()
    ensures Inv(rules, c, Init(c))
  {
    var s := Init(c);
    forall h ensures EarlyQuorum(c, s, h) {
      assert Voters(c.n, s.votes, h) == {};
      assert Voters(c.n, s.early, h) == {};
    }
  }

  /** Runs only add blocks and signatures. */
  ghost predicate Grows(s: State, s': State) {
    && (forall h :: h in s.blocks ==> h in s'.blocks && s'.blocks[h] == s.blocks[h])
    && s.votes <= s'.votes
  }

  lemma RespectsLockStays(rules: RuleSet, c: Config, s: State, s': State, h: Hash, view: View)
    requires c.n >= 1 && WellHashed(s.blocks) && WellHashed(s'.blocks) && Grows(s, s')
    requires h in s.blocks && Qc(s, h) in s.blocks && RespectsLock(rules, c, s, h, view)
    ensures RespectsLock(rules, c, s', h, view)
  {
    if ViewOf(s, Qc(s, h)) < view {
      var lock :| OnBranch(c, s, h, lock) && ViewOf(s, lock) >= view;
      VotersGrow(c.n, s.votes, s'.votes, lock);
      BlockChain.LandingStays(s.blocks, s'.blocks, ViewOf(s, lock), s.blocks[h]);
      assert OnBranch(c, s', h, lock);
    }
  }

  lemma BuildKeeps(rules: RuleSet, c: Config, s: State, b: Block)
    requires c.Valid() && Inv(rules, c, s) && Storable(s.blocks, b)
    ensures Inv(rules, c, s.(blocks := s.blocks[b.hash := b]))
  {
    var s' := s.(blocks := s.blocks[b.hash := b]);
    assert forall h :: h in s.blocks ==> ViewOf(s', h) == ViewOf(s, h) && Qc(s', h) == Qc(s, h);
    assert forall h :: Certified(c, s', h) == Certified(c, s, h);
    forall i, h | c.Honest(i) && Vote(i, h) in s.votes ensures GoodVote(c, s', i, h) {
      BuildKeepsVote(rules, c, s, b, i, h);
    }
    forall i, h1, h2 | c.Honest(i) && Vote(i, h1) in s.votes && Vote(i, h2) in s.votes
      ensures GoodPair(rules, c, s', i, h1, h2)
    {
      BuildKeepsPair(rules, c, s, b, i, h1, h2);
    }
    forall h ensures EarlyQuorum(c, s', h) {
      assert EarlyQuorum(c, s, h);
    }
  }

  lemma BuildKeepsVote(rules: RuleSet, c: Config, s: State, b: Block, i: ID, h: Hash)
    requires c.Valid() && Inv(rules, c, s) && Storable(s.blocks, b) && c.Honest(i) && Vote(i, h) in s.votes
    ensures var s' := s.(blocks := s.blocks[b.hash := b]);
            GoodVote(c, s', i, h) && ViewOf(s', Qc(s', Qc(s', h))) == ViewOf(s, Qc(s, Qc(s, h)))
  {
    var s' := s.(blocks := s.blocks[b.hash := b]);
    assert GoodVote(c, s, i, h);
    QcOfVote(rules, c, s, i, h);
    var q := Qc(s, h);
    if q != GENESIS_HASH {
      CertifiedLink(rules, c, s, q);
    } else {
      assert Qc(s, q) == Qc(s', q) == NO_HASH;
    }
  }

  lemma BuildKeepsPair(rules: RuleSet, c: Config, s: State, b: Block, i: ID, h1: Hash, h2: Hash)
    requires c.Valid() && Inv(rules, c, s) && Storable(s.blocks, b)
    requires c.Honest(i) && Vote(i, h1) in s.votes && Vote(i, h2) in s.votes
    ensures GoodPair(rules, c, s.(blocks := s.blocks[b.hash := b]), i, h1, h2)
  {
    var s' := s.(blocks := s.blocks[b.hash := b]);
    assert GoodPair(rules, c, s, i, h1, h2) && GoodVote(c, s, i, h1) && GoodVote(c, s, i, h2);
    BuildKeepsVote(rules, c, s, b, i, h1);
    if ViewOf(s, h1) < ViewOf(s, h2) && Vote(i, h2) in s.early {
      RespectsLockStays(rules, c, s, s', h2, ViewOf(s, Qc(s, Qc(s, h1))));
    }
  }

  lemma QcOfVote(rules: RuleSet, c: Config, s: State, i: ID, h: Hash)
    requires c.Valid() && Inv(rules, c, s) && c.Honest(i) && GoodVote(c, s, i, h)
    ensures Certified(c, s, Qc(s, h))
  {
    var q := Qc(s, h);
    if q != GENESIS_HASH {
      SubsetSize(s.blocks[h].cert.signers, Voters(c.n, s.votes, q));
    }
  }

  /** `r` replaces correct replica `i`, with no lower `lastVote` and no older lock. */
  lemma ReplicaKeeps(rules: RuleSet, c: Config, s: State, i: ID, r: Replica)
    requires c.Valid() && Inv(rules, c, s) && c.Honest(i)
    requires r.lastVote >= s.replicas[i].lastVote
    requires r.locked.view >= s.replicas[i].locked.view && GoodLock(c, s, r.locked)
    ensures Inv(rules, c, s.(replicas := s.replicas[i := r]))
  {
    var s' := s.(replicas := s.replicas[i := r]);
    assert forall h :: Certified(c, s', h) == Certified(c, s, h);
    forall j, h | c.Honest(j) && Vote(j, h) in s.votes ensures GoodVote(c, s', j, h) {
      assert GoodVote(c, s, j, h);
    }
    forall j, h1, h2 | c.Honest(j) && Vote(j, h1) in s.votes && Vote(j, h2) in s.votes
      ensures GoodPair(rules, c, s', j, h1, h2)
    {
      assert GoodPair(rules, c, s, j, h1, h2) && GoodVote(c, s, j, h2);
      if ViewOf(s, h1) < ViewOf(s, h2) && Vote(j, h2) in s.early {
        RespectsLockStays(rules, c, s, s', h2, ViewOf(s, Qc(s, Qc(s, h1))));
      }
    }
    forall j: ID | c.Honest(j) ensures GoodLock(c, s', s'.replicas[j].locked) {
      assert GoodLock(c, s, s.replicas[j].locked);
    }
    forall h ensures EarlyQuorum(c, s', h) {
      assert EarlyQuorum(c, s, h);
    }
  }

  lemma VotersGrow(n: nat, votes: set<Vote>, more: set<Vote>, h: Hash)
    requires votes <= more
    ensures Voters(n, votes, h) <= Voters(n, more, h)
    ensures |Voters(n, votes, h)| <= |Voters(n, more, h)|
  {
    SubsetSize(Voters(n, votes, h), Voters(n, more, h));
  }

  lemma EarlyQuorumKept(c: Config, s: State, v: Vote, h: Hash)
    requires c.Valid() && EarlyQuorum(c, s, h) && s.early <= s.votes
    ensures EarlyQuorum(c, AddVote(c, s, v), h)
  {
    var s' := AddVote(c, s, v);
    VotersGrow(c.n, s.votes, s'.votes, h);
    VotersGrow(c.n, s.early, s'.early, h);
    if h != GENESIS_HASH && !Certified(c, s, h) {
      assert forall i :: i in Ids(c.n) ==> (Vote(i, h) in s.early <==> Vote(i, h) in s.votes) by {
        forall i | i in Ids(c.n) ensures Vote(i, h) in s.early <==> Vote(i, h) in s.votes {
          assert i in Voters(c.n, s.early, h) <==> i in Voters(c.n, s.votes, h);
        }
      }
      assert Voters(c.n, s'.early, h) == Voters(c.n, s'.votes, h);
    }
  }

  /** `v` comes after all other signatures of its replica, and respects the locks they gave. */
  ghost predicate Fits(rules: RuleSet, c: Config, s: State, v: Vote)
    requires c.n >= 1 && WellHashed(s.blocks)
  {
    forall h :: Vote(v.id, h) in s.votes ==>
                  && ViewOf(s, h) < ViewOf(s, v.hash)
                  && (!Certified(c, s, v.hash) ==> RespectsLock(rules, c, s, v.hash, ViewOf(s, Qc(s, Qc(s, h)))))
  }

  lemma VoteKeeps(rules: RuleSet, c: Config, s: State, v: Vote)
    requires c.Valid() && Inv(rules, c, s)
    requires c.Honest(v.id) ==> GoodVote(c, s, v.id, v.hash)
    requires c.Honest(v.id) ==> Fits(rules, c, s, v)
    ensures Inv(rules, c, AddVote(c, s, v))
  {
    var s' := AddVote(c, s, v);
    assert forall h :: ViewOf(s', h) == ViewOf(s, h) && Qc(s', h) == Qc(s, h);
    forall h ensures EarlyQuorum(c, s', h) {
      assert EarlyQuorum(c, s, h);
      EarlyQuorumKept(c, s, v, h);
    }
    forall j, h | c.Honest(j) && Vote(j, h) in s'.votes ensures GoodVote(c, s', j, h) {
      assert GoodVote(c, s, j, h);
      VotersGrow(c.n, s.votes, s'.votes, Qc(s, h));
    }
    forall j, h1, h2 | c.Honest(j) && Vote(j, h1) in s'.votes && Vote(j, h2) in s'.votes
      ensures GoodPair(rules, c, s', j, h1, h2)
    {
      PairKept(rules, c, s, v, j, h1, h2);
    }
    forall j: ID | c.Honest(j) ensures GoodLock(c, s', s'.replicas[j].locked) {
      assert GoodLock(c, s, s.replicas[j].locked);
      VotersGrow(c.n, s.votes, s'.votes, s.replicas[j].locked.hash);
    }
  }

  lemma PairKept(rules: RuleSet, c: Config, s: State, v: Vote, j: ID, h1: Hash, h2: Hash)
    requires c.Valid() && Inv(rules, c, s) && c.Honest(j)
    requires var s' := AddVote(c, s, v); Vote(j, h1) in s'.votes && Vote(j, h2) in s'.votes
    requires c.Honest(v.id) ==> GoodVote(c, s, v.id, v.hash) && Fits(rules, c, s, v)
    ensures GoodPair(rules, c, AddVote(c, s, v), j, h1, h2)
  {
    var s' := AddVote(c, s, v);
    assert forall h :: ViewOf(s', h) == ViewOf(s, h) && Qc(s', h) == Qc(s, h);
    if Vote(j, h1) in s.votes && Vote(j, h2) in s.votes {
      assert GoodPair(rules, c, s, j, h1, h2);
    }
    if ViewOf(s, h1) < ViewOf(s, h2) && Vote(j, h2) in s'.early {
      assert Vote(j, h1) in s.votes && GoodVote(c, s, j, h2);
      assert RespectsLock(rules, c, s, h2, ViewOf(s, Qc(s, Qc(s, h1))));
      RespectsLockStays(rules, c, s, s', h2, ViewOf(s, Qc(s, Qc(s, h1))));
    }
  }

  /** A replica only accepts a block that respects its lock, or is its lock. */
  lemma VoteRespectsLock(rules: RuleSet, c: Config, s: State, step: Step)
    requires c.Valid() && Inv(rules, c, s)
    requires step.Propose? && Enabled(c, s, step)
    requires Accepts(rules, c.n, Env(s, step), s.replicas[step.id], step.block)
    ensures var L := s.replicas[step.id].locked;
            RespectsLock(rules, c, s, step.block.hash, L.view) || step.block.hash == L.hash
  {
    var b, L := step.block, s.replicas[step.id].locked;
    assert GoodLock(c, s, L);
    CertificateHolds(rules, c, s, step.chain, b.cert);
    if rules == Chained && step.chain[b.cert.hash].view <= L.view && b.view > L.view {
      BlockChain.ExtendsIsLanding(step.chain, b, L);
      BlockChain.LandingStays(step.chain, s.blocks, L.view, b);
      assert OnBranch(c, s, b.hash, L.hash);
    }
  }

  /** The lock is the higher of the old one and the block two certificates down, if that is found. */
  lemma LockAfter(rules: RuleSet, chain: Chain, locked: Block, b: Block)
    requires WellHashed(chain)
    ensures Decide(rules, chain, locked, b).locked ==
              if b.cert.hash in chain && chain[b.cert.hash].cert.hash in chain
                 && chain[chain[b.cert.hash].cert.hash].view > locked.view
              then chain[chain[b.cert.hash].cert.hash] else locked
  {
  }

  /** CommitRule's lock is certified, no older than before, and no older than the block two
      certificates below the proposal. */
  lemma LockRises(rules: RuleSet, c: Config, s: State, step: Step)
    requires c.Valid() && Inv(rules, c, s)
    requires step.Propose? && Enabled(c, s, step)
    requires Accepts(rules, c.n, Env(s, step), s.replicas[step.id], step.block)
    ensures var r, b := s.replicas[step.id], step.block;
            var locked := Decide(rules, step.chain[b.hash := b], r.locked, b).locked;
            && locked.view >= r.locked.view
            && GoodLock(c, s, locked)
            && ViewOf(s, Qc(s, Qc(s, b.hash))) <= locked.view
  {
    var r, b, q := s.replicas[step.id], step.block, step.block.cert.hash;
    var chain := step.chain[b.hash := b];
    assert GoodLock(c, s, r.locked);
    CertificateHolds(rules, c, s, step.chain, b.cert);
    assert chain[q] == s.blocks[q];
    if q != GENESIS_HASH {
      CertifiedLink(rules, c, s, q);
      assert Qc(s, q) in step.chain && chain[Qc(s, q)] == s.blocks[Qc(s, q)];
    }
    LockAfter(rules, chain, r.locked, b);
  }

  lemma CertificateHolds(rules: RuleSet, c: Config, s: State, chain: Chain, qc: QuorumCert)
    requires c.Valid() && Inv(rules, c, s) && Findable(c, s, chain)
    requires VerifyQuorumCert(c.n, chain, s.votes, qc)
    ensures Certified(c, s, qc.hash) && qc.hash in chain && qc.hash in s.blocks
    ensures qc.hash != GENESIS_HASH ==> |qc.signers| >= QuorumSize(c.n) && qc.signers <= Voters(c.n, s.votes, qc.hash)
  {
    assert Certified(c, s, GENESIS_HASH);
    if qc.hash != GENESIS_HASH {
      SubsetSize(qc.signers, Voters(c.n, s.votes, qc.hash));
    }
  }

  lemma ProposeKeeps(rules: RuleSet, c: Config, s: State, step: Step)
    requires c.Valid() && Inv(rules, c, s)
    requires step.Propose? && Enabled(c, s, step)
    ensures Inv(rules, c, Apply(rules, c, s, step))
  {
    var i, b, env := step.id, step.block, Env(s, step);
    var r := s.replicas[i];
    var r' := AfterPropose(rules, c.n, env, r, b);
    assert GoodLock(c, s, r.locked);
    if Accepts(rules, c.n, env, r, b) {
      LockRises(rules, c, s, step);
    }
    var s' := s.(replicas := s.replicas[i := r']);
    ReplicaKeeps(rules, c, s, i, r');
    if Signs(rules, c.n, env, r, b) {
      SignatureFits(rules, c, s, step, s');
      VoteKeeps(rules, c, s', Vote(i, b.hash));
    }
  }

  lemma SignatureFits(rules: RuleSet, c: Config, s: State, step: Step, s': State)
    requires c.Valid() && Inv(rules, c, s)
    requires step.Propose? && Enabled(c, s, step)
    requires Signs(rules, c.n, Env(s, step), s.replicas[step.id], step.block)
    requires s' == s.(replicas := s.replicas[step.id :=
                        AfterPropose(rules, c.n, Env(s, step), s.replicas[step.id], step.block)])
    ensures GoodVote(c, s', step.id, step.block.hash)
    ensures Fits(rules, c, s', Vote(step.id, step.block.hash))
  {
    var i, b, r := step.id, step.block, s.replicas[step.id];
    var q := b.cert.hash;
    LockRises(rules, c, s, step);
    VoteRespectsLock(rules, c, s, step);
    CertificateHolds(rules, c, s, step.chain, b.cert);
    if q != GENESIS_HASH && i in b.cert.signers {
      assert Vote(i, q) in s.votes;
      assert GoodVote(c, s, i, q);
    }
    assert forall h :: Certified(c, s', h) == Certified(c, s, h);
    forall h | Vote(i, h) in s'.votes
      ensures ViewOf(s', h) < ViewOf(s', b.hash)
      ensures !Certified(c, s', b.hash) ==> RespectsLock(rules, c, s', b.hash, ViewOf(s', Qc(s', Qc(s', h))))
    {
      assert GoodVote(c, s, i, h);
      assert GoodLock(c, s, r.locked);
      if !Certified(c, s', b.hash) {
        RespectsLockStays(rules, c, s, s', b.hash, r.locked.view);
      }
    }
  }

  lemma StepKeeps(rules: RuleSet, c: Config, s: State, step: Step)
    requires c.Valid() && Inv(rules, c, s) && Enabled(c, s, step)
    ensures Inv(rules, c, Apply(rules, c, s, step))
  {
    match step
    case Build(b) => BuildKeeps(rules, c, s, b);
    case FaultyVote(i, h) => VoteKeeps(rules, c, s, Vote(i, h));
    case Propose(_, _, _, _, _, _) => ProposeKeeps(rules, c, s, step);
    case StopVoting(i, view) =>
      var r := s.replicas[i];
      assert GoodLock(c, s, r.locked);
      ReplicaKeeps(rules, c, s, i, Stopped(r, view));
  }

  /** The invariant holds in every reachable state. */
  lemma {:induction false} RunKeeps(rules: RuleSet, c: Config, steps: seq<Step>)
    requires c.Valid() && IsRun(rules, c, steps)
    ensures Inv(rules, c, After(rules, c, steps))
  {
    if steps == [] {
      InitInv(rules, c);
    } else {
      var before, last := steps[..|steps| - 1], steps[|steps| - 1];
      RunKeeps(rules, c, before);
      StepKeeps(rules, c, After(rules, c, before), last);
    }
  }
}
