/** What a correct replica signs, locks and decides, spelled out in terms of the blocks it can find. */
module RuleConditions {
  import opened HotStuff
  import opened Quorum
  import opened Consensus
  import opened Protocol
  import opened Agreement
  import Invariant
  import SimpleHotStuff
  import ChainedHotStuff
  import BlockChain

  /** The certificate of the proposal is that of genesis, or is signed by n - f replicas that did sign a
      block the replica can find. */
  ghost predicate CertificateHeld(c: Config, s: State, step: Step)
    requires c.n >= 1 && step.Propose?
  {
    var qc := step.block.cert;
    || qc.hash == GENESIS_HASH
    || (&& |qc.signers| >= c.n - (c.n - 1) / 3 && qc.hash in step.chain
        && forall i :: i in qc.signers ==> i < c.n && Vote(i, qc.hash) in s.votes)
  }

  /** A SimpleHotStuff replica takes the proposal: its certificate verifies, its view is no older than the
      synchronizer's, the block it certifies is found and no older than the lock, and its command is
      accepted. */
  ghost predicate SimpleTakes(c: Config, s: State, step: Step)
    requires c.n >= 1 && step.Propose? && step.id < |s.replicas|
  {
    var b, chain := step.block, step.chain;
    && CertificateHeld(c, s, step) && b.view >= step.syncView && step.accept
    && b.cert.hash in chain && chain[b.cert.hash].view >= s.replicas[step.id].locked.view
  }

  /** A ChainedHotStuff replica takes the proposal: its certificate verifies, its command is accepted, and
      the block it certifies is newer than the lock, or the walk down its branch ends in the lock. */
  ghost predicate ChainedTakes(c: Config, s: State, step: Step)
    requires c.n >= 1 && step.Propose? && step.id < |s.replicas|
    requires WellHashed(step.chain) && HashLinked(step.block)
  {
    var b, chain, lock := step.block, step.chain, s.replicas[step.id].locked;
    && CertificateHeld(c, s, step) && step.accept
    && (|| (b.cert.hash in chain && chain[b.cert.hash].view > lock.view)
        || BlockChain.Landing(chain, lock.view, b) == Some(lock.hash))
  }

  ghost predicate Takes(rules: RuleSet, c: Config, s: State, step: Step)
    requires c.n >= 1 && step.Propose? && step.id < |s.replicas|
    requires WellHashed(step.chain) && HashLinked(step.block)
  {
    match rules
    case Simple => SimpleTakes(c, s, step)
    case Chained => ChainedTakes(c, s, step)
  }

  /** The replica signs what it takes, if it is newer than all it signed and signing succeeds. */
  ghost predicate Signing(rules: RuleSet, c: Config, s: State, step: Step)
    requires c.n >= 1 && step.Propose? && step.id < |s.replicas|
    requires WellHashed(step.chain) && HashLinked(step.block)
  {
    Takes(rules, c, s, step) && step.block.view > s.replicas[step.id].lastVote && step.signs
  }

  lemma TakesAreAccepted(rules: RuleSet, c: Config, s: State, step: Step)
    requires c.n >= 1 && step.Propose? && Enabled(c, s, step)
    ensures Accepts(rules, c.n, Env(s, step), s.replicas[step.id], step.block) <==> Takes(rules, c, s, step)
  {
    if rules == Chained {
      BlockChain.ExtendsIsLanding(step.chain, step.block, s.replicas[step.id].locked);
    }
  }

  /** The signatures that a proposal adds, and the view the replica remembers. */
  lemma SignsExactly(rules: RuleSet, c: Config, s: State, step: Step)
    requires c.n >= 1 && step.Propose? && Enabled(c, s, step)
    ensures var s' := Apply(rules, c, s, step);
            if Signing(rules, c, s, step)
            then s'.votes == s.votes + {Vote(step.id, step.block.hash)}
                 && s'.replicas[step.id].lastVote == step.block.view
            else s'.votes == s.votes && s'.replicas[step.id].lastVote == s.replicas[step.id].lastVote
  {
    TakesAreAccepted(rules, c, s, step);
  }

  /** Stopping makes the replica remember the view, if it is above what it remembered, and nothing else. */
  lemma StopsExactly(rules: RuleSet, c: Config, s: State, step: Step)
    requires c.n >= 1 && step.StopVoting? && Enabled(c, s, step)
    ensures var s', r := Apply(rules, c, s, step), s.replicas[step.id];
            && s'.votes == s.votes && s'.blocks == s.blocks && |s'.replicas| == |s.replicas|
            && (forall j :: 0 <= j < |s.replicas| && j != step.id ==> s'.replicas[j] == s.replicas[j])
            && s'.replicas[step.id].lastVote >= step.view && s'.replicas[step.id].lastVote >= r.lastVote
            && (s'.replicas[step.id].lastVote == step.view || s'.replicas[step.id] == r)
            && s'.replicas[step.id] == r.(lastVote := s'.replicas[step.id].lastVote)
  {
  }

  /** Step `k` makes correct replica `i` sign the block `h`. */
  ghost predicate SignsAt(rules: RuleSet, c: Config, steps: seq<Step>, k: nat, i: ID, h: Hash)
    requires c.n >= 1
  {
    && TakenAt(rules, c, steps, k) && steps[k].Propose? && steps[k].id == i && steps[k].block.hash == h
    && Signing(rules, c, After(rules, c, steps[..k]), steps[k])
  }

  /** In every run, the signatures of a correct replica are those of the proposals it signs. */
  lemma {:induction false} SignaturesExactly(rules: RuleSet, c: Config, steps: seq<Step>, i: ID, h: Hash)
    requires c.n >= 1 && IsRun(rules, c, steps) && c.Honest(i)
    ensures Vote(i, h) in After(rules, c, steps).votes <==> exists k :: SignsAt(rules, c, steps, k, i, h)
    decreases |steps|
  {
    if steps != [] {
      var before := steps[..|steps| - 1];
      SignaturesExactly(rules, c, before, i, h);
      LastSignature(rules, c, steps, i, h);
      forall k: nat | k < |before| ensures SignsAt(rules, c, steps, k, i, h) <==> SignsAt(rules, c, before, k, i, h) {
        EarlierSignature(rules, c, steps, k, i, h);
      }
      if Vote(i, h) in After(rules, c, before).votes {
        var k: nat :| SignsAt(rules, c, before, k, i, h);
        assert SignsAt(rules, c, steps, k, i, h);
      }
    }
  }

  lemma LastSignature(rules: RuleSet, c: Config, steps: seq<Step>, i: ID, h: Hash)
    requires c.n >= 1 && IsRun(rules, c, steps) && c.Honest(i) && steps != []
    ensures Vote(i, h) in After(rules, c, steps).votes <==>
            Vote(i, h) in After(rules, c, steps[..|steps| - 1]).votes || SignsAt(rules, c, steps, |steps| - 1, i, h)
  {
    var s, last := After(rules, c, steps[..|steps| - 1]), steps[|steps| - 1];
    if last.Propose? {
      SignsExactly(rules, c, s, last);
    }
  }

  lemma EarlierSignature(rules: RuleSet, c: Config, steps: seq<Step>, k: nat, i: ID, h: Hash)
    requires c.n >= 1 && k < |steps| - 1
    ensures SignsAt(rules, c, steps, k, i, h) <==> SignsAt(rules, c, steps[..|steps| - 1], k, i, h)
  {
    assert steps[..k] == steps[..|steps| - 1][..k];
  }

  /** SimpleHotStuff decides `g` exactly when it takes the proposal, finds the three blocks down its
      certificates, of which `g` is the last, and their views span two. */
  lemma SimpleDecidesExactly(c: Config, s: State, step: Step, g: Block)
    requires c.n >= 1 && step.Propose? && Enabled(c, s, step)
    ensures var chain := step.chain[step.block.hash := step.block];
            Decided(Simple, c, s, step) == Some(g) <==>
              && SimpleTakes(c, s, step)
              && step.block.cert.hash in chain
              && var p := chain[step.block.cert.hash];
                 && p.cert.hash in chain
                 && var gp := chain[p.cert.hash];
                    gp.cert.hash in chain && g == chain[gp.cert.hash] && g.view + 2 == p.view
  {
    TakesAreAccepted(Simple, c, s, step);
  }

  /** ChainedHotStuff decides `g` exactly when it takes the proposal, finds the three blocks down its
      certificates, of which `g` is the last, and the upper two have the next ones as their parents. */
  lemma ChainedDecidesExactly(c: Config, s: State, step: Step, g: Block)
    requires c.n >= 1 && step.Propose? && Enabled(c, s, step)
    ensures var chain := step.chain[step.block.hash := step.block];
            Decided(Chained, c, s, step) == Some(g) <==>
              && ChainedTakes(c, s, step)
              && step.block.cert.hash in chain
              && var block1 := chain[step.block.cert.hash];
                 && block1.cert.hash in chain && block1.parent == block1.cert.hash
                 && var block2 := chain[block1.cert.hash];
                    && block2.cert.hash in chain && block2.parent == block2.cert.hash
                    && g == chain[block2.cert.hash]
  {
    TakesAreAccepted(Chained, c, s, step);
  }

  /** With either rule set the lock becomes the block two certificates down, if the proposal is taken and
      that block is found and newer. */
  lemma LocksExactly(rules: RuleSet, c: Config, s: State, step: Step)
    requires c.n >= 1 && step.Propose? && Enabled(c, s, step)
    ensures var chain := step.chain[step.block.hash := step.block];
            var lock := s.replicas[step.id].locked;
            Apply(rules, c, s, step).replicas[step.id].locked ==
              if && Takes(rules, c, s, step) && step.block.cert.hash in chain
                 && chain[step.block.cert.hash].cert.hash in chain
                 && chain[chain[step.block.cert.hash].cert.hash].view > lock.view
              then chain[chain[step.block.cert.hash].cert.hash] else lock
  {
    TakesAreAccepted(rules, c, s, step);
    LockedAfterPropose(rules, c.n, Env(s, step), s.replicas[step.id], step.block);
    Invariant.LockAfter(rules, step.chain[step.block.hash := step.block], s.replicas[step.id].locked, step.block);
  }

  lemma LockedAfterPropose(rules: RuleSet, n: nat, env: Surroundings, r: Replica, b: Block)
    requires n >= 1 && Storable(env.chain, b)
    ensures AfterPropose(rules, n, env, r, b).locked ==
              if Accepts(rules, n, env, r, b) then Decide(rules, env.chain[b.hash := b], r.locked, b).locked
              else r.locked
  {
  }
}
