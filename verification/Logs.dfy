/** What correct replicas have executed. */
module Logs {
  import opened HotStuff
  import opened Quorum
  import opened Consensus
  import opened Protocol
  import opened Invariant
  import opened Agreement
  import BlockChain

  /** The blocks after genesis up to block `h`, by parent links, oldest first. */
  ghost function PathTo(blocks: Chain, h: Hash): seq<Block>
    requires WellHashed(blocks)
    decreases h
  {
    if h == GENESIS_HASH || h !in blocks then [] else PathTo(blocks, blocks[h].parent) + [blocks[h]]
  }

  /** The log of a replica is the parent path from genesis to its last executed block, which is
      sealed; no block of the path is missing. */
  ghost predicate GoodLog(c: Config, s: State, r: Replica)
    requires c.n >= 1 && WellHashed(s.blocks)
  {
    && BlockChain.Stored(s.blocks, r.bExec) && Sealed(c, s, r.bExec.hash)
    && BlockChain.Landing(s.blocks, 0, r.bExec) == Some(GENESIS_HASH)
    && r.executed == PathTo(s.blocks, r.bExec.hash)
  }

  ghost predicate GoodLogs(c: Config, s: State)
    requires c.n >= 1 && WellHashed(s.blocks) && |s.replicas| == c.n
  {
    forall i: ID :: c.Honest(i) ==> GoodLog(c, s, s.replicas[i])
  }

  /** `chain` holds some of the blocks. */
  ghost predicate Part(chain: Chain, blocks: Chain) {
    WellHashed(chain) && WellHashed(blocks) && forall h :: h in chain ==> h in blocks && blocks[h] == chain[h]
  }

  /** What Commit executes is what the walk down from the block passes before it ends; nothing if the
      walk misses a block. */
  lemma {:induction false} WalkIsPath(chain: Chain, blocks: Chain, e: Block, g: Block)
    requires Part(chain, blocks) && BlockChain.Stored(blocks, g)
    ensures ToExecute(chain, e, g).Some? <==> BlockChain.Landing(chain, e.view, g).Some?
    ensures BlockChain.Landing(chain, e.view, g).Some? ==>
              && BlockChain.Landing(blocks, e.view, g) == BlockChain.Landing(chain, e.view, g)
              && PathTo(blocks, g.hash)
                   == PathTo(blocks, BlockChain.Landing(chain, e.view, g).value) + ToExecute(chain, e, g).value
    decreases g.hash
  {
    if g.view > e.view && g.parent in chain {
      WalkIsPath(chain, blocks, e, chain[g.parent]);
      assert PathTo(blocks, g.hash) == PathTo(blocks, g.parent) + [g];
    }
  }

  lemma EarlierLand(rules: RuleSet, c: Config, s: State, s': State)
    requires c.Valid() && Inv(rules, c, s) && WellHashed(s'.blocks) && Grows(s, s') && CertifiedLand(c, s')
    ensures CertifiedLand(c, s)
  {
    forall h | h in s.blocks && h != GENESIS_HASH && Certified(c, s, h) ensures LandsOnQc(s, h) {
      CertifiedLink(rules, c, s, h);
      VotersGrow(c.n, s.votes, s'.votes, h);
      assert LandsOnQc(s', h);
      BlockChain.LandingStays(s.blocks, s'.blocks, ViewOf(s, Qc(s, h)), s.blocks[h]);
    }
  }

  lemma GoodLogStays(rules: RuleSet, c: Config, s: State, s': State, r: Replica)
    requires c.Valid() && Inv(rules, c, s) && WellHashed(s'.blocks) && Grows(s, s') && GoodLog(c, s, r)
    ensures GoodLog(c, s', r)
  {
    SealedStays(rules, c, s, s', r.bExec.hash);
    WalkIsPath(s.blocks, s.blocks, GENESIS, r.bExec);
    WalkIsPath(s.blocks, s'.blocks, GENESIS, r.bExec);
  }

  /** Commit leaves the log of a replica the parent path to its last block exactly when the walk down
      from the committed block misses a block or comes by the block executed last. */
  lemma CommitKeepsPath(chain: Chain, blocks: Chain, r: Replica, g: Block)
    requires Part(chain, blocks) && BlockChain.Stored(blocks, g) && BlockChain.Stored(blocks, r.bExec)
    requires r.executed == PathTo(blocks, r.bExec.hash) && g.view > r.bExec.view
    ensures var r' := AfterCommit(chain, r, g);
            r'.executed == PathTo(blocks, r'.bExec.hash) <==> BlockChain.Lands(chain, r.bExec, g)
  {
    WalkIsPath(chain, blocks, r.bExec, g);
    var end := BlockChain.Landing(chain, r.bExec.view, g);
    if end.Some? {
      BlockChain.LandingThrough(blocks, r.bExec.view, r.bExec.view, g);
      var todo := ToExecute(chain, r.bExec, g).value;
      assert PathTo(blocks, end.value) + todo == r.executed + todo <==> PathTo(blocks, end.value) == r.executed by {
        SameFront(PathTo(blocks, end.value), r.executed, todo);
      }
      PathNames(blocks, end.value, r.bExec.hash);
    }
  }

  lemma SameFront<T>(a: seq<T>, b: seq<T>, c: seq<T>)
    ensures a + c == b + c <==> a == b
  {
    if a + c == b + c {
      assert a == (a + c)[..|a|] && b == (b + c)[..|b|];
    }
  }

  /** Different blocks have different paths. */
  lemma PathNames(blocks: Chain, g: Hash, h: Hash)
    requires WellHashed(blocks) && g in blocks && h in blocks
    ensures PathTo(blocks, g) == PathTo(blocks, h) <==> g == h
  {
    if PathTo(blocks, g) == PathTo(blocks, h) && g != GENESIS_HASH {
      assert PathTo(blocks, g)[|PathTo(blocks, g)| - 1] == blocks[g];
      assert h != GENESIS_HASH;
      assert PathTo(blocks, h)[|PathTo(blocks, h)| - 1] == blocks[h];
    }
  }

  /** Committing a sealed block. */
  lemma CommitKeepsLog(rules: RuleSet, c: Config, s: State, chain: Chain, r: Replica, g: Block)
    requires c.Valid() && Inv(rules, c, s) && CertifiedLand(c, s) && GoodLog(c, s, r) && Part(chain, s.blocks)
    requires BlockChain.Stored(s.blocks, g) && Sealed(c, s, g.hash)
    ensures GoodLog(c, s, AfterCommit(chain, r, g))
  {
    var e := r.bExec;
    SealedIsCertified(rules, c, s, g.hash);
    if g.view > e.view {
      SealedLandsAll(rules, c, s, e.hash, g.hash);
      WalkIsPath(chain, s.blocks, e, g);
      BlockChain.LandingThrough(s.blocks, e.view, 0, g);
    }
  }

  lemma ProposeKeepsLog(rules: RuleSet, c: Config, s: State, step: Step)
    requires c.Valid() && Inv(rules, c, s) && CertifiedLand(c, s) && GoodLogs(c, s)
    requires step.Propose? && Enabled(c, s, step) && Consecutive(rules, c, s, step)
    ensures GoodLog(c, s, AfterPropose(rules, c.n, Env(s, step), s.replicas[step.id], step.block))
  {
    assert GoodLog(c, s, s.replicas[step.id]);
    LogAfterPropose(rules, c, s, step);
    if Decided(rules, c, s, step).Some? {
      DecisionIsSealed(rules, c, s, step);
      FoundArePart(c, s, step);
      CommitKeepsLog(rules, c, s, step.chain[step.block.hash := step.block], s.replicas[step.id],
                     Decided(rules, c, s, step).value);
    }
  }

  /** OnPropose changes the log as Commit of the decided block does, if there is one. */
  lemma LogAfterPropose(rules: RuleSet, c: Config, s: State, step: Step)
    requires c.n >= 1 && step.Propose? && Enabled(c, s, step)
    ensures var r := s.replicas[step.id];
            var r' := AfterPropose(rules, c.n, Env(s, step), r, step.block);
            var decided := Decided(rules, c, s, step);
            && (decided.None? ==> r'.bExec == r.bExec && r'.executed == r.executed)
            && (decided.Some? ==>
                  && HashLinked(decided.value)
                  && var q := AfterCommit(step.chain[step.block.hash := step.block], r, decided.value);
                     r'.bExec == q.bExec && r'.executed == q.executed)
  {
  }

  lemma FoundArePart(c: Config, s: State, step: Step)
    requires c.n >= 1 && step.Propose? && Enabled(c, s, step) && WellHashed(s.blocks)
    ensures Part(step.chain[step.block.hash := step.block], s.blocks)
  {
  }

  lemma StepKeepsLog(rules: RuleSet, c: Config, s: State, step: Step)
    requires c.Valid() && Inv(rules, c, s) && CertifiedLand(c, s) && GoodLogs(c, s)
    requires Enabled(c, s, step) && Consecutive(rules, c, s, step)
    ensures Inv(rules, c, Apply(rules, c, s, step)) && GoodLogs(c, Apply(rules, c, s, step))
  {
    var s' := Apply(rules, c, s, step);
    StepKeeps(rules, c, s, step);
    StepGrows(rules, c, s, step);
    forall i: ID | c.Honest(i) ensures GoodLog(c, s', s'.replicas[i]) {
      assert GoodLog(c, s, s.replicas[i]);
      if step.Propose? && step.id == i {
        ProposeKeepsLog(rules, c, s, step);
      }
      GoodLogStays(rules, c, s, s', s'.replicas[i]);
    }
  }

  // ---------------------------------------------------------------- runs

  /** Every decision of the run is taken from consecutive views. */
  ghost predicate ConsecutiveRun(rules: RuleSet, c: Config, steps: seq<Step>)
    requires c.n >= 1 && IsRun(rules, c, steps)
    decreases |steps|
  {
    steps == [] ||
    var before := steps[..|steps| - 1];
    ConsecutiveRun(rules, c, before) && Consecutive(rules, c, After(rules, c, before), steps[|steps| - 1])
  }

  lemma {:induction false} SimpleRunIsConsecutive(c: Config, steps: seq<Step>)
    requires c.Valid() && IsRun(Simple, c, steps)
    ensures ConsecutiveRun(Simple, c, steps)
    decreases |steps|
  {
    if steps != [] {
      SimpleRunIsConsecutive(c, steps[..|steps| - 1]);
      SimpleIsConsecutive(c, After(Simple, c, steps[..|steps| - 1]), steps[|steps| - 1]);
    }
  }

  lemma {:induction false} RunKeepsLog(rules: RuleSet, c: Config, steps: seq<Step>)
    requires c.Valid() && IsRun(rules, c, steps) && ConsecutiveRun(rules, c, steps)
    requires Inv(rules, c, After(rules, c, steps)) && CertifiedLand(c, After(rules, c, steps))
    ensures GoodLogs(c, After(rules, c, steps))
    decreases |steps|
  {
    if steps != [] {
      var before, last := steps[..|steps| - 1], steps[|steps| - 1];
      var s := After(rules, c, before);
      RunKeeps(rules, c, before);
      StepGrows(rules, c, s, last);
      EarlierLand(rules, c, s, After(rules, c, steps));
      RunKeepsLog(rules, c, before);
      StepKeepsLog(rules, c, s, last);
    }
  }

  ghost predicate PrefixOrdered<T>(a: seq<T>, b: seq<T>) {
    a <= b || b <= a
  }

  lemma LogsAgree(rules: RuleSet, c: Config, s: State, i: ID, j: ID)
    requires c.Valid() && Inv(rules, c, s) && CertifiedLand(c, s) && GoodLogs(c, s) && c.Honest(i) && c.Honest(j)
    ensures PrefixOrdered(s.replicas[i].executed, s.replicas[j].executed)
  {
    assert GoodLog(c, s, s.replicas[i]) && GoodLog(c, s, s.replicas[j]);
    if s.replicas[i].bExec.view >= s.replicas[j].bExec.view {
      LowerIsPrefix(rules, c, s, s.replicas[i], s.replicas[j]);
    } else {
      LowerIsPrefix(rules, c, s, s.replicas[j], s.replicas[i]);
    }
  }

  lemma LowerIsPrefix(rules: RuleSet, c: Config, s: State, high: Replica, low: Replica)
    requires c.Valid() && Inv(rules, c, s) && CertifiedLand(c, s) && GoodLog(c, s, high) && GoodLog(c, s, low)
    requires high.bExec.view >= low.bExec.view
    ensures low.executed <= high.executed
  {
    SealedIsCertified(rules, c, s, high.bExec.hash);
    SealedLandsAll(rules, c, s, low.bExec.hash, high.bExec.hash);
    BlockChain.LandingThrough(s.blocks, low.bExec.view, 0, high.bExec);
    WalkIsPath(s.blocks, s.blocks, low.bExec, high.bExec);
  }

  /** Every correct replica has executed exactly the parent path from genesis to its last executed
      block, and any two logs are prefix-ordered. */
  ghost predicate LogsFollow(c: Config, s: State) {
    PathLogs(c, s) && OrderedLogs(c, s)
  }

  /** The correct logs are the parent paths to the last executed blocks. */
  ghost predicate PathLogs(c: Config, s: State) {
    && WellHashed(s.blocks) && |s.replicas| == c.n
    && forall i: ID :: c.Honest(i) ==> PathLog(s, s.replicas[i])
  }

  ghost predicate PathLog(s: State, r: Replica)
    requires WellHashed(s.blocks)
  {
    BlockChain.Stored(s.blocks, r.bExec) && r.executed == PathTo(s.blocks, r.bExec.hash)
  }

  ghost predicate OrderedLogs(c: Config, s: State)
    requires |s.replicas| == c.n
  {
    forall i: ID, j: ID :: c.Honest(i) && c.Honest(j) ==>
        PrefixOrdered(s.replicas[i].executed, s.replicas[j].executed)
  }

  lemma RunLogs(rules: RuleSet, c: Config, steps: seq<Step>)
    requires c.Valid() && IsRun(rules, c, steps) && ConsecutiveRun(rules, c, steps)
    requires CertifiedLand(c, After(rules, c, steps))
    ensures LogsFollow(c, After(rules, c, steps))
  {
    var s := After(rules, c, steps);
    RunKeeps(rules, c, steps);
    RunKeepsLog(rules, c, steps);
    forall i: ID | c.Honest(i) ensures PathLog(s, s.replicas[i]) {
      assert GoodLog(c, s, s.replicas[i]);
    }
    forall i: ID, j: ID | c.Honest(i) && c.Honest(j)
      ensures PrefixOrdered(s.replicas[i].executed, s.replicas[j].executed)
    {
      LogsAgree(rules, c, s, i, j);
    }
  }

  /** The replicated log of SimpleHotStuff, for runs in which the branch of every certified block comes
      by the block its certificate names, whatever else faulty replicas build. */
  lemma ReplicatedLog(c: Config, steps: seq<Step>)
    requires c.Valid() && IsRun(Simple, c, steps)
    requires CertifiedLand(c, After(Simple, c, steps))
    ensures LogsFollow(c, After(Simple, c, steps))
  {
    SimpleRunIsConsecutive(c, steps);
    RunLogs(Simple, c, steps);
  }

  /** The same for ChainedHotStuff, when its decisions are taken from consecutive views. */
  lemma ChainedReplicatedLog(c: Config, steps: seq<Step>)
    requires c.Valid() && IsRun(Chained, c, steps) && ConsecutiveRun(Chained, c, steps)
    requires CertifiedLand(c, After(Chained, c, steps))
    ensures LogsFollow(c, After(Chained, c, steps))
  {
    RunLogs(Chained, c, steps);
  }

  /** Blocks shaped as `Propose` builds them land, so it holds when all certified blocks are. */
  lemma ShapedReplicatedLog(c: Config, steps: seq<Step>)
    requires c.Valid() && IsRun(Simple, c, steps) && CertifiedShaped(c, After(Simple, c, steps))
    ensures LogsFollow(c, After(Simple, c, steps))
  {
    RunKeeps(Simple, c, steps);
    ShapedLand(Simple, c, After(Simple, c, steps));
    ReplicatedLog(c, steps);
  }

  /** Where certified blocks are shaped as `Propose` builds them, Commit of a sealed block finds all it
      has to execute. */
  lemma {:induction false} ShapedCommitSucceeds(rules: RuleSet, c: Config, s: State, chain: Chain, e: Block, h: Hash)
    requires c.Valid() && Inv(rules, c, s) && CertifiedShaped(c, s) && WellHashed(chain)
    requires forall x :: x in s.blocks && Certified(c, s, x) ==> x in chain && chain[x] == s.blocks[x]
    requires Certified(c, s, h)
    ensures h in s.blocks && ToExecute(chain, e, s.blocks[h]).Some?
    decreases h
  {
    CertifiedIsBuilt(rules, c, s, h);
    if h != GENESIS_HASH {
      CertifiedLink(rules, c, s, h);
      ShapedCommitSucceeds(rules, c, s, chain, e, Qc(s, h));
    }
  }

  /** A block on the block below the highest certificate, with that block's own certificate, as the fork
      rule of byzantine.go proposes it, is not shaped but does land. */
  lemma ForkProposalLands(blocks: Chain, b: Block)
    requires WellHashed(blocks) && HashLinked(b) && b.parent in blocks && Shaped(blocks[b.parent])
    requires b.cert == blocks[b.parent].cert && b.cert.hash in blocks
    requires blocks[b.cert.hash].view < blocks[b.parent].view && blocks[b.cert.hash].view < b.view
    ensures BlockChain.Lands(blocks, blocks[b.cert.hash], b)
  {
    ShapedLands(blocks, blocks[b.parent]);
  }

  /** For every chain, replica and block: Commit either changes nothing, or executes a parent-linked
      run of blocks that ends in the committed one and starts just above the old view. */
  lemma {:induction false} CommitIsAllOrNothing(chain: Chain, r: Replica, block: Block)
    requires WellHashed(chain) && HashLinked(block)
    ensures AfterCommit(chain, r, block) != r ==>
              && AfterCommit(chain, r, block).bExec == block && block.view > r.bExec.view
              && r.executed < AfterCommit(chain, r, block).executed
              && LinkedFrom(chain, AfterCommit(chain, r, block).executed[|r.executed|..], r.bExec.view, block)
  {
    ToExecuteIsLinked(chain, r.bExec, block);
    var todo := ToExecute(chain, r.bExec, block);
    if todo.Some? {
      assert (r.executed + todo.value)[|r.executed|..] == todo.value;
    }
  }

  /** `blocks` ends in `last`, each block is the stored parent of the next, all are above `view`
      and the parent of the first is not. */
  ghost predicate LinkedFrom(chain: Chain, blocks: seq<Block>, view: View, last: Block) {
    && blocks != [] && blocks[|blocks| - 1] == last
    && (forall k :: 0 <= k < |blocks| ==> blocks[k].view > view)
    && (forall k :: 0 < k < |blocks| ==> blocks[k].parent in chain && chain[blocks[k].parent] == blocks[k - 1])
    && blocks[0].parent in chain && chain[blocks[0].parent].view <= view
  }

  lemma {:induction false} ToExecuteIsLinked(chain: Chain, bExec: Block, block: Block)
    requires WellHashed(chain) && HashLinked(block)
    ensures var todo := ToExecute(chain, bExec, block);
            todo.Some? && block.view > bExec.view ==> LinkedFrom(chain, todo.value, bExec.view, block)
    decreases block.hash
  {
    if block.view > bExec.view && block.parent in chain {
      ToExecuteIsLinked(chain, bExec, chain[block.parent]);
      var older := ToExecute(chain, bExec, chain[block.parent]);
      if older.Some? && chain[block.parent].view > bExec.view {
        var todo := older.value + [block];
        assert forall k :: 0 <= k < |older.value| ==> todo[k] == older.value[k];
      }
    }
  }
}
