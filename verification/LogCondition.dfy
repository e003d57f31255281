/** When the executed logs follow, in any run of either rule set over any blocks: exactly when every
    commit that executes something walks down to the block executed last, and every such commit is of a
    block on one branch with what the other correct replicas have executed. */
module LogCondition {
  import opened HotStuff
  import opened Quorum
  import opened Consensus
  import opened Protocol
  import opened Invariant
  import opened Agreement
  import opened Logs
  import BlockChain

  // ---------------------------------------------------------------- what is guarded

  /** The blocks that the replica can find when it commits. */
  ghost function Found(step: Step): Chain
    requires step.Propose?
  {
    step.chain[step.block.hash := step.block]
  }

  /** The step commits a block that is newer than what its replica has executed, and finds all of the
      walk down. */
  ghost predicate Executes(rules: RuleSet, c: Config, s: State, step: Step)
    requires c.n >= 1 && Enabled(c, s, step)
  {
    var decided := Decided(rules, c, s, step);
    && decided.Some? && decided.value.view > s.replicas[step.id].bExec.view
    && HashLinked(decided.value) && WellHashed(Found(step))
    && BlockChain.Landing(Found(step), s.replicas[step.id].bExec.view, decided.value).Some?
  }

  /** If the step executes anything, the walk ends in the block that its replica executed last. */
  ghost predicate LandsOnExecuted(rules: RuleSet, c: Config, s: State, step: Step)
    requires c.n >= 1 && Enabled(c, s, step)
  {
    Executes(rules, c, s, step) ==>
      BlockChain.Lands(Found(step), s.replicas[step.id].bExec, Decided(rules, c, s, step).value)
  }

  /** One of the blocks is an ancestor of the other, by parent links. */
  ghost predicate OnOneBranch(blocks: Chain, g: Hash, h: Hash)
    requires WellHashed(blocks)
  {
    OnPath(blocks, g, h) || OnPath(blocks, h, g)
  }

  ghost predicate OnPath(blocks: Chain, g: Hash, h: Hash)
    requires WellHashed(blocks)
  {
    g == GENESIS_HASH || (g in blocks && blocks[g] in PathTo(blocks, h))
  }

  /** If the step executes anything, the block it commits is on one branch with the last blocks of the
      other correct replicas. */
  ghost predicate JoinsOthers(rules: RuleSet, c: Config, s: State, step: Step)
    requires c.n >= 1 && Enabled(c, s, step) && WellHashed(s.blocks) && |s.replicas| == c.n
  {
    Executes(rules, c, s, step) ==>
      forall j: ID :: c.Honest(j) && j != step.id ==>
          OnOneBranch(s.blocks, Decided(rules, c, s, step).value.hash, s.replicas[j].bExec.hash)
  }

  // ---------------------------------------------------------------- what is kept

  /** No ancestor of the block is missing. */
  ghost predicate Complete(blocks: Chain, h: Hash)
    requires WellHashed(blocks)
    decreases h
  {
    h == GENESIS_HASH || (h in blocks && Complete(blocks, blocks[h].parent))
  }

  ghost predicate AllComplete(c: Config, s: State)
    requires WellHashed(s.blocks) && |s.replicas| == c.n
  {
    forall i: ID :: c.Honest(i) ==> Complete(s.blocks, s.replicas[i].bExec.hash)
  }

  lemma {:induction false} CompletePathStays(blocks: Chain, more: Chain, h: Hash)
    requires Part(blocks, more) && Complete(blocks, h)
    ensures Complete(more, h) && PathTo(more, h) == PathTo(blocks, h)
    decreases h
  {
    if h != GENESIS_HASH {
      CompletePathStays(blocks, more, blocks[h].parent);
    }
  }

  /** A block whose walk ends in a complete block is complete. */
  lemma {:induction false} CompleteAbove(chain: Chain, blocks: Chain, view: View, g: Block)
    requires Part(chain, blocks) && BlockChain.Stored(blocks, g)
    requires BlockChain.Landing(chain, view, g).Some?
    requires Complete(blocks, BlockChain.Landing(chain, view, g).value)
    ensures Complete(blocks, g.hash)
    decreases g.hash
  {
    if g.view > view {
      CompleteAbove(chain, blocks, view, chain[g.parent]);
    }
  }

  /** One path is a prefix of another if and only if its last block is on it. */
  lemma {:induction false} PathIsPrefix(blocks: Chain, g: Hash, h: Hash)
    requires WellHashed(blocks) && g in blocks && h in blocks
    ensures OnPath(blocks, g, h) <==> PathTo(blocks, g) <= PathTo(blocks, h)
    decreases h
  {
    var a, b := PathTo(blocks, g), PathTo(blocks, h);
    if g != GENESIS_HASH {
      assert a[|a| - 1] == blocks[g];
      if a <= b {
        assert b[|a| - 1] == blocks[g];
      }
      if h != GENESIS_HASH && h != g && blocks[g] in b {
        PathIsPrefixBelow(blocks, g, h);
      }
    }
  }

  lemma {:induction false} PathIsPrefixBelow(blocks: Chain, g: Hash, h: Hash)
    requires WellHashed(blocks) && g in blocks && h in blocks && g != GENESIS_HASH && h != GENESIS_HASH && h != g
    requires blocks[g] in PathTo(blocks, h)
    ensures PathTo(blocks, g) <= PathTo(blocks, h)
    decreases h, 0
  {
    var p := blocks[h].parent;
    assert PathTo(blocks, h) == PathTo(blocks, p) + [blocks[h]];
    assert blocks[g] in PathTo(blocks, p);
    if p != g {
      PathIsPrefixBelow(blocks, g, p);
    }
  }

  // ---------------------------------------------------------------- one step

  /** Only the replica that takes an executing step changes its log. */
  lemma LogChange(rules: RuleSet, c: Config, s: State, step: Step, i: ID)
    requires c.Valid() && Inv(rules, c, s) && Enabled(c, s, step) && c.Honest(i)
    ensures var r, r' := s.replicas[i], Apply(rules, c, s, step).replicas[i];
            if Executes(rules, c, s, step) && step.id == i
            then var q := AfterCommit(Found(step), r, Decided(rules, c, s, step).value);
                 r'.bExec == q.bExec && r'.executed == q.executed
            else r'.bExec == r.bExec && r'.executed == r.executed
  {
    if step.Propose? && step.id == i {
      LogAfterPropose(rules, c, s, step);
      if Decided(rules, c, s, step).Some? {
        FoundArePart(c, s, step);
        DecidedIsFound(rules, c, s, step);
        WalkIsPath(Found(step), s.blocks, s.replicas[i].bExec, Decided(rules, c, s, step).value);
      }
    }
  }

  lemma DecidedIsFound(rules: RuleSet, c: Config, s: State, step: Step)
    requires c.n >= 1 && Enabled(c, s, step) && WellHashed(s.blocks) && Decided(rules, c, s, step).Some?
    ensures WellHashed(Found(step)) && BlockChain.Stored(s.blocks, Decided(rules, c, s, step).value)
  {
    FoundArePart(c, s, step);
    DecidesThird(rules, Found(step), s.replicas[step.id].locked, step.block);
  }

  lemma CommitsBlock(rules: RuleSet, c: Config, s: State, step: Step)
    requires c.Valid() && Inv(rules, c, s) && Enabled(c, s, step) && Executes(rules, c, s, step)
    ensures var g := Decided(rules, c, s, step).value;
            BlockChain.Stored(s.blocks, g) && Apply(rules, c, s, step).replicas[step.id].bExec == g
  {
    var g := Decided(rules, c, s, step).value;
    DecidedIsFound(rules, c, s, step);
    FoundArePart(c, s, step);
    LogChange(rules, c, s, step, step.id);
    WalkIsPath(Found(step), s.blocks, s.replicas[step.id].bExec, g);
    assert ToExecute(Found(step), s.replicas[step.id].bExec, g).value != [];
  }

  /** A step leaves the logs parent paths if and only if it lands on what its replica executed last. */
  lemma StepPaths(rules: RuleSet, c: Config, s: State, step: Step)
    requires c.Valid() && Inv(rules, c, s) && Enabled(c, s, step) && PathLogs(c, s) && AllComplete(c, s)
    ensures PathLogs(c, Apply(rules, c, s, step)) <==> LandsOnExecuted(rules, c, s, step)
    ensures LandsOnExecuted(rules, c, s, step) ==> AllComplete(c, Apply(rules, c, s, step))
  {
    var s' := Apply(rules, c, s, step);
    StepKeeps(rules, c, s, step);
    StepGrows(rules, c, s, step);
    forall i: ID | c.Honest(i)
      ensures PathLog(s', s'.replicas[i]) <==> (step.Propose? && step.id == i ==> LandsOnExecuted(rules, c, s, step))
      ensures LandsOnExecuted(rules, c, s, step) ==> Complete(s'.blocks, s'.replicas[i].bExec.hash)
    {
      StepPath(rules, c, s, step, i);
    }
  }

  lemma StepPath(rules: RuleSet, c: Config, s: State, step: Step, i: ID)
    requires c.Valid() && Inv(rules, c, s) && Enabled(c, s, step) && c.Honest(i)
    requires PathLog(s, s.replicas[i]) && Complete(s.blocks, s.replicas[i].bExec.hash)
    ensures var s' := Apply(rules, c, s, step);
            && WellHashed(s'.blocks)
            && (PathLog(s', s'.replicas[i]) <==> (step.Propose? && step.id == i ==> LandsOnExecuted(rules, c, s, step)))
            && (LandsOnExecuted(rules, c, s, step) ==> Complete(s'.blocks, s'.replicas[i].bExec.hash))
  {
    var s', r := Apply(rules, c, s, step), s.replicas[i];
    StepKeeps(rules, c, s, step);
    StepGrows(rules, c, s, step);
    LogChange(rules, c, s, step, i);
    if Executes(rules, c, s, step) && step.id == i {
      var g := Decided(rules, c, s, step).value;
      CommitsBlock(rules, c, s, step);
      FoundArePart(c, s, step);
      CommitKeepsPath(Found(step), s.blocks, r, g);
      if LandsOnExecuted(rules, c, s, step) {
        CompleteAbove(Found(step), s.blocks, r.bExec.view, g);
      }
    } else {
      CompletePathStays(s.blocks, s'.blocks, r.bExec.hash);
    }
  }

  /** And then it leaves them ordered if and only if it joins what the others executed. */
  lemma StepOrder(rules: RuleSet, c: Config, s: State, step: Step)
    requires c.Valid() && Inv(rules, c, s) && Enabled(c, s, step) && PathLogs(c, s) && OrderedLogs(c, s)
    requires PathLogs(c, Apply(rules, c, s, step))
    ensures OrderedLogs(c, Apply(rules, c, s, step)) <==> JoinsOthers(rules, c, s, step)
  {
    if Executes(rules, c, s, step) {
      OrderAfterCommit(rules, c, s, step);
    } else {
      var s' := Apply(rules, c, s, step);
      forall i: ID, j: ID | c.Honest(i) && c.Honest(j)
        ensures PrefixOrdered(s'.replicas[i].executed, s'.replicas[j].executed)
      {
        LogChange(rules, c, s, step, i);
        LogChange(rules, c, s, step, j);
      }
    }
  }

  lemma OrderAfterCommit(rules: RuleSet, c: Config, s: State, step: Step)
    requires c.Valid() && Inv(rules, c, s) && Enabled(c, s, step) && Executes(rules, c, s, step)
    requires PathLogs(c, s) && OrderedLogs(c, s) && PathLogs(c, Apply(rules, c, s, step))
    ensures OrderedLogs(c, Apply(rules, c, s, step)) <==> JoinsOthers(rules, c, s, step)
  {
    var s', g := Apply(rules, c, s, step), Decided(rules, c, s, step).value.hash;
    forall j: ID | c.Honest(j) && j != step.id
      ensures s'.replicas[j].executed == s.replicas[j].executed
      ensures PrefixOrdered(s'.replicas[step.id].executed, s'.replicas[j].executed) <==>
              OnOneBranch(s.blocks, g, s.replicas[j].bExec.hash)
    {
      LogChange(rules, c, s, step, j);
      JoinsOther(rules, c, s, step, j);
    }
    OneLogMoved(c, s, s', step.id);
  }

  /** Where one log has changed, all are ordered if and only if it is ordered with the others. */
  lemma OneLogMoved(c: Config, s: State, s': State, i: ID)
    requires |s.replicas| == c.n == |s'.replicas| && c.Honest(i) && OrderedLogs(c, s)
    requires forall j: ID :: c.Honest(j) && j != i ==> s'.replicas[j].executed == s.replicas[j].executed
    ensures OrderedLogs(c, s') <==>
            forall j: ID :: c.Honest(j) && j != i ==> PrefixOrdered(s'.replicas[i].executed, s'.replicas[j].executed)
  {
  }

  lemma JoinsOther(rules: RuleSet, c: Config, s: State, step: Step, j: ID)
    requires c.Valid() && Inv(rules, c, s) && Enabled(c, s, step) && Executes(rules, c, s, step)
    requires PathLogs(c, Apply(rules, c, s, step)) && PathLogs(c, s) && c.Honest(j) && j != step.id
    ensures var s' := Apply(rules, c, s, step);
            PrefixOrdered(s'.replicas[step.id].executed, s'.replicas[j].executed) <==>
              OnOneBranch(s.blocks, Decided(rules, c, s, step).value.hash, s.replicas[j].bExec.hash)
  {
    var s', g, e := Apply(rules, c, s, step), Decided(rules, c, s, step).value.hash, s.replicas[j].bExec.hash;
    CommitsBlock(rules, c, s, step);
    LogChange(rules, c, s, step, j);
    assert PathLog(s', s'.replicas[step.id]) && PathLog(s, s.replicas[j]);
    PathIsPrefix(s.blocks, g, e);
    PathIsPrefix(s.blocks, e, g);
  }

  // ---------------------------------------------------------------- runs

  /** After the run and after each of its steps, every correct log is the parent path. */
  ghost predicate AlwaysPaths(rules: RuleSet, c: Config, steps: seq<Step>)
    requires c.n >= 1 && IsRun(rules, c, steps)
    decreases |steps|
  {
    PathLogs(c, After(rules, c, steps)) && (steps == [] || AlwaysPaths(rules, c, steps[..|steps| - 1]))
  }

  /** And any two of them are prefix-ordered. */
  ghost predicate AlwaysFollow(rules: RuleSet, c: Config, steps: seq<Step>)
    requires c.n >= 1 && IsRun(rules, c, steps)
    decreases |steps|
  {
    && LogsFollow(c, After(rules, c, steps))
    && (steps == [] || AlwaysFollow(rules, c, steps[..|steps| - 1]))
  }

  /** Every commit of the run lands on what its replica executed last, if it executes anything. */
  ghost predicate AlwaysLands(rules: RuleSet, c: Config, steps: seq<Step>)
    requires c.n >= 1 && IsRun(rules, c, steps)
    decreases |steps|
  {
    steps == [] ||
    var before := steps[..|steps| - 1];
    AlwaysLands(rules, c, before) && LandsOnExecuted(rules, c, After(rules, c, before), steps[|steps| - 1])
  }

  /** And it joins what the other correct replicas executed. */
  ghost predicate AlwaysJoins(rules: RuleSet, c: Config, steps: seq<Step>)
    requires c.Valid() && IsRun(rules, c, steps)
    decreases |steps|
  {
    steps == [] ||
    var before := steps[..|steps| - 1];
    RunKeeps(rules, c, before);
    AlwaysJoins(rules, c, before) && JoinsOthers(rules, c, After(rules, c, before), steps[|steps| - 1])
  }

  lemma FirstLogs(c: Config)
    requires c.Valid()
    ensures PathLogs(c, Init(c)) && OrderedLogs(c, Init(c)) && AllComplete(c, Init(c))
  {
    assert PathTo(Init(c).blocks, GENESIS_HASH) == [];
  }

  /** In every run of either rule set, over any blocks: all correct logs are the parent path after every
      step if and only if every commit that executes anything walks down to the block executed last. */
  lemma {:induction false} PathsExactlyWhenLanding(rules: RuleSet, c: Config, steps: seq<Step>)
    requires c.Valid() && IsRun(rules, c, steps)
    ensures AlwaysPaths(rules, c, steps) <==> AlwaysLands(rules, c, steps)
    ensures AlwaysLands(rules, c, steps) ==>
              PathLogs(c, After(rules, c, steps)) && AllComplete(c, After(rules, c, steps))
    decreases |steps|
  {
    if steps == [] {
      FirstLogs(c);
    } else {
      var before, last := steps[..|steps| - 1], steps[|steps| - 1];
      PathsExactlyWhenLanding(rules, c, before);
      RunKeeps(rules, c, before);
      if AlwaysLands(rules, c, before) {
        StepPaths(rules, c, After(rules, c, before), last);
      }
    }
  }

  /** They follow, that is, are also prefix-ordered after every step, if and only if every such commit is
      also of a block on one branch with the last blocks of the other correct replicas. */
  lemma {:induction false} FollowExactly(rules: RuleSet, c: Config, steps: seq<Step>)
    requires c.Valid() && IsRun(rules, c, steps)
    ensures AlwaysFollow(rules, c, steps) <==> AlwaysLands(rules, c, steps) && AlwaysJoins(rules, c, steps)
    decreases |steps|
  {
    PathsExactlyWhenLanding(rules, c, steps);
    if steps == [] {
      FirstLogs(c);
    } else {
      var before, last := steps[..|steps| - 1], steps[|steps| - 1];
      var s := After(rules, c, before);
      FollowExactly(rules, c, before);
      PathsExactlyWhenLanding(rules, c, before);
      RunKeeps(rules, c, before);
      if AlwaysFollow(rules, c, before) {
        StepPaths(rules, c, s, last);
        if LandsOnExecuted(rules, c, s, last) {
          StepOrder(rules, c, s, last);
        }
      }
    }
  }

  /** It is enough that certified blocks land at the end of the run, and that decisions are taken from
      consecutive views, as SimpleHotStuff's always are. */
  lemma {:induction false} LandingBlocksFollow(rules: RuleSet, c: Config, steps: seq<Step>)
    requires c.Valid() && IsRun(rules, c, steps) && ConsecutiveRun(rules, c, steps)
    requires CertifiedLand(c, After(rules, c, steps))
    ensures AlwaysFollow(rules, c, steps) && AlwaysLands(rules, c, steps) && AlwaysJoins(rules, c, steps)
    decreases |steps|
  {
    RunLogs(rules, c, steps);
    if steps != [] {
      var before, last := steps[..|steps| - 1], steps[|steps| - 1];
      RunKeeps(rules, c, before);
      RunKeeps(rules, c, steps);
      StepGrows(rules, c, After(rules, c, before), last);
      EarlierLand(rules, c, After(rules, c, before), After(rules, c, steps));
      LandingBlocksFollow(rules, c, before);
    }
    FollowExactly(rules, c, steps);
  }
}
