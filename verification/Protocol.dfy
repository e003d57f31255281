/** All replicas together, with at most NumFaulty(n) of them faulty. */
module Protocol {
  import opened HotStuff
  import opened Quorum
  import opened Consensus

  /** `blocks` holds every block built so far and `votes` every signature made so far. `early` is a
      history variable: the signatures made before their block was certified. The entries of
      `replicas` for faulty replicas mean nothing. */
  datatype State = State(blocks: Chain, votes: set<Vote>, early: set<Vote>, replicas: seq<Replica>)

  /** Anyone builds a block; a faulty replica signs anything; a correct replica handles a proposal,
      whoever sent it; a correct replica's synchronizer stops it from voting up to a view. */
  datatype Step =
    | Build(block: Block)
    | FaultyVote(id: ID, hash: Hash)
    | Propose(id: ID, chain: Chain, syncView: View, accept: bool, signs: bool, block: Block)
    | StopVoting(id: ID, view: View)

  function Init(c: Config): State {
    State(map[GENESIS_HASH := GENESIS], {}, {}, seq(c.n, _ => NEW_REPLICA))
  }

  function Voters(n: nat, votes: set<Vote>, h: Hash): set<ID> {
    set i | i in Ids(n) && Vote(i, h) in votes
  }

  ghost predicate Certified(c: Config, s: State, h: Hash)
    requires c.n >= 1
  {
    h == GENESIS_HASH || |Voters(c.n, s.votes, h)| >= QuorumSize(c.n)
  }

  /** The blocks a replica can find are built blocks, among them every certified one. */
  ghost predicate Findable(c: Config, s: State, chain: Chain)
    requires c.n >= 1
  {
    && (forall h :: h in chain ==> h in s.blocks && chain[h] == s.blocks[h])
    && (forall h :: h in s.blocks && Certified(c, s, h) ==> h in chain)
  }

  function Env(s: State, step: Step): Surroundings
    requires step.Propose?
  {
    Surroundings(step.chain, s.votes, step.syncView, step.accept, step.signs)
  }

  ghost predicate Enabled(c: Config, s: State, step: Step)
    requires c.n >= 1
  {
    match step
    case Build(b) => Storable(s.blocks, b)
    case FaultyVote(i, h) => i in c.byz
    case Propose(i, chain, _, _, _, b) =>
      && c.Honest(i) && i < |s.replicas|
      && b.hash in s.blocks && s.blocks[b.hash] == b
      && Findable(c, s, chain) && Storable(chain, b)
    case StopVoting(i, _) => c.Honest(i) && i < |s.replicas|
  }

  function AddVote(c: Config, s: State, v: Vote): State
    requires c.n >= 1
  {
    var certified := v.hash == GENESIS_HASH || |Voters(c.n, s.votes, v.hash)| >= QuorumSize(c.n);
    s.(votes := s.votes + {v}, early := if certified then s.early else s.early + {v})
  }

  ghost function Apply(rules: RuleSet, c: Config, s: State, step: Step): State
    requires c.n >= 1 && Enabled(c, s, step)
  {
    match step
    case Build(b) => s.(blocks := s.blocks[b.hash := b])
    case FaultyVote(i, h) => AddVote(c, s, Vote(i, h))
    case Propose(i, _, _, _, _, b) =>
      var r := s.replicas[i];
      var s' := s.(replicas := s.replicas[i := AfterPropose(rules, c.n, Env(s, step), r, b)]);
      if Signs(rules, c.n, Env(s, step), r, b) then AddVote(c, s', Vote(i, b.hash)) else s'
    case StopVoting(i, view) =>
      var r := s.replicas[i];
      s.(replicas := s.replicas[i := Stopped(r, view)])
  }

  /** The block CommitRule returns in this step, if the step gets that far. */
  ghost function Decided(rules: RuleSet, c: Config, s: State, step: Step): Option<Block>
    requires c.n >= 1 && Enabled(c, s, step)
  {
    if step.Propose? && Accepts(rules, c.n, Env(s, step), s.replicas[step.id], step.block) then
      Decide(rules, step.chain[step.block.hash := step.block], s.replicas[step.id].locked, step.block).decided
    else None
  }

  /** A run is a list of steps, each enabled where it is taken. */
  ghost predicate IsRun(rules: RuleSet, c: Config, steps: seq<Step>)
    requires c.n >= 1
    decreases |steps|, 0
  {
    steps == [] ||
    var before := steps[..|steps| - 1];
    IsRun(rules, c, before) && Enabled(c, After(rules, c, before), steps[|steps| - 1])
  }

  /** The state a run ends in. */
  ghost function After(rules: RuleSet, c: Config, steps: seq<Step>): State
    requires c.n >= 1 && IsRun(rules, c, steps)
    decreases |steps|, 1
  {
    if steps == [] then Init(c)
    else
      var before := steps[..|steps| - 1];
      Apply(rules, c, After(rules, c, before), steps[|steps| - 1])
  }

  /** A run can be continued by any step that is enabled where it ends. */
  lemma OneMore(rules: RuleSet, c: Config, steps: seq<Step>, step: Step)
    requires c.n >= 1 && IsRun(rules, c, steps) && Enabled(c, After(rules, c, steps), step)
    ensures IsRun(rules, c, steps + [step])
    ensures After(rules, c, steps + [step]) == Apply(rules, c, After(rules, c, steps), step)
  {
    assert (steps + [step])[..|steps|] == steps;
  }
}
