/** The replica as an object whose methods update its fields, as the implementation has it. */
module ReplicaObject {
  import opened HotStuff
  import opened Quorum
  import opened Consensus
  import SimpleHotStuff
  import ChainedHotStuff

  /** The rule set plugged into a replica. */
  datatype Impl = SimpleRules(simple: SimpleHotStuff.Rules) | ChainedRules(chained: ChainedHotStuff.Rules) {
    function Object(): object {
      match this
      case SimpleRules(s) => s
      case ChainedRules(c) => c
    }

    function Kind(): RuleSet {
      if SimpleRules? then Simple else Chained
    }

    function Locked(): Block
      reads Object()
    {
      match this
      case SimpleRules(s) => s.locked
      case ChainedRules(c) => c.bLock
    }
  }

  class ConsensusBase {
    const impl: Impl
    var blocks: Chain // what the block chain can find
    var lastVote: View
    var bExec: Block
    var executed: seq<Block>

    ghost predicate Valid()
      reads this
    {
      impl.Object() != this && WellHashed(blocks)
    }

    ghost function State(): Replica
      reads this, impl.Object()
    {
      Replica(lastVote, impl.Locked(), bExec, executed)
    }

    constructor (impl: Impl)
      requires impl.Locked() == GENESIS
      ensures Valid() && this.impl == impl && State() == NEW_REPLICA
      ensures lastVote == 0 && bExec == GENESIS && executed == [] && blocks == map[GENESIS_HASH := GENESIS]
    {
      this.impl := impl;
      blocks := map[GENESIS_HASH := GENESIS];
      lastVote, bExec, executed := 0, GENESIS, [];
    }

    /** Afterwards the replica signs nothing of a view up to `view`. */
    method StopVoting(view: View)
      requires Valid()
      modifies this`lastVote
      ensures Valid()
      ensures State() == Stopped(old(State()), view)
      ensures lastVote >= old(lastVote) && lastVote >= view && (lastVote == old(lastVote) || lastVote == view)
    {
      if lastVote < view {
        lastVote := view;
      }
    }

    /** Returns whether the proposal was signed. `votes`, `syncView`, `accept` and `signs` are the
        surroundings of the call; `n` is the size of the configuration. */
    method OnPropose(n: nat, votes: set<Vote>, syncView: View, accept: bool, signs: bool, block: Block)
        returns (signed: bool)
      requires Valid() && n >= 1 && Storable(blocks, block)
      modifies this, impl.Object()
      ensures Valid()
      ensures var env := Surroundings(old(blocks), votes, syncView, accept, signs);
              && State() == AfterPropose(impl.Kind(), n, env, old(State()), block)
              && signed == Signs(impl.Kind(), n, env, old(State()), block)
              && blocks == if Accepts(impl.Kind(), n, env, old(State()), block)
                           then old(blocks)[block.hash := block] else old(blocks)
    {
      signed := false;
      if !VerifyQuorumCert(n, blocks, votes, block.cert) {
        return;
      }
      var safe;
      match impl {
        case SimpleRules(s) => safe := s.VoteRule(blocks, syncView, block);
        case ChainedRules(c) => safe := c.VoteRule(blocks, block);
      }
      if !safe {
        return;
      }
      if !accept {
        return;
      }
      blocks := blocks[block.hash := block];
      var decided;
      match impl {
        case SimpleRules(s) => decided := s.CommitRule(blocks, block);
        case ChainedRules(c) => decided := c.CommitRule(blocks, block);
      }
      if decided.Some? {
        Commit(decided.value);
      }
      if block.view <= lastVote {
        return;
      }
      if !signs {
        return;
      }
      lastVote := block.view;
      signed := true;
    }

    method Commit(block: Block)
      requires Valid() && HashLinked(block)
      modifies this`bExec, this`executed
      ensures Valid()
      ensures State() == AfterCommit(blocks, old(State()), block)
    {
      var ok := CommitInner(block);
    }

    /** Executes nothing when it fails. */
    method CommitInner(block: Block) returns (ok: bool)
      requires Valid() && HashLinked(block)
      modifies this`bExec, this`executed
      ensures Valid()
      ensures ok == ToExecute(blocks, old(bExec), block).Some?
      ensures !ok ==> bExec == old(bExec) && executed == old(executed)
      ensures State() == AfterCommit(blocks, old(State()), block)
      decreases block.hash
    {
      if bExec.view >= block.view {
        return true;
      }
      var parent := Get(blocks, block.parent);
      if parent.None? {
        return false;
      }
      ok := CommitInner(parent.value);
      if !ok {
        return;
      }
      executed := executed + [block];
      bExec := block;
    }
  }
}
