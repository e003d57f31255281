/** One replica: what `OnPropose`, `StopVoting` and `Commit` do to it. */
module Consensus {
  import opened HotStuff
  import opened Quorum
  import SimpleHotStuff
  import ChainedHotStuff

  datatype RuleSet = Simple | Chained

  /** The part of a replica that the protocol depends on. `locked` is the lock of its rule set,
      `executed` the blocks handed to its executor, oldest first. */
  datatype Replica = Replica(lastVote: View, locked: Block, bExec: Block, executed: seq<Block>)

  const NEW_REPLICA := Replica(0, GENESIS, GENESIS, [])

  /** The surroundings of one OnPropose call: the blocks that can be found, the signatures that
      exist, the synchronizer's view, the acceptor's answer and whether signing succeeds. */
  datatype Surroundings = Surroundings(chain: Chain, votes: set<Vote>, syncView: View, accept: bool, signs: bool)

  /** A certificate is accepted when it is the genesis certificate, or carries the signatures of
      a quorum on a block that can be found. Signatures cannot be forged: a signature verifies
      when its signer has made it. */
  predicate VerifyQuorumCert(n: nat, chain: Chain, votes: set<Vote>, qc: QuorumCert)
    requires n >= 1
  {
    || qc.hash == GENESIS_HASH
    || (&& |qc.signers| >= QuorumSize(n)
        && qc.hash in chain
        && forall i :: i in qc.signers ==> i < n && Vote(i, qc.hash) in votes)
  }

  predicate MayVote(rules: RuleSet, chain: Chain, syncView: View, locked: Block, block: Block)
    requires WellHashed(chain) && HashLinked(block)
  {
    match rules
    case Simple => SimpleHotStuff.MayVote(chain, syncView, locked, block)
    case Chained => ChainedHotStuff.MayVote(chain, locked, block)
  }

  function Decide(rules: RuleSet, chain: Chain, locked: Block, block: Block): Ruling {
    match rules
    case Simple => SimpleHotStuff.Decide(chain, locked, block)
    case Chained => ChainedHotStuff.Decide(chain, locked, block)
  }

  /** What is executed when `block` is committed on top of `bExec`: the blocks on the way from
      `block` down to the view of `bExec`, oldest first. None when one of them cannot be found. */
  function ToExecute(chain: Chain, bExec: Block, block: Block): Option<seq<Block>>
    requires WellHashed(chain) && HashLinked(block)
    decreases block.hash
  {
    if bExec.view >= block.view then Some([])
    else if block.parent !in chain then None
    else
      match ToExecute(chain, bExec, chain[block.parent])
      case None => None
      case Some(older) => Some(older + [block])
  }

  /** A replica after Commit(block): everything up to `block` executed, or nothing at all. */
  function AfterCommit(chain: Chain, r: Replica, block: Block): Replica
    requires WellHashed(chain) && HashLinked(block)
  {
    match ToExecute(chain, r.bExec, block)
    case None => r
    case Some(blocks) =>
      if blocks == [] then r else r.(bExec := block, executed := r.executed + blocks)
  }

  /** The tests before a proposal is stored. */
  predicate Accepts(rules: RuleSet, n: nat, env: Surroundings, r: Replica, block: Block)
    requires n >= 1 && Storable(env.chain, block)
  {
    && VerifyQuorumCert(n, env.chain, env.votes, block.cert)
    && MayVote(rules, env.chain, env.syncView, r.locked, block)
    && env.accept
  }

  /** `block` can be stored beside `chain`: its hash is not that of another block. */
  predicate Storable(chain: Chain, block: Block) {
    && WellHashed(chain)
    && HashLinked(block)
    && (block.hash in chain ==> chain[block.hash] == block)
  }

  /** The replica after OnPropose(block). */
  function AfterPropose(rules: RuleSet, n: nat, env: Surroundings, r: Replica, block: Block): Replica
    requires n >= 1 && Storable(env.chain, block)
  {
    if !Accepts(rules, n, env, r, block) then r else
      var chain := env.chain[block.hash := block];
      var ruling := Decide(rules, chain, r.locked, block);
      var r1 := r.(locked := ruling.locked);
      var r2 := if ruling.decided.Some?
                then AfterCommit(chain, r1, ruling.decided.value) else r1;
      if Signs(rules, n, env, r, block) then r2.(lastVote := block.view) else r2
  }

  /** The replica after StopVoting(view). */
  function Stopped(r: Replica, view: View): Replica {
    r.(lastVote := if r.lastVote < view then view else r.lastVote)
  }

  /** OnPropose(block) ends in a signature on the block. */
  predicate Signs(rules: RuleSet, n: nat, env: Surroundings, r: Replica, block: Block)
    requires n >= 1 && Storable(env.chain, block)
  {
    Accepts(rules, n, env, r, block) && block.view > r.lastVote && env.signs
  }
}
