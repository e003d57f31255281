/** The pipelined three-chain rules. */
module ChainedHotStuff {
  import opened HotStuff
  import BlockChain

  function QcRef(chain: Chain, qc: QuorumCert): Option<Block> {
    if qc.hash == NO_HASH then None else Get(chain, qc.hash)
  }

  predicate MayVote(chain: Chain, bLock: Block, block: Block)
    requires WellHashed(chain) && HashLinked(block)
  {
    var qcBlock := Get(chain, block.cert.hash);
    (qcBlock.Some? && qcBlock.value.view > bLock.view) || BlockChain.Extends(chain, block, bLock)
  }

  function Decide(chain: Chain, bLock: Block, block: Block): Ruling {
    match QcRef(chain, block.cert)
    case None => Ruling(bLock, None)
    case Some(block1) =>
      match QcRef(chain, block1.cert)
      case None => Ruling(bLock, None)
      case Some(block2) =>
        var bLock' := if block2.view > bLock.view then block2 else bLock;
        match QcRef(chain, block2.cert)
        case None => Ruling(bLock', None)
        case Some(block3) =>
          if block1.parent == block2.hash && block2.parent == block3.hash
          then Ruling(bLock', Some(block3))
          else Ruling(bLock', None)
  }

  class Rules {
    var bLock: Block

    constructor ()
      ensures bLock == GENESIS
    {
      bLock := GENESIS;
    }

    method VoteRule(chain: Chain, block: Block) returns (safe: bool)
      requires WellHashed(chain) && HashLinked(block)
      ensures safe == MayVote(chain, bLock, block)
      ensures safe <==>
              || (block.cert.hash in chain && chain[block.cert.hash].view > bLock.view)
              || BlockChain.Landing(chain, bLock.view, block) == Some(bLock.hash)
    {
      BlockChain.ExtendsIsLanding(chain, block, bLock);
      var qcBlock := Get(chain, block.cert.hash);
      safe := false;
      if qcBlock.Some? && qcBlock.value.view > bLock.view {
        safe := true;
      } else {
        var extending := BlockChain.WalkToTarget(chain, block, bLock);
        if extending {
          safe := true;
        }
      }
    }

    method CommitRule(chain: Chain, block: Block) returns (decided: Option<Block>)
      requires WellHashed(chain)
      modifies this
      ensures Ruling(bLock, decided) == Decide(chain, old(bLock), block)
      ensures decided.Some? <==>
              && block.cert.hash in chain
              && var block1 := chain[block.cert.hash];
                 && block1.cert.hash in chain && block1.parent == block1.cert.hash
                 && var block2 := chain[block1.cert.hash];
                    block2.cert.hash in chain && block2.parent == block2.cert.hash
      ensures decided.Some? ==> decided.value == chain[chain[chain[block.cert.hash].cert.hash].cert.hash]
      ensures bLock ==
              if block.cert.hash in chain && chain[block.cert.hash].cert.hash in chain
                 && chain[chain[block.cert.hash].cert.hash].view > old(bLock).view
              then chain[chain[block.cert.hash].cert.hash] else old(bLock)
    {
      var block1 := QcRef(chain, block.cert);
      if block1.None? {
        return None;
      }
      var block2 := QcRef(chain, block1.value.cert);
      if block2.None? {
        return None;
      }
      if block2.value.view > bLock.view {
        bLock := block2.value;
      }
      var block3 := QcRef(chain, block2.value.cert);
      if block3.None? {
        return None;
      }
      if block1.value.parent == block2.value.hash && block2.value.parent == block3.value.hash {
        return block3;
      }
      return None;
    }
  }
}
