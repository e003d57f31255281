/** The simplified three-chain rules. */
module SimpleHotStuff {
  import opened HotStuff

  predicate MayVote(chain: Chain, syncView: View, locked: Block, block: Block) {
    block.view >= syncView &&
    match Get(chain, block.cert.hash)
    case None => false
    case Some(parent) => parent.view >= locked.view
  }

  function Decide(chain: Chain, locked: Block, block: Block): Ruling {
    match Get(chain, block.cert.hash)
    case None => Ruling(locked, None)
    case Some(p) =>
      match Get(chain, p.cert.hash)
      case None => Ruling(locked, None)
      case Some(gp) =>
        var locked' := if gp.view > locked.view then gp else locked;
        match Get(chain, gp.cert.hash)
        case None => Ruling(locked', None)
        case Some(ggp) => Ruling(locked', if ggp.view + 2 == p.view then Some(ggp) else None)
  }

  class Rules {
    var locked: Block

    constructor ()
      ensures locked == GENESIS
    {
      locked := GENESIS;
    }

    /** `chain` is what the block chain can find, `syncView` the synchronizer's view. */
    method VoteRule(chain: Chain, syncView: View, block: Block) returns (ok: bool)
      ensures ok == MayVote(chain, syncView, locked, block)
      ensures ok <==>
              block.view >= syncView && block.cert.hash in chain && chain[block.cert.hash].view >= locked.view
    {
      if block.view < syncView {
        return false;
      }
      var parent := Get(chain, block.cert.hash);
      if parent.None? {
        return false;
      }
      if parent.value.view < locked.view {
        return false;
      }
      return true;
    }

    method CommitRule(chain: Chain, block: Block) returns (decided: Option<Block>)
      modifies this
      ensures Ruling(locked, decided) == Decide(chain, old(locked), block)
      ensures decided.Some? <==>
              && block.cert.hash in chain
              && var p := chain[block.cert.hash];
                 && p.cert.hash in chain
                 && var gp := chain[p.cert.hash];
                    gp.cert.hash in chain && chain[gp.cert.hash].view + 2 == p.view
      ensures decided.Some? ==> decided.value == chain[chain[chain[block.cert.hash].cert.hash].cert.hash]
      ensures locked ==
              if block.cert.hash in chain && chain[block.cert.hash].cert.hash in chain
                 && chain[chain[block.cert.hash].cert.hash].view > old(locked).view
              then chain[chain[block.cert.hash].cert.hash] else old(locked)
    {
      var p := Get(chain, block.cert.hash);
      if p.None? {
        return None;
      }
      var gp := Get(chain, p.value.cert.hash);
      if gp.Some? && gp.value.view > locked.view {
        locked := gp.value;
      } else if gp.None? {
        return None;
      }
      var ggp := Get(chain, gp.value.cert.hash);
      if ggp.Some? && ggp.value.view + 2 == p.value.view {
        return Some(ggp.value);
      }
      return None;
    }
  }
}
