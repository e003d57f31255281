/** No two decisions of correct replicas conflict. */
module Agreement {
  import opened HotStuff
  import opened Quorum
  import opened Consensus
  import opened Protocol
  import opened Invariant
  import BlockChain

  /** Following certificates from block `h` leads to block `target`. */
  ghost predicate ExtendsViaQc(blocks: Chain, h: Hash, target: Hash)
    requires WellHashed(blocks)
    decreases h
  {
    h == target || (h in blocks && ExtendsViaQc(blocks, blocks[h].cert.hash, target))
  }

  /** At most one block per view is certified. */
  lemma OneCertifiedPerView(rules: RuleSet, c: Config, s: State, h1: Hash, h2: Hash)
    requires c.Valid() && Inv(rules, c, s) && Certified(c, s, h1) && Certified(c, s, h2)
    requires ViewOf(s, h1) == ViewOf(s, h2)
    ensures h1 == h2
  {
    if h1 == GENESIS_HASH && h2 != GENESIS_HASH {
      CertifiedLink(rules, c, s, h2);
    } else if h2 == GENESIS_HASH && h1 != GENESIS_HASH {
      CertifiedLink(rules, c, s, h1);
    } else if h1 != GENESIS_HASH {
      var i := QuorumIntersection(c, Voters(c.n, s.votes, h1), Voters(c.n, s.votes, h2));
      assert GoodPair(rules, c, s, i, h1, h2);
    }
  }

  /** In every reachable state at most one block per view is certified, and the block that a
      certified block's certificate names is certified and of a smaller view. */
  lemma CertificatesWellOrdered(rules: RuleSet, c: Config, steps: seq<Step>)
    requires c.Valid() && IsRun(rules, c, steps)
    ensures var s := After(rules, c, steps);
            && (forall h1, h2 :: Certified(c, s, h1) && Certified(c, s, h2) && ViewOf(s, h1) == ViewOf(s, h2) ==>
                      h1 == h2)
            && (forall h :: Certified(c, s, h) && h != GENESIS_HASH ==>
                  && h in s.blocks && Qc(s, h) in s.blocks && Certified(c, s, Qc(s, h))
                  && ViewOf(s, Qc(s, h)) < ViewOf(s, h))
  {
    RunKeeps(rules, c, steps);
    var s := After(rules, c, steps);
    forall h1, h2 | Certified(c, s, h1) && Certified(c, s, h2) && ViewOf(s, h1) == ViewOf(s, h2) ensures h1 == h2 {
      OneCertifiedPerView(rules, c, s, h1, h2);
    }
    forall h | Certified(c, s, h) && h != GENESIS_HASH
      ensures h in s.blocks && Qc(s, h) in s.blocks && Certified(c, s, Qc(s, h)) && ViewOf(s, Qc(s, h)) < ViewOf(s, h)
    {
      CertifiedLink(rules, c, s, h);
    }
  }

  /** `p` is certified and certifies, two links down and in consecutive views, the block `g`. */
  ghost predicate Seals(c: Config, s: State, p: Hash, g: Hash)
    requires c.n >= 1
  {
    && Certified(c, s, p) && g in s.blocks
    && Qc(s, Qc(s, p)) == g && ViewOf(s, g) + 2 == ViewOf(s, p)
  }

  ghost predicate Sealed(c: Config, s: State, g: Hash)
    requires c.n >= 1
  {
    g == GENESIS_HASH || exists p :: Seals(c, s, p, g)
  }

  /** The certified blocks are shaped as `Propose` builds them. */
  ghost predicate CertifiedShaped(c: Config, s: State)
    requires c.n >= 1
  {
    forall h :: h in s.blocks && h != GENESIS_HASH && Certified(c, s, h) ==> Shaped(s.blocks[h])
  }

  /** What agreement along certificates needs: nothing of SimpleHotStuff. */
  ghost predicate Follows(rules: RuleSet, c: Config, s: State)
    requires c.n >= 1
  {
    rules == Chained ==> CertifiedShaped(c, s)
  }

  /** A shaped block has nothing on its branch above the block its certificate names. */
  lemma ShapedPasses(blocks: Chain, b: Block, lock: Block)
    requires WellHashed(blocks) && HashLinked(b) && Shaped(b) && b.parent in blocks && BlockChain.Stored(blocks, lock)
    requires b.view > lock.view && BlockChain.Landing(blocks, lock.view, b) == Some(lock.hash)
    ensures blocks[b.parent].view >= lock.view
  {
    assert BlockChain.Landing(blocks, lock.view, blocks[b.parent]) == Some(lock.hash);
  }

  /** Then a certified block that respects a lock certifies a block that is no older. */
  lemma CertifiesNoOlder(rules: RuleSet, c: Config, s: State, h: Hash, view: View)
    requires c.Valid() && Inv(rules, c, s) && Follows(rules, c, s)
    requires Certified(c, s, h) && h != GENESIS_HASH && RespectsLock(rules, c, s, h, view)
    ensures ViewOf(s, Qc(s, h)) >= view
  {
    CertifiedLink(rules, c, s, h);
    if rules == Chained && exists lock :: OnBranch(c, s, h, lock) && ViewOf(s, lock) >= view {
      var lock :| OnBranch(c, s, h, lock) && ViewOf(s, lock) >= view;
      ShapedPasses(s.blocks, s.blocks[h], s.blocks[lock]);
    }
  }

  /** Some correct replica signed both the block that seals and, before it was certified, any certified
      block of a later view, which therefore respects the lock that the seal gave. */
  lemma LaterRespectsSeal(rules: RuleSet, c: Config, s: State, p: Hash, g: Hash, h: Hash)
    requires c.Valid() && Inv(rules, c, s) && Seals(c, s, p, g)
    requires Certified(c, s, h) && ViewOf(s, h) > ViewOf(s, p)
    ensures RespectsLock(rules, c, s, h, ViewOf(s, g))
  {
    assert EarlyQuorum(c, s, h) && h != GENESIS_HASH && p != GENESIS_HASH;
    var i := QuorumIntersection(c, Voters(c.n, s.votes, p), Voters(c.n, s.early, h));
    assert GoodPair(rules, c, s, i, p, h);
  }

  /** No certified block more than two views above `g` has a certificate older than `g`. This is what the
      first branch of ChainedHotStuff's vote rule asks of a proposal once `g` is locked. */
  ghost predicate KeepUp(c: Config, s: State, g: Hash)
    requires c.n >= 1
  {
    forall h :: Certified(c, s, h) && ViewOf(s, h) > ViewOf(s, g) + 2 ==> ViewOf(s, Qc(s, h)) >= ViewOf(s, g)
  }

  /** Every certified block that is not older than `g` extends it. */
  ghost predicate AllExtend(c: Config, s: State, g: Hash)
    requires c.n >= 1 && WellHashed(s.blocks)
  {
    forall h :: Certified(c, s, h) && ViewOf(s, h) >= ViewOf(s, g) ==> ExtendsViaQc(s.blocks, h, g)
  }

  /** Certificates always keep up with a sealed block under SimpleHotStuff, and under ChainedHotStuff if
      certified blocks are shaped. */
  lemma FollowersKeepUp(rules: RuleSet, c: Config, s: State, p: Hash, g: Hash)
    requires c.Valid() && Inv(rules, c, s) && Follows(rules, c, s) && Seals(c, s, p, g)
    ensures KeepUp(c, s, g)
  {
    forall h | Certified(c, s, h) && ViewOf(s, h) > ViewOf(s, g) + 2 ensures ViewOf(s, Qc(s, h)) >= ViewOf(s, g) {
      LaterRespectsSeal(rules, c, s, p, g, h);
      CertifiesNoOlder(rules, c, s, h, ViewOf(s, g));
    }
  }

  lemma {:induction false} SealedIsExtended(rules: RuleSet, c: Config, s: State, p: Hash, g: Hash, h: Hash)
    requires c.Valid() && Inv(rules, c, s) && KeepUp(c, s, g) && Seals(c, s, p, g)
    requires Certified(c, s, h) && ViewOf(s, h) >= ViewOf(s, g)
    ensures ExtendsViaQc(s.blocks, h, g)
    decreases ViewOf(s, h)
  {
    var gp := Qc(s, p);
    assert p != GENESIS_HASH && gp != GENESIS_HASH;
    CertifiedLink(rules, c, s, p);
    CertifiedLink(rules, c, s, gp);
    if ViewOf(s, h) <= ViewOf(s, p) {
      var twin := if ViewOf(s, h) == ViewOf(s, g) then g else if ViewOf(s, h) == ViewOf(s, gp) then gp else p;
      OneCertifiedPerView(rules, c, s, h, twin);
      assert ExtendsViaQc(s.blocks, gp, g);
    } else {
      CertifiedLink(rules, c, s, h);
      SealedIsExtended(rules, c, s, p, g, Qc(s, h));
    }
  }

  lemma {:induction false} EverythingExtendsGenesis(rules: RuleSet, c: Config, s: State, h: Hash)
    requires c.Valid() && Inv(rules, c, s) && Certified(c, s, h)
    ensures ExtendsViaQc(s.blocks, h, GENESIS_HASH)
    decreases h
  {
    if h != GENESIS_HASH {
      CertifiedLink(rules, c, s, h);
      EverythingExtendsGenesis(rules, c, s, Qc(s, h));
    }
  }

  /** Along certificates views never rise. */
  lemma {:induction false} ExtendingIsNoOlder(rules: RuleSet, c: Config, s: State, h: Hash, g: Hash)
    requires c.Valid() && Inv(rules, c, s) && Certified(c, s, h) && ExtendsViaQc(s.blocks, h, g) && g in s.blocks
    ensures ViewOf(s, h) >= ViewOf(s, g)
    decreases h
  {
    if h != g && h != GENESIS_HASH {
      CertifiedLink(rules, c, s, h);
      ExtendingIsNoOlder(rules, c, s, Qc(s, h), g);
    }
  }

  /** All certified blocks that are not older than a sealed block extend it if and only if certificates
      keep up with it. */
  lemma SealedIsFinalExactly(rules: RuleSet, c: Config, s: State, g: Hash)
    requires c.Valid() && Inv(rules, c, s) && Sealed(c, s, g)
    ensures AllExtend(c, s, g) <==> KeepUp(c, s, g)
  {
    SealedIsCertified(rules, c, s, g);
    if KeepUp(c, s, g) {
      forall h | Certified(c, s, h) && ViewOf(s, h) >= ViewOf(s, g) ensures ExtendsViaQc(s.blocks, h, g) {
        if g == GENESIS_HASH {
          EverythingExtendsGenesis(rules, c, s, h);
        } else {
          var p :| Seals(c, s, p, g);
          SealedIsExtended(rules, c, s, p, g, h);
        }
      }
    }
    if AllExtend(c, s, g) {
      forall h | Certified(c, s, h) && ViewOf(s, h) > ViewOf(s, g) + 2 ensures ViewOf(s, Qc(s, h)) >= ViewOf(s, g) {
        CertifiedLink(rules, c, s, h);
        assert h != g && ExtendsViaQc(s.blocks, Qc(s, h), g);
        ExtendingIsNoOlder(rules, c, s, Qc(s, h), g);
      }
    }
  }

  /** Every certified block that is not older than a sealed block extends it, if blocks follow. */
  lemma SealedIsFinal(rules: RuleSet, c: Config, s: State, g: Hash)
    requires c.Valid() && Inv(rules, c, s) && Follows(rules, c, s) && Sealed(c, s, g)
    ensures KeepUp(c, s, g) && AllExtend(c, s, g)
  {
    if g != GENESIS_HASH {
      var p :| Seals(c, s, p, g);
      FollowersKeepUp(rules, c, s, p, g);
    }
    SealedIsFinalExactly(rules, c, s, g);
  }

  lemma SealedIsCertified(rules: RuleSet, c: Config, s: State, g: Hash)
    requires c.Valid() && Inv(rules, c, s) && Sealed(c, s, g)
    ensures Certified(c, s, g) && g in s.blocks
  {
    if g != GENESIS_HASH {
      var p :| Seals(c, s, p, g);
      CertifiedLink(rules, c, s, p);
      CertifiedLink(rules, c, s, Qc(s, p));
    }
  }

  // ---------------------------------------------------------------- branches

  /** Walking down parent links, every certified block's branch comes by the block its certificate
      names, or misses a block before. Shaped blocks do. */
  ghost predicate CertifiedLand(c: Config, s: State)
    requires c.n >= 1
  {
    WellHashed(s.blocks) && forall h :: h in s.blocks && h != GENESIS_HASH && Certified(c, s, h) ==> LandsOnQc(s, h)
  }

  ghost predicate LandsOnQc(s: State, h: Hash)
    requires WellHashed(s.blocks) && h in s.blocks
  {
    Qc(s, h) in s.blocks ==> BlockChain.Lands(s.blocks, s.blocks[Qc(s, h)], s.blocks[h])
  }

  lemma ShapedLands(blocks: Chain, b: Block)
    requires WellHashed(blocks) && HashLinked(b) && Shaped(b)
    ensures b.parent in blocks && blocks[b.parent].view < b.view ==> BlockChain.Lands(blocks, blocks[b.parent], b)
  {
  }

  lemma ShapedLand(rules: RuleSet, c: Config, s: State)
    requires c.Valid() && Inv(rules, c, s) && CertifiedShaped(c, s)
    ensures CertifiedLand(c, s)
  {
    forall h | h in s.blocks && h != GENESIS_HASH && Certified(c, s, h) ensures LandsOnQc(s, h) {
      CertifiedLink(rules, c, s, h);
      ShapedLands(s.blocks, s.blocks[h]);
    }
  }

  /** Then the branch of every certified block that is not older than a sealed one comes by it, with
      either vote rule. */
  lemma {:induction false} SealedLands(rules: RuleSet, c: Config, s: State, p: Hash, g: Hash, h: Hash)
    requires c.Valid() && Inv(rules, c, s) && CertifiedLand(c, s) && Seals(c, s, p, g)
    requires Certified(c, s, h) && ViewOf(s, h) >= ViewOf(s, g)
    ensures h in s.blocks && BlockChain.Lands(s.blocks, s.blocks[g], s.blocks[h])
    decreases ViewOf(s, h)
  {
    CertifiedIsBuilt(rules, c, s, h);
    if ViewOf(s, h) == ViewOf(s, g) {
      CertifiedLink(rules, c, s, p);
      CertifiedLink(rules, c, s, Qc(s, p));
      OneCertifiedPerView(rules, c, s, h, g);
    } else {
      CertifiedLink(rules, c, s, h);
      var next := LowerOnBranch(rules, c, s, p, g, h);
      SealedLands(rules, c, s, p, g, next);
      BlockChain.LandsOn(s.blocks, s.blocks[g], s.blocks[next], s.blocks[h]);
    }
  }

  /** The block that `h` certifies, or the lock it extends. */
  lemma LowerOnBranch(rules: RuleSet, c: Config, s: State, p: Hash, g: Hash, h: Hash) returns (next: Hash)
    requires c.Valid() && Inv(rules, c, s) && CertifiedLand(c, s) && Seals(c, s, p, g)
    requires Certified(c, s, h) && h in s.blocks && h != GENESIS_HASH && ViewOf(s, h) > ViewOf(s, g)
    ensures Certified(c, s, next) && next in s.blocks && ViewOf(s, g) <= ViewOf(s, next) < ViewOf(s, h)
    ensures BlockChain.Lands(s.blocks, s.blocks[next], s.blocks[h])
  {
    CertifiedLink(rules, c, s, h);
    assert LandsOnQc(s, h);
    next := Qc(s, h);
    if ViewOf(s, next) < ViewOf(s, g) {
      if ViewOf(s, h) > ViewOf(s, p) {
        LaterRespectsSeal(rules, c, s, p, g, h);
        next :| OnBranch(c, s, h, next) && ViewOf(s, next) >= ViewOf(s, g);
      } else {
        CertifiedLink(rules, c, s, p);
        CertifiedLink(rules, c, s, Qc(s, p));
        OneCertifiedPerView(rules, c, s, h, if ViewOf(s, h) == ViewOf(s, p) then p else Qc(s, p));
        assert false;
      }
    }
  }

  /** The walk down from a certified block ends at genesis, or misses a block. */
  lemma {:induction false} CertifiedIsRooted(rules: RuleSet, c: Config, s: State, h: Hash)
    requires c.Valid() && Inv(rules, c, s) && CertifiedLand(c, s) && Certified(c, s, h)
    ensures h in s.blocks && BlockChain.Lands(s.blocks, GENESIS, s.blocks[h])
    decreases ViewOf(s, h)
  {
    CertifiedIsBuilt(rules, c, s, h);
    if h != GENESIS_HASH {
      CertifiedLink(rules, c, s, h);
      CertifiedIsRooted(rules, c, s, Qc(s, h));
      assert LandsOnQc(s, h);
      BlockChain.LandsOn(s.blocks, GENESIS, s.blocks[Qc(s, h)], s.blocks[h]);
    }
  }

  lemma SealedLandsAll(rules: RuleSet, c: Config, s: State, g: Hash, h: Hash)
    requires c.Valid() && Inv(rules, c, s) && CertifiedLand(c, s) && Sealed(c, s, g)
    requires Certified(c, s, h) && ViewOf(s, h) >= ViewOf(s, g)
    ensures g in s.blocks && h in s.blocks && BlockChain.Lands(s.blocks, s.blocks[g], s.blocks[h])
  {
    if g == GENESIS_HASH {
      CertifiedIsRooted(rules, c, s, h);
    } else {
      var p :| Seals(c, s, p, g);
      SealedLands(rules, c, s, p, g, h);
    }
  }

  // ---------------------------------------------------------------- from decisions to seals

  /** The block that CommitRule returns in this step, if any, lies two views below the block that
      the proposal certifies: the three-chain has consecutive views. */
  ghost predicate Consecutive(rules: RuleSet, c: Config, s: State, step: Step)
    requires c.n >= 1 && Enabled(c, s, step)
  {
    var decided := Decided(rules, c, s, step);
    decided.Some? ==> ViewOf(s, Qc(s, step.block.hash)) == decided.value.view + 2
  }

  /** The rule of SimpleHotStuff tests just that. */
  lemma SimpleIsConsecutive(c: Config, s: State, step: Step)
    requires c.Valid() && Enabled(c, s, step)
    ensures Consecutive(Simple, c, s, step)
  {
  }

  /** Either rule returns the block three certificates below the proposal. */
  lemma DecidesThird(rules: RuleSet, chain: Chain, locked: Block, b: Block)
    requires WellHashed(chain) && Decide(rules, chain, locked, b).decided.Some?
    ensures b.cert.hash in chain && chain[b.cert.hash].cert.hash in chain
    ensures var g := chain[chain[b.cert.hash].cert.hash].cert.hash;
            g in chain && Decide(rules, chain, locked, b).decided.value == chain[g]
  {
  }

  lemma DecisionIsSealed(rules: RuleSet, c: Config, s: State, step: Step)
    requires c.Valid() && Inv(rules, c, s) && Enabled(c, s, step)
    requires Decided(rules, c, s, step).Some? && Consecutive(rules, c, s, step)
    ensures var g := Decided(rules, c, s, step).value;
            g.hash in s.blocks && s.blocks[g.hash] == g && Sealed(c, s, g.hash)
  {
    var b := step.block;
    var p := b.cert.hash;
    DecidesThird(rules, step.chain[b.hash := b], s.replicas[step.id].locked, b);
    CertificateHolds(rules, c, s, step.chain, b.cert);
    assert p != GENESIS_HASH;
    CertifiedLink(rules, c, s, p);
    var gp := Qc(s, p);
    assert gp != GENESIS_HASH;
    CertifiedLink(rules, c, s, gp);
    assert Seals(c, s, p, Qc(s, gp));
  }

  // ---------------------------------------------------------------- runs only add

  lemma SealedStays(rules: RuleSet, c: Config, s: State, s': State, g: Hash)
    requires c.Valid() && Inv(rules, c, s) && Grows(s, s') && Sealed(c, s, g)
    ensures Sealed(c, s', g)
  {
    if g != GENESIS_HASH {
      var p :| Seals(c, s, p, g);
      CertifiedLink(rules, c, s, p);
      VotersGrow(c.n, s.votes, s'.votes, p);
      assert Seals(c, s', p, g);
    }
  }

  lemma StepGrows(rules: RuleSet, c: Config, s: State, step: Step)
    requires c.n >= 1 && Enabled(c, s, step)
    ensures Grows(s, Apply(rules, c, s, step))
  {
  }

  lemma {:induction false} RunPrefix(rules: RuleSet, c: Config, steps: seq<Step>, k: nat)
    requires c.n >= 1 && IsRun(rules, c, steps) && k <= |steps|
    ensures IsRun(rules, c, steps[..k])
    ensures k < |steps| ==> Enabled(c, After(rules, c, steps[..k]), steps[k])
    ensures Grows(After(rules, c, steps[..k]), After(rules, c, steps))
    decreases |steps|
  {
    if k == |steps| {
      assert steps[..k] == steps;
    } else {
      var before := steps[..|steps| - 1];
      RunPrefix(rules, c, before, k);
      assert before[..k] == steps[..k];
      StepGrows(rules, c, After(rules, c, before), steps[|steps| - 1]);
    }
  }

  // ---------------------------------------------------------------- the theorems

  /** Step `k` can be taken after the first `k` steps. */
  ghost predicate TakenAt(rules: RuleSet, c: Config, steps: seq<Step>, k: nat)
    requires c.n >= 1
  {
    k < |steps| && IsRun(rules, c, steps[..k]) && Enabled(c, After(rules, c, steps[..k]), steps[k])
  }

  /** The block that CommitRule returns in step `k`, if any. */
  ghost function DecidedAt(rules: RuleSet, c: Config, steps: seq<Step>, k: nat): Option<Block>
    requires c.n >= 1 && TakenAt(rules, c, steps, k)
  {
    Decided(rules, c, After(rules, c, steps[..k]), steps[k])
  }

  /** If step `k` decides, it decides from consecutive views. */
  ghost predicate ConsecutiveAt(rules: RuleSet, c: Config, steps: seq<Step>, k: nat)
    requires c.n >= 1 && TakenAt(rules, c, steps, k)
  {
    Consecutive(rules, c, After(rules, c, steps[..k]), steps[k])
  }

  /** The decision, if any, taken at step `k` is extended, at the end of the run, by every certified
      block that is not older. */
  ghost predicate FinalAt(rules: RuleSet, c: Config, steps: seq<Step>, k: nat)
    requires c.Valid() && IsRun(rules, c, steps) && k < |steps|
  {
    var s' := After(rules, c, steps);
    && TakenAt(rules, c, steps, k) && WellHashed(s'.blocks)
    && var decided := DecidedAt(rules, c, steps, k);
       decided.Some? ==>
         && BlockChain.Stored(s'.blocks, decided.value) && Certified(c, s', decided.value.hash)
         && AllExtend(c, s', decided.value.hash)
  }

  /** At the end of the run certificates keep up with the decision, if any, taken at step `k`. */
  ghost predicate KeptUpAt(rules: RuleSet, c: Config, steps: seq<Step>, k: nat)
    requires c.n >= 1 && IsRun(rules, c, steps) && TakenAt(rules, c, steps, k)
  {
    var decided := DecidedAt(rules, c, steps, k);
    decided.Some? ==> KeepUp(c, After(rules, c, steps), decided.value.hash)
  }

  lemma DecisionStaysSealed(rules: RuleSet, c: Config, steps: seq<Step>, k: nat)
    requires c.Valid() && IsRun(rules, c, steps) && TakenAt(rules, c, steps, k) && ConsecutiveAt(rules, c, steps, k)
    requires DecidedAt(rules, c, steps, k).Some?
    ensures var g, s' := DecidedAt(rules, c, steps, k).value, After(rules, c, steps);
            && Inv(rules, c, s') && Sealed(c, s', g.hash) && Certified(c, s', g.hash)
            && g.hash in s'.blocks && s'.blocks[g.hash] == g
  {
    RunPrefix(rules, c, steps, k);
    RunKeeps(rules, c, steps[..k]);
    RunKeeps(rules, c, steps);
    var s, s' := After(rules, c, steps[..k]), After(rules, c, steps);
    DecisionIsSealed(rules, c, s, steps[k]);
    var g := DecidedAt(rules, c, steps, k).value;
    SealedStays(rules, c, s, s', g.hash);
    SealedIsCertified(rules, c, s', g.hash);
  }

  /** A decision from consecutive views is final if and only if certificates keep up with it, in every
      run of either rule set. */
  lemma DecisionIsFinalExactly(rules: RuleSet, c: Config, steps: seq<Step>, k: nat)
    requires c.Valid() && IsRun(rules, c, steps) && TakenAt(rules, c, steps, k) && ConsecutiveAt(rules, c, steps, k)
    ensures FinalAt(rules, c, steps, k) <==> KeptUpAt(rules, c, steps, k)
  {
    RunKeeps(rules, c, steps);
    if DecidedAt(rules, c, steps, k).Some? {
      DecisionStaysSealed(rules, c, steps, k);
      SealedIsFinalExactly(rules, c, After(rules, c, steps), DecidedAt(rules, c, steps, k).value.hash);
    }
  }

  /** Agreement for SimpleHotStuff, in every run: whenever a correct replica's CommitRule returned
      a block, every certified block of at least that view extends it. */
  lemma SimpleAgreement(c: Config, steps: seq<Step>, k: nat)
    requires c.Valid() && IsRun(Simple, c, steps) && k < |steps|
    ensures FinalAt(Simple, c, steps, k)
  {
    RunPrefix(Simple, c, steps, k);
    SimpleIsConsecutive(c, After(Simple, c, steps[..k]), steps[k]);
    ShapedAgreement(Simple, c, steps, k);
  }

  /** For decisions from consecutive views, certified blocks shaped as `Propose` builds them suffice. */
  lemma ShapedAgreement(rules: RuleSet, c: Config, steps: seq<Step>, k: nat)
    requires c.Valid() && IsRun(rules, c, steps) && TakenAt(rules, c, steps, k) && ConsecutiveAt(rules, c, steps, k)
    requires Follows(rules, c, After(rules, c, steps))
    ensures FinalAt(rules, c, steps, k) && KeptUpAt(rules, c, steps, k)
  {
    RunKeeps(rules, c, steps);
    if DecidedAt(rules, c, steps, k).Some? {
      DecisionStaysSealed(rules, c, steps, k);
      SealedIsFinal(rules, c, After(rules, c, steps), DecidedAt(rules, c, steps, k).value.hash);
    }
  }

  /** Agreement for ChainedHotStuff, for decisions taken from three consecutive views: exactly when no
      certified block more than two views above the decision has a certificate older than it, and so
      whenever the certified blocks are shaped as `Propose` builds them. */
  lemma ChainedAgreement(c: Config, steps: seq<Step>, k: nat)
    requires c.Valid() && IsRun(Chained, c, steps) && TakenAt(Chained, c, steps, k)
    requires ConsecutiveAt(Chained, c, steps, k)
    ensures FinalAt(Chained, c, steps, k) <==> KeptUpAt(Chained, c, steps, k)
    ensures CertifiedShaped(c, After(Chained, c, steps)) ==> FinalAt(Chained, c, steps, k)
  {
    DecisionIsFinalExactly(Chained, c, steps, k);
    if CertifiedShaped(c, After(Chained, c, steps)) {
      ShapedAgreement(Chained, c, steps, k);
    }
  }

  /** Agreement along parent links, which are what Commit follows, for either rule set: if the branch of
      every certified block comes by the block its certificate names, the branch of every certified
      block that is not older than a decision comes by the decision. */
  lemma BranchAgreement(rules: RuleSet, c: Config, steps: seq<Step>, k: nat, h: Hash)
    requires c.Valid() && IsRun(rules, c, steps) && TakenAt(rules, c, steps, k) && ConsecutiveAt(rules, c, steps, k)
    requires CertifiedLand(c, After(rules, c, steps))
    ensures var s', decided := After(rules, c, steps), DecidedAt(rules, c, steps, k);
            decided.Some? && Certified(c, s', h) && ViewOf(s', h) >= decided.value.view ==>
              && decided.value.hash in s'.blocks && s'.blocks[decided.value.hash] == decided.value
              && h in s'.blocks && BlockChain.Lands(s'.blocks, decided.value, s'.blocks[h])
  {
    var s', decided := After(rules, c, steps), DecidedAt(rules, c, steps, k);
    if decided.Some? && Certified(c, s', h) && ViewOf(s', h) >= decided.value.view {
      DecisionStaysSealed(rules, c, steps, k);
      SealedLandsAll(rules, c, s', decided.value.hash, h);
    }
  }

  /** Of two final decisions one extends the other. */
  lemma FinalDecisionsAgree(rules: RuleSet, c: Config, steps: seq<Step>, k1: nat, k2: nat)
    requires c.Valid() && IsRun(rules, c, steps) && k1 < |steps| && k2 < |steps|
    requires FinalAt(rules, c, steps, k1) && FinalAt(rules, c, steps, k2)
    ensures OneExtendsOther(rules, c, steps, k1, k2)
  {
  }

  /** Of the decisions, if any, taken at two steps one extends the other. */
  ghost predicate OneExtendsOther(rules: RuleSet, c: Config, steps: seq<Step>, k1: nat, k2: nat)
    requires c.n >= 1 && IsRun(rules, c, steps)
  {
    && TakenAt(rules, c, steps, k1) && TakenAt(rules, c, steps, k2) && WellHashed(After(rules, c, steps).blocks)
    && var d1, d2 := DecidedAt(rules, c, steps, k1), DecidedAt(rules, c, steps, k2);
       var blocks := After(rules, c, steps).blocks;
       d1.Some? && d2.Some? ==>
         || ExtendsViaQc(blocks, d1.value.hash, d2.value.hash)
         || ExtendsViaQc(blocks, d2.value.hash, d1.value.hash)
  }

  /** Two decisions of correct SimpleHotStuff replicas never conflict. */
  lemma DecisionsAgree(c: Config, steps: seq<Step>, k1: nat, k2: nat)
    requires c.Valid() && IsRun(Simple, c, steps) && k1 < |steps| && k2 < |steps|
    ensures OneExtendsOther(Simple, c, steps, k1, k2)
  {
    SimpleAgreement(c, steps, k1);
    SimpleAgreement(c, steps, k2);
    FinalDecisionsAgree(Simple, c, steps, k1, k2);
  }

  /** Nor do two decisions of correct ChainedHotStuff replicas from consecutive views that certificates
      keep up with; it is enough that they keep up with the older one. */
  lemma ChainedDecisionsAgree(c: Config, steps: seq<Step>, k1: nat, k2: nat)
    requires c.Valid() && IsRun(Chained, c, steps) && TakenAt(Chained, c, steps, k1) && TakenAt(Chained, c, steps, k2)
    requires ConsecutiveAt(Chained, c, steps, k1) && ConsecutiveAt(Chained, c, steps, k2)
    requires var d1, d2 := DecidedAt(Chained, c, steps, k1), DecidedAt(Chained, c, steps, k2);
             d1.Some? && d2.Some? ==> KeptUpAt(Chained, c, steps, if d1.value.view <= d2.value.view then k1 else k2)
    ensures OneExtendsOther(Chained, c, steps, k1, k2)
  {
    RunKeeps(Chained, c, steps);
    var d1, d2 := DecidedAt(Chained, c, steps, k1), DecidedAt(Chained, c, steps, k2);
    if d1.Some? && d2.Some? {
      DecisionStaysSealed(Chained, c, steps, k1);
      DecisionStaysSealed(Chained, c, steps, k2);
      ChainedAgreement(c, steps, if d1.value.view <= d2.value.view then k1 else k2);
    }
  }
}
