/** Runs in which a quorum of replicas signs one block after another. */
module Rounds {
  import opened HotStuff
  import opened Quorum
  import opened Consensus
  import opened Protocol
  import opened Agreement
  import BlockChain

  /** Any blocks can be built. */
  lemma {:induction false} BuildAll(rules: RuleSet, c: Config, blocks: Chain) returns (steps: seq<Step>)
    requires c.n >= 1 && WellHashed(blocks)
    ensures IsRun(rules, c, steps) && After(rules, c, steps) == Init(c).(blocks := blocks)
    decreases |blocks|
  {
    if blocks.Keys == {GENESIS_HASH} {
      assert blocks == map[GENESIS_HASH := GENESIS];
      steps := [];
    } else {
      var h :| h in blocks && h != GENESIS_HASH;
      var fewer := blocks - {h};
      var before := BuildAll(rules, c, fewer);
      OneMore(rules, c, before, Build(blocks[h]));
      assert fewer[h := blocks[h]] == blocks;
      steps := before + [Build(blocks[h])];
    }
  }

  /** The replica after accepting and signing `b`. */
  function Then(rules: RuleSet, blocks: Chain, r: Replica, b: Block): (r': Replica)
    requires WellHashed(blocks)
    ensures r'.lastVote == b.view && r'.locked == Decide(rules, blocks, r.locked, b).locked
  {
    var ruling := Decide(rules, blocks, r.locked, b);
    var r1 := r.(locked := ruling.locked, lastVote := b.view);
    if ruling.decided.Some? then AfterCommit(blocks, r1, ruling.decided.value) else r1
  }

  lemma Signed(rules: RuleSet, n: nat, blocks: Chain, env: Surroundings, r: Replica, b: Block)
    requires n >= 1 && WellHashed(blocks) && BlockChain.Stored(blocks, b)
    requires env.chain == blocks && env.accept && env.signs && b.view > r.lastVote
    requires VerifyQuorumCert(n, blocks, env.votes, b.cert) && MayVote(rules, blocks, env.syncView, r.locked, b)
    ensures Accepts(rules, n, env, r, b) && Signs(rules, n, env, r, b)
    ensures AfterPropose(rules, n, env, r, b) == Then(rules, blocks, r, b)
  {
    assert blocks[b.hash := b] == blocks;
  }

  /** Step `k` handles `b` where the blocks are `blocks`, and CommitRule returns `decided`. */
  ghost predicate Handles(rules: RuleSet, c: Config, steps: seq<Step>, k: nat, blocks: Chain, b: Block,
          decided: Option<Block>)
    requires c.n >= 1
  {
    && TakenAt(rules, c, steps, k) && steps[k].Propose? && steps[k].block == b
    && After(rules, c, steps[..k]).blocks == blocks && DecidedAt(rules, c, steps, k) == decided
  }

  lemma StillHandles(rules: RuleSet, c: Config, steps: seq<Step>, more: seq<Step>, k: nat, blocks: Chain, b: Block,
          decided: Option<Block>)
    requires c.n >= 1 && Handles(rules, c, steps, k, blocks, b, decided) && steps <= more
    ensures Handles(rules, c, more, k, blocks, b, decided)
  {
    assert more[..k] == steps[..k];
  }

  /** A correct replica that can find all blocks signs `b`. */
  lemma Sign(rules: RuleSet, c: Config, steps: seq<Step>, i: ID, b: Block) returns (more: seq<Step>)
    requires c.n >= 1 && IsRun(rules, c, steps) && c.Honest(i) && i < |After(rules, c, steps).replicas|
    requires var s := After(rules, c, steps);
             && WellHashed(s.blocks) && BlockChain.Stored(s.blocks, b)
             && VerifyQuorumCert(c.n, s.blocks, s.votes, b.cert)
             && MayVote(rules, s.blocks, 0, s.replicas[i].locked, b) && b.view > s.replicas[i].lastVote
    ensures IsRun(rules, c, more) && steps <= more && |more| == |steps| + 1
    ensures var s, s' := After(rules, c, steps), After(rules, c, more);
            && s'.blocks == s.blocks && s'.votes == s.votes + {Vote(i, b.hash)}
            && s'.replicas == s.replicas[i := Then(rules, s.blocks, s.replicas[i], b)]
            && Handles(rules, c, more, |steps|, s.blocks, b,
                    Decide(rules, s.blocks, s.replicas[i].locked, b).decided)
  {
    var s := After(rules, c, steps);
    var step := Propose(i, s.blocks, 0, true, true, b);
    Signed(rules, c.n, s.blocks, Env(s, step), s.replicas[i], b);
    OneMore(rules, c, steps, step);
    more := steps + [step];
    assert more[..|steps|] == steps;
    assert s.blocks[b.hash := b] == s.blocks;
  }

  lemma SignFaulty(rules: RuleSet, c: Config, steps: seq<Step>, i: ID, h: Hash) returns (more: seq<Step>)
    requires c.n >= 1 && IsRun(rules, c, steps) && i in c.byz
    ensures IsRun(rules, c, more) && steps <= more
    ensures var s, s' := After(rules, c, steps), After(rules, c, more);
            s'.blocks == s.blocks && s'.votes == s.votes + {Vote(i, h)} && s'.replicas == s.replicas
  {
    OneMore(rules, c, steps, FaultyVote(i, h));
    more := steps + [FaultyVote(i, h)];
  }

  // ---------------------------------------------------------------- rounds

  function Votes(signers: set<ID>, hashes: set<Hash>): set<Vote> {
    set i, h | i in signers && h in hashes :: Vote(i, h)
  }

  /** All blocks have been built, and the replicas `signers`, a quorum, sign one after another. */
  datatype Scene = Scene(rules: RuleSet, c: Config, blocks: Chain, signers: set<ID>) {
    ghost predicate Valid() {
      c.Valid() && WellHashed(blocks) && signers <= c.Replicas() && |signers| >= QuorumSize(c.n)
    }

    /** The signers have signed the blocks `hashes`, and the correct ones among them stand as `r`. The
        other correct replicas have done nothing. */
    ghost predicate At(steps: seq<Step>, hashes: set<Hash>, r: Replica)
      requires Valid()
    {
      && IsRun(rules, c, steps)
      && var s := After(rules, c, steps);
         && s.blocks == blocks && s.votes == Votes(signers, hashes) && |s.replicas| == c.n
         && forall i :: 0 <= i < c.n ==> s.replicas[i] == if i in signers && c.Honest(i) then r else NEW_REPLICA
    }

    /** The signers `todo` have not handled `b` yet, the others have. */
    ghost predicate Midway(steps: seq<Step>, hashes: set<Hash>, r: Replica, b: Block, todo: set<ID>)
      requires Valid()
    {
      && IsRun(rules, c, steps) && todo <= signers
      && var s := After(rules, c, steps);
         && s.blocks == blocks && |s.replicas| == c.n
         && s.votes == Votes(signers, hashes) + Votes(signers - todo, {b.hash})
         && forall i :: 0 <= i < c.n ==> s.replicas[i] == Standing(r, b, todo, i)
    }

    ghost function Standing(r: Replica, b: Block, todo: set<ID>, i: ID): Replica
      requires Valid()
    {
      if i !in signers || !c.Honest(i) then NEW_REPLICA else if i in todo then r else Then(rules, blocks, r, b)
    }

    /** The signers may sign `b` next. */
    ghost predicate Next(hashes: set<Hash>, r: Replica, b: Block)
      requires Valid()
    {
      && BlockChain.Stored(blocks, b) && b.view > r.lastVote && MayVote(rules, blocks, 0, r.locked, b)
      && (b.cert.hash == GENESIS_HASH
          || (b.cert.hash in blocks && b.cert.hash in hashes && b.cert.signers == signers))
    }
  }

  lemma Begin(sc: Scene) returns (steps: seq<Step>)
    requires sc.Valid()
    ensures sc.At(steps, {}, NEW_REPLICA)
  {
    steps := BuildAll(sc.rules, sc.c, sc.blocks);
  }

  lemma CertificateVerifies(sc: Scene, hashes: set<Hash>, r: Replica, b: Block, votes: set<Vote>)
    requires sc.Valid() && sc.Next(hashes, r, b) && Votes(sc.signers, hashes) <= votes
    ensures VerifyQuorumCert(sc.c.n, sc.blocks, votes, b.cert)
  {
    if b.cert.hash != GENESIS_HASH {
      forall i | i in sc.signers ensures i < sc.c.n && Vote(i, b.cert.hash) in votes {
        assert Vote(i, b.cert.hash) in Votes(sc.signers, hashes);
      }
    }
  }

  lemma VotesAdd(signers: set<ID>, todo: set<ID>, i: ID, h: Hash)
    requires i in todo && todo <= signers
    ensures Votes(signers - todo, {h}) + {Vote(i, h)} == Votes(signers - (todo - {i}), {h})
  {
  }

  /** One of the signers handles `b`. */
  lemma TakeOne(sc: Scene, steps: seq<Step>, hashes: set<Hash>, r: Replica, b: Block, todo: set<ID>, i: ID)
      returns (more: seq<Step>)
    requires sc.Valid() && sc.Midway(steps, hashes, r, b, todo) && sc.Next(hashes, r, b) && i in todo
    ensures sc.Midway(more, hashes, r, b, todo - {i}) && steps <= more
    ensures sc.c.Honest(i) ==>
              Handles(sc.rules, sc.c, more, |steps|, sc.blocks, b, Decide(sc.rules, sc.blocks, r.locked, b).decided)
  {
    VotesAdd(sc.signers, todo, i, b.hash);
    if sc.c.Honest(i) {
      CertificateVerifies(sc, hashes, r, b, After(sc.rules, sc.c, steps).votes);
      more := Sign(sc.rules, sc.c, steps, i, b);
    } else {
      more := SignFaulty(sc.rules, sc.c, steps, i, b.hash);
    }
    Fewer(sc, hashes, r, b, todo, i, After(sc.rules, sc.c, steps), After(sc.rules, sc.c, more));
  }

  lemma Fewer(sc: Scene, hashes: set<Hash>, r: Replica, b: Block, todo: set<ID>, i: ID, s: State, s': State)
    requires sc.Valid() && i in todo && todo <= sc.signers
    requires |s.replicas| == sc.c.n && forall j :: 0 <= j < sc.c.n ==> s.replicas[j] == sc.Standing(r, b, todo, j)
    requires s'.replicas == if sc.c.Honest(i) then s.replicas[i := Then(sc.rules, sc.blocks, r, b)] else s.replicas
    ensures |s'.replicas| == sc.c.n
    ensures forall j :: 0 <= j < sc.c.n ==> s'.replicas[j] == sc.Standing(r, b, todo - {i}, j)
  {
  }

  lemma {:induction false} TakeAll(sc: Scene, steps: seq<Step>, hashes: set<Hash>, r: Replica, b: Block, todo: set<ID>)
      returns (more: seq<Step>)
    requires sc.Valid() && sc.Midway(steps, hashes, r, b, todo) && sc.Next(hashes, r, b)
    ensures sc.Midway(more, hashes, r, b, {}) && steps <= more
    decreases todo
  {
    if todo == {} {
      more := steps;
    } else {
      var i :| i in todo;
      more := TakeOne(sc, steps, hashes, r, b, todo, i);
      more := TakeAll(sc, more, hashes, r, b, todo - {i});
    }
  }

  /** All signers sign `b`; step `k` is one of them, correct, handling it. */
  lemma Round(sc: Scene, steps: seq<Step>, hashes: set<Hash>, r: Replica, b: Block) returns (more: seq<Step>, k: nat)
    requires sc.Valid() && sc.At(steps, hashes, r) && sc.Next(hashes, r, b)
    ensures sc.At(more, hashes + {b.hash}, Then(sc.rules, sc.blocks, r, b)) && steps <= more
    ensures Handles(sc.rules, sc.c, more, k, sc.blocks, b, Decide(sc.rules, sc.blocks, r.locked, b).decided)
  {
    k := |steps|;
    var decided := Decide(sc.rules, sc.blocks, r.locked, b).decided;
    var i := QuorumIntersection(sc.c, sc.signers, sc.signers);
    NoneYet(sc, steps, hashes, r, b);
    var one := TakeOne(sc, steps, hashes, r, b, sc.signers, i);
    more := TakeAll(sc, one, hashes, r, b, sc.signers - {i});
    StillHandles(sc.rules, sc.c, one, more, k, sc.blocks, b, decided);
    AllDone(sc, more, hashes, r, b);
  }

  lemma NoneYet(sc: Scene, steps: seq<Step>, hashes: set<Hash>, r: Replica, b: Block)
    requires sc.Valid() && sc.At(steps, hashes, r)
    ensures sc.Midway(steps, hashes, r, b, sc.signers)
  {
    assert Votes(sc.signers - sc.signers, {b.hash}) == {};
  }

  lemma AllDone(sc: Scene, steps: seq<Step>, hashes: set<Hash>, r: Replica, b: Block)
    requires sc.Valid() && sc.Midway(steps, hashes, r, b, {})
    ensures sc.At(steps, hashes + {b.hash}, Then(sc.rules, sc.blocks, r, b))
  {
    assert sc.signers - {} == sc.signers;
    assert Votes(sc.signers, hashes) + Votes(sc.signers, {b.hash}) == Votes(sc.signers, hashes + {b.hash});
  }

  // ---------------------------------------------------------------- many rounds

  function HashSet(order: seq<Block>): set<Hash> {
    if order == [] then {} else HashSet(order[..|order| - 1]) + {order[|order| - 1].hash}
  }

  /** A correct signer after the blocks were signed in this order. */
  ghost function Stands(sc: Scene, order: seq<Block>): Replica
    requires sc.Valid()
  {
    if order == [] then NEW_REPLICA
    else Then(sc.rules, sc.blocks, Stands(sc, order[..|order| - 1]), order[|order| - 1])
  }

  /** The blocks may be signed in this order. */
  ghost predicate Playable(sc: Scene, order: seq<Block>)
    requires sc.Valid()
  {
    order == [] ||
    var before := order[..|order| - 1];
    Playable(sc, before) && sc.Next(HashSet(before), Stands(sc, before), order[|order| - 1])
  }

  lemma OneMoreBlock(sc: Scene, order: seq<Block>, b: Block)
    requires sc.Valid() && Playable(sc, order) && sc.Next(HashSet(order), Stands(sc, order), b)
    ensures Playable(sc, order + [b]) && HashSet(order + [b]) == HashSet(order) + {b.hash}
    ensures Stands(sc, order + [b]) == Then(sc.rules, sc.blocks, Stands(sc, order), b)
  {
    assert (order + [b])[..|order|] == order;
  }

  /** Step `k` handles the `i`-th block, with the lock that the blocks before it left. */
  ghost predicate HandlesAt(sc: Scene, steps: seq<Step>, order: seq<Block>, i: nat, k: nat)
    requires sc.Valid() && i < |order|
  {
    Handles(sc.rules, sc.c, steps, k, sc.blocks, order[i],
            Decide(sc.rules, sc.blocks, Stands(sc, order[..i]).locked, order[i]).decided)
  }

  ghost predicate Handled(sc: Scene, steps: seq<Step>, order: seq<Block>, i: nat)
    requires sc.Valid() && i < |order|
  {
    exists k: nat :: HandlesAt(sc, steps, order, i, k)
  }

  lemma StillHandled(sc: Scene, before: seq<Step>, steps: seq<Step>, front: seq<Block>, order: seq<Block>, i: nat)
    requires sc.Valid() && i < |front| && before <= steps && front <= order && Handled(sc, before, front, i)
    ensures Handled(sc, steps, order, i)
  {
    var k: nat :| HandlesAt(sc, before, front, i, k);
    assert front[..i] == order[..i] && front[i] == order[i];
    StillHandles(sc.rules, sc.c, before, steps, k, sc.blocks, order[i],
                 Decide(sc.rules, sc.blocks, Stands(sc, order[..i]).locked, order[i]).decided);
    assert HandlesAt(sc, steps, order, i, k);
  }

  /** The run in which the blocks are signed in this order. */
  lemma {:induction false} Play(sc: Scene, order: seq<Block>) returns (steps: seq<Step>)
    requires sc.Valid() && Playable(sc, order)
    ensures sc.At(steps, HashSet(order), Stands(sc, order))
    ensures forall i :: 0 <= i < |order| ==> Handled(sc, steps, order, i)
    decreases |order|
  {
    if order == [] {
      steps := Begin(sc);
    } else {
      var before := Play(sc, order[..|order| - 1]);
      steps := PlayLast(sc, before, order);
      forall i | 0 <= i < |order| - 1 ensures Handled(sc, steps, order, i) {
        StillHandled(sc, before, steps, order[..|order| - 1], order, i);
      }
    }
  }

  lemma PlayLast(sc: Scene, before: seq<Step>, order: seq<Block>) returns (steps: seq<Step>)
    requires sc.Valid() && Playable(sc, order) && order != []
    requires var front := order[..|order| - 1]; sc.At(before, HashSet(front), Stands(sc, front))
    ensures sc.At(steps, HashSet(order), Stands(sc, order)) && before <= steps
    ensures Handled(sc, steps, order, |order| - 1)
  {
    var k;
    var front := order[..|order| - 1];
    steps, k := Round(sc, before, HashSet(front), Stands(sc, front), order[|order| - 1]);
    assert HandlesAt(sc, steps, order, |order| - 1, k);
  }

  // ---------------------------------------------------------------- what is certified

  /** Exactly the signed blocks, and genesis, are certified; a single further signature of one of them
      changes nothing. */
  lemma CertifiedIsSigned(sc: Scene, s: State, hashes: set<Hash>, more: set<Vote>, h: Hash)
    requires sc.Valid() && s.votes == Votes(sc.signers, hashes) + more && forall v :: v in more ==> v.hash in hashes
    ensures Certified(sc.c, s, h) <==> h == GENESIS_HASH || h in hashes
  {
    var voters := Voters(sc.c.n, s.votes, h);
    if h in hashes {
      forall i | i in sc.signers ensures i in voters {
        assert Vote(i, h) in Votes(sc.signers, hashes);
      }
      SubsetSize(sc.signers, voters);
    } else {
      assert voters == {};
    }
  }
}
