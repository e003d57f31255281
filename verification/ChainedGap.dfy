/** When decisions of ChainedHotStuff are final: in every configuration, exactly when they come from
    consecutive views and certificates keep up with them. For any other views there is a run in which two
    decisions conflict, and in every view there is one in which certificates do not keep up. In these runs
    no replica does anything wrong; those that may be faulty sign what the others sign. */
module ChainedGap {
  import opened HotStuff
  import opened Quorum
  import opened Consensus
  import opened Protocol
  import opened Invariant
  import opened Agreement
  import opened Rounds
  import BlockChain

  /** Block `hash` in view `view`, on the block `on` that `signers` certified. */
  function On(signers: set<ID>, hash: Hash, view: View, on: Hash): Block {
    Block(hash, on, QuorumCert(signers, 0, on), view, 0, "")
  }

  /** The replicas of a configuration sign one after another of the blocks. */
  function Stage(c: Config, blocks: Chain): Scene {
    Scene(Chained, c, blocks, c.Replicas())
  }

  lemma AllAreQuorum(c: Config, blocks: Chain)
    requires c.Valid() && WellHashed(blocks)
    ensures Stage(c, blocks).Valid()
  {
  }

  function Higher(gp: Block, locked: Block): Block {
    if gp.view > locked.view then gp else locked
  }

  /** What lies three blocks down; nothing lies below genesis. */
  function Third(blocks: Chain, gp: Block): Option<Block> {
    if gp == GENESIS then None else Get(blocks, gp.cert.hash)
  }

  /** These are the hashes up to `n`, without genesis. */
  ghost predicate Upto(hashes: set<Hash>, n: Hash) {
    forall h :: h in hashes <==> 2 <= h <= n
  }

  /** Where the signers stand after signing the blocks in this order. */
  ghost predicate Reaches(sc: Scene, order: seq<Block>, locked: Block, lastVote: View) {
    && sc.Valid() && sc.rules == Chained && Playable(sc, order)
    && Stands(sc, order).locked == locked && Stands(sc, order).lastVote == lastVote
  }

  /** A block on genesis may be signed while the lock is genesis. */
  lemma SignRoot(sc: Scene, order: seq<Block>, lastVote: View, b: Block)
    requires Reaches(sc, order, GENESIS, lastVote) && BlockChain.Stored(sc.blocks, b)
    requires b.view > lastVote && b.cert.hash == GENESIS_HASH && Shaped(b)
    ensures Reaches(sc, order + [b], GENESIS, b.view) && HashSet(order + [b]) == HashSet(order) + {b.hash}
  {
    assert BlockChain.Extends(sc.blocks, GENESIS, GENESIS);
    OneMoreBlock(sc, order, b);
  }

  /** A block on one that is newer than the lock may be signed; CommitRule looks three blocks down. */
  lemma SignOn(sc: Scene, order: seq<Block>, locked: Block, lastVote: View, b: Block, p: Block, gp: Block)
    requires Reaches(sc, order, locked, lastVote)
    requires BlockChain.Stored(sc.blocks, b) && BlockChain.Stored(sc.blocks, p) && BlockChain.Stored(sc.blocks, gp)
    requires b.cert.hash == p.hash && b.cert.signers == sc.signers && p.hash in HashSet(order)
    requires p.cert.hash == gp.hash && Shaped(p) && (gp == GENESIS || Shaped(gp))
    requires b.view > lastVote && p.view > locked.view
    ensures Reaches(sc, order + [b], Higher(gp, locked), b.view) && HashSet(order + [b]) == HashSet(order) + {b.hash}
  {
    DecidesThree(sc.blocks, locked, b, p, gp);
    OneMoreBlock(sc, order, b);
  }

  lemma DecidesThree(blocks: Chain, locked: Block, b: Block, p: Block, gp: Block)
    requires WellHashed(blocks) && BlockChain.Stored(blocks, p) && BlockChain.Stored(blocks, gp)
    requires b.cert.hash == p.hash && p.cert.hash == gp.hash && Shaped(p) && (gp == GENESIS || Shaped(gp))
    ensures Decide(Chained, blocks, locked, b) == Ruling(Higher(gp, locked), Third(blocks, gp))
  {
  }

  // ---------------------------------------------------------------- the conflict

  /** The views a decision is taken from, with a gap somewhere between them. */
  datatype Views = Views(v1: View, v2: View, v3: View) {
    predicate Gap() {
      0 < v1 < v2 < v3 && v3 != v1 + 2
    }

    /** A view in a gap. */
    function Between(): (w: View)
      ensures Gap() ==> v1 < w < v3 && w != v2 && w <= v1 + 2
    {
      if v2 > v1 + 1 then v1 + 1 else v2 + 1
    }
  }

  // Blocks 2, 4, 5 and 7 are the branch that decides block 2, and blocks 3, 6, 8 and 9 the other one.

  function ViewAt(v: Views, h: Hash): View {
    match h
    case 2 => v.v1
    case 3 => v.Between()
    case 4 => v.v2
    case 5 => v.v3
    case 6 => v.v3 + 1
    case 7 => v.v3 + 2
    case 8 => v.v3 + 3
    case _ => v.v3 + 4
  }

  function Below(h: Hash): Hash {
    match h
    case 4 => 2
    case 5 => 4
    case 6 => 3
    case 7 => 5
    case 8 => 6
    case 9 => 8
    case _ => GENESIS_HASH
  }

  function B(c: Config, v: Views, h: Hash): Block {
    On(c.Replicas(), h, ViewAt(v, h), Below(h))
  }

  function BlockAt(c: Config, v: Views, h: Hash): Block {
    if h <= GENESIS_HASH then GENESIS else B(c, v, h)
  }

  function Blocks(c: Config, v: Views): (chain: Chain)
    ensures WellHashed(chain)
  {
    map h | 1 <= h <= 9 :: BlockAt(c, v, h)
  }

  /** The scene of the conflict. */
  ghost predicate Gapped(sc: Scene, v: Views) {
    && sc.Valid() && v.Gap() && sc.rules == Chained && sc.signers == sc.c.Replicas()
    && forall h :: 1 <= h <= 9 ==> InScene(sc, v, h)
  }

  ghost predicate InScene(sc: Scene, v: Views, h: Hash) {
    BlockChain.Stored(sc.blocks, BlockAt(sc.c, v, h))
  }

  lemma TheScene(c: Config, v: Views) returns (sc: Scene)
    requires c.Valid() && v.Gap()
    ensures Gapped(sc, v) && sc.c == c
  {
    sc := Stage(c, Blocks(c, v));
    AllAreQuorum(c, Blocks(c, v));
  }

  lemma StartBranch(sc: Scene, v: Views, order: seq<Block>, lastVote: View, h: Hash)
    requires Gapped(sc, v) && (h == 2 || h == 3) && Reaches(sc, order, GENESIS, lastVote) && ViewAt(v, h) > lastVote
    ensures Reaches(sc, order + [B(sc.c, v, h)], GENESIS, ViewAt(v, h))
    ensures HashSet(order + [B(sc.c, v, h)]) == HashSet(order) + {h}
  {
    assert InScene(sc, v, h);
    SignRoot(sc, order, lastVote, B(sc.c, v, h));
  }

  lemma GoOn(sc: Scene, v: Views, order: seq<Block>, locked: Block, lastVote: View, h: Hash)
    requires Gapped(sc, v) && 4 <= h <= 9 && Reaches(sc, order, locked, lastVote) && Below(h) in HashSet(order)
    requires ViewAt(v, h) > lastVote && ViewAt(v, Below(h)) > locked.view
    ensures Reaches(sc, order + [B(sc.c, v, h)], Higher(BlockAt(sc.c, v, Below(Below(h))), locked), ViewAt(v, h))
    ensures HashSet(order + [B(sc.c, v, h)]) == HashSet(order) + {h}
  {
    assert InScene(sc, v, h);
    assert InScene(sc, v, Below(h));
    assert InScene(sc, v, Below(Below(h)));
    SignOn(sc, order, locked, lastVote, B(sc.c, v, h), B(sc.c, v, Below(h)), BlockAt(sc.c, v, Below(Below(h))));
  }

  /** What handling block `h` decides. */
  lemma Decides(sc: Scene, v: Views, locked: Block, h: Hash)
    requires Gapped(sc, v) && h in {7, 9}
    ensures Decide(Chained, sc.blocks, locked, B(sc.c, v, h)).decided == Some(B(sc.c, v, if h == 7 then 2 else 3))
  {
    assert InScene(sc, v, Below(h));
    assert InScene(sc, v, Below(Below(h)));
    assert InScene(sc, v, if h == 7 then 2 else 3);
    DecidesThree(sc.blocks, locked, B(sc.c, v, h), B(sc.c, v, Below(h)), B(sc.c, v, Below(Below(h))));
  }

  /** Both branches have begun. */
  lemma Branches(sc: Scene, v: Views) returns (order: seq<Block>, lastVote: View)
    requires Gapped(sc, v)
    ensures |order| == 3 && Reaches(sc, order, GENESIS, lastVote) && Upto(HashSet(order), 4) && lastVote < v.v3
  {
    StartBranch(sc, v, [], 0, 2);
    order := [] + [B(sc.c, v, 2)];
    if v.Between() < v.v2 {
      ForkFirst(sc, v, order);
      order, lastVote := order + [B(sc.c, v, 3)] + [B(sc.c, v, 4)], v.v2;
    } else {
      ForkSecond(sc, v, order);
      order, lastVote := order + [B(sc.c, v, 4)] + [B(sc.c, v, 3)], v.Between();
    }
  }

  /** The other branch starts before block 4. */
  lemma ForkFirst(sc: Scene, v: Views, order: seq<Block>)
    requires Gapped(sc, v) && Reaches(sc, order, GENESIS, v.v1) && Upto(HashSet(order), 2) && v.Between() < v.v2
    ensures Reaches(sc, order + [B(sc.c, v, 3)] + [B(sc.c, v, 4)], GENESIS, v.v2)
    ensures Upto(HashSet((order + [B(sc.c, v, 3)]) + [B(sc.c, v, 4)]), 4)
  {
    StartBranch(sc, v, order, v.v1, 3);
    Fourth(sc, v, order + [B(sc.c, v, 3)], v.Between());
    EitherOrder(HashSet(order));
  }

  lemma EitherOrder(hashes: set<Hash>)
    requires Upto(hashes, 2)
    ensures Upto(hashes + {3} + {4}, 4) && Upto(hashes + {4} + {3}, 4)
  {
  }

  lemma Fourth(sc: Scene, v: Views, order: seq<Block>, lastVote: View)
    requires Gapped(sc, v) && Reaches(sc, order, GENESIS, lastVote) && 2 in HashSet(order) && lastVote < v.v2
    ensures Reaches(sc, order + [B(sc.c, v, 4)], GENESIS, v.v2)
    ensures HashSet(order + [B(sc.c, v, 4)]) == HashSet(order) + {4}
  {
    GoOn(sc, v, order, GENESIS, lastVote, 4);
  }

  /** The other branch starts after block 4. */
  lemma ForkSecond(sc: Scene, v: Views, order: seq<Block>)
    requires Gapped(sc, v) && Reaches(sc, order, GENESIS, v.v1) && Upto(HashSet(order), 2) && v.Between() > v.v2
    ensures Reaches(sc, order + [B(sc.c, v, 4)] + [B(sc.c, v, 3)], GENESIS, v.Between())
    ensures Upto(HashSet(order + [B(sc.c, v, 4)] + [B(sc.c, v, 3)]), 4)
  {
    Fourth(sc, v, order, v.v1);
    StartBranch(sc, v, order + [B(sc.c, v, 4)], v.v2, 3);
    EitherOrder(HashSet(order));
  }

  /** Block `h` is next in order. */
  lemma NextInOrder(sc: Scene, v: Views, order: seq<Block>, locked: Block, lastVote: View, h: Hash)
    requires Gapped(sc, v) && 5 <= h <= 9 && Reaches(sc, order, locked, lastVote) && Upto(HashSet(order), h - 1)
    requires ViewAt(v, h) > lastVote && ViewAt(v, Below(h)) > locked.view
    ensures Reaches(sc, order + [B(sc.c, v, h)], Higher(BlockAt(sc.c, v, Below(Below(h))), locked), ViewAt(v, h))
    ensures Upto(HashSet(order + [B(sc.c, v, h)]), h)
  {
    GoOn(sc, v, order, locked, lastVote, h);
  }

  /** Block 2 is locked, the other branch goes on, and block 7 decides block 2. */
  lemma FirstHalf(sc: Scene, v: Views, begun: seq<Block>, lastVote: View)
    requires Gapped(sc, v) && Reaches(sc, begun, GENESIS, lastVote) && Upto(HashSet(begun), 4) && lastVote < v.v3
    ensures var half := begun + [B(sc.c, v, 5)] + [B(sc.c, v, 6)] + [B(sc.c, v, 7)];
            Reaches(sc, half, B(sc.c, v, 4), v.v3 + 2) && Upto(HashSet(half), 7)
  {
    var five := begun + [B(sc.c, v, 5)];
    NextInOrder(sc, v, begun, GENESIS, lastVote, 5);
    NextInOrder(sc, v, five, B(sc.c, v, 2), v.v3, 6);
    NextInOrder(sc, v, five + [B(sc.c, v, 6)], B(sc.c, v, 2), v.v3 + 1, 7);
  }

  /** The other branch goes on, and block 9 decides block 3. */
  lemma SecondHalf(sc: Scene, v: Views, half: seq<Block>)
    requires Gapped(sc, v) && Reaches(sc, half, B(sc.c, v, 4), v.v3 + 2) && Upto(HashSet(half), 7)
    ensures var order := half + [B(sc.c, v, 8)] + [B(sc.c, v, 9)];
            Playable(sc, order) && Upto(HashSet(order), 9)
  {
    NextInOrder(sc, v, half, B(sc.c, v, 4), v.v3 + 2, 8);
    NextInOrder(sc, v, half + [B(sc.c, v, 8)], Higher(B(sc.c, v, 3), B(sc.c, v, 4)), v.v3 + 3, 9);
  }

  /** The run as a whole. */
  lemma BothDecide(sc: Scene, v: Views)
      returns (steps: seq<Step>, hashes: set<Hash>, r: Replica, k1: nat, k2: nat)
    requires Gapped(sc, v)
    ensures sc.At(steps, hashes, r) && Upto(hashes, 9)
    ensures Handles(Chained, sc.c, steps, k1, sc.blocks, B(sc.c, v, 7), Some(B(sc.c, v, 2)))
    ensures Handles(Chained, sc.c, steps, k2, sc.blocks, B(sc.c, v, 9), Some(B(sc.c, v, 3)))
  {
    var begun, lastVote := Branches(sc, v);
    FirstHalf(sc, v, begun, lastVote);
    var half := begun + [B(sc.c, v, 5)] + [B(sc.c, v, 6)] + [B(sc.c, v, 7)];
    SecondHalf(sc, v, half);
    var order := half + [B(sc.c, v, 8)] + [B(sc.c, v, 9)];
    steps := Play(sc, order);
    r, hashes := Stands(sc, order), HashSet(order);
    k1 := DecidingStep(sc, v, steps, order, 5, 7);
    k2 := DecidingStep(sc, v, steps, order, 7, 9);
  }

  lemma DecidingStep(sc: Scene, v: Views, steps: seq<Step>, order: seq<Block>, i: nat, h: Hash) returns (k: nat)
    requires Gapped(sc, v) && h in {7, 9} && i < |order| && order[i] == B(sc.c, v, h) && Handled(sc, steps, order, i)
    ensures Handles(Chained, sc.c, steps, k, sc.blocks, B(sc.c, v, h), Some(B(sc.c, v, if h == 7 then 2 else 3)))
  {
    k :| HandlesAt(sc, steps, order, i, k);
    Decides(sc, v, Stands(sc, order[..i]).locked, h);
  }

  /** A block on genesis extends nothing else. */
  lemma OnGenesis(blocks: Chain, h: Hash, target: Hash)
    requires WellHashed(blocks) && h in blocks && blocks[h].cert.hash == GENESIS_HASH
    requires target != h && target > GENESIS_HASH
    ensures !ExtendsViaQc(blocks, h, target)
  {
    assert !ExtendsViaQc(blocks, NO_HASH, target);
    assert !ExtendsViaQc(blocks, GENESIS_HASH, target);
  }

  /** Step `k` decides a block of view `v.v1` through blocks of views `v.v2` and `v.v3`. */
  ghost predicate DecidesFrom(c: Config, steps: seq<Step>, k: nat, v: Views)
    requires c.n >= 1
  {
    && TakenAt(Chained, c, steps, k) && DecidedAt(Chained, c, steps, k).Some?
    && DecidedAt(Chained, c, steps, k).value.view == v.v1
    && var s, b := After(Chained, c, steps[..k]), steps[k].block.hash;
       ViewOf(s, Qc(s, Qc(s, b))) == v.v2 && ViewOf(s, Qc(s, b)) == v.v3
  }

  /** In every configuration and for all views with a gap there is a run, with certified blocks shaped as
      `Propose` builds them and certificates that keep up, that decides from these views and decides a
      conflicting block as well. */
  lemma ChainedNeedsConsecutiveViews(c: Config, v: Views) returns (steps: seq<Step>, k1: nat, k2: nat)
    requires c.Valid() && v.Gap()
    ensures IsRun(Chained, c, steps) && DecidesFrom(c, steps, k1, v) && TakenAt(Chained, c, steps, k2)
    ensures DecidedAt(Chained, c, steps, k2).Some? && !OneExtendsOther(Chained, c, steps, k1, k2)
    ensures CertifiedShaped(c, After(Chained, c, steps)) && KeptUpAt(Chained, c, steps, k1)
    ensures !FinalAt(Chained, c, steps, k1)
  {
    var sc := TheScene(c, v);
    var r, hashes;
    steps, hashes, r, k1, k2 := BothDecide(sc, v);
    FromGap(sc, v, steps, k1);
    InConflict(sc, v, steps, k1, k2);
    KeepsUp(sc, v, After(Chained, c, steps), hashes);
    Overtaken(sc, v, steps, hashes, k1);
  }

  lemma FromGap(sc: Scene, v: Views, steps: seq<Step>, k: nat)
    requires Gapped(sc, v) && Handles(Chained, sc.c, steps, k, sc.blocks, B(sc.c, v, 7), Some(B(sc.c, v, 2)))
    ensures DecidesFrom(sc.c, steps, k, v)
  {
    assert InScene(sc, v, 7);
    assert InScene(sc, v, 5);
    assert InScene(sc, v, 4);
  }

  lemma InConflict(sc: Scene, v: Views, steps: seq<Step>, k1: nat, k2: nat)
    requires Gapped(sc, v) && IsRun(Chained, sc.c, steps) && After(Chained, sc.c, steps).blocks == sc.blocks
    requires Handles(Chained, sc.c, steps, k1, sc.blocks, B(sc.c, v, 7), Some(B(sc.c, v, 2)))
    requires Handles(Chained, sc.c, steps, k2, sc.blocks, B(sc.c, v, 9), Some(B(sc.c, v, 3)))
    ensures !OneExtendsOther(Chained, sc.c, steps, k1, k2)
  {
    Unrelated(sc, v);
  }

  lemma Unrelated(sc: Scene, v: Views)
    requires Gapped(sc, v)
    ensures !ExtendsViaQc(sc.blocks, 3, 2) && !ExtendsViaQc(sc.blocks, 2, 3)
  {
    assert InScene(sc, v, 2);
    assert InScene(sc, v, 3);
    OnGenesis(sc.blocks, 2, 3);
    OnGenesis(sc.blocks, 3, 2);
  }

  /** Block 3 is certified and not older than block 2. */
  lemma Overtaken(sc: Scene, v: Views, steps: seq<Step>, hashes: set<Hash>, k: nat)
    requires Gapped(sc, v) && Upto(hashes, 9) && IsRun(Chained, sc.c, steps)
    requires var s := After(Chained, sc.c, steps); s.blocks == sc.blocks && s.votes == Votes(sc.signers, hashes)
    requires Handles(Chained, sc.c, steps, k, sc.blocks, B(sc.c, v, 7), Some(B(sc.c, v, 2)))
    ensures !FinalAt(Chained, sc.c, steps, k)
  {
    Unrelated(sc, v);
    assert InScene(sc, v, 2);
    assert InScene(sc, v, 3);
    CertifiedIsSigned(sc, After(Chained, sc.c, steps), hashes, {}, 3);
    assert ViewOf(After(Chained, sc.c, steps), 3) >= ViewOf(After(Chained, sc.c, steps), 2);
  }

  lemma KeepsUp(sc: Scene, v: Views, s: State, hashes: set<Hash>)
    requires Gapped(sc, v) && Upto(hashes, 9) && s.blocks == sc.blocks && s.votes == Votes(sc.signers, hashes)
    ensures KeepUp(sc.c, s, 2) && CertifiedShaped(sc.c, s)
  {
    forall h | Certified(sc.c, s, h) && h != GENESIS_HASH
      ensures h in s.blocks && Shaped(s.blocks[h])
      ensures ViewOf(s, h) > ViewOf(s, 2) + 2 ==> ViewOf(s, Qc(s, h)) >= ViewOf(s, 2)
    {
      CertifiedIsSigned(sc, s, hashes, {}, h);
      OneKeepsUp(sc, v, s, h);
    }
    assert InScene(sc, v, 1);
  }

  lemma OneKeepsUp(sc: Scene, v: Views, s: State, h: Hash)
    requires Gapped(sc, v) && s.blocks == sc.blocks && 2 <= h <= 9
    ensures h in s.blocks && Shaped(s.blocks[h])
    ensures ViewOf(s, h) > ViewOf(s, 2) + 2 ==> ViewOf(s, Qc(s, h)) >= ViewOf(s, 2)
  {
    assert InScene(sc, v, 2) && InScene(sc, v, h) && InScene(sc, v, Below(h));
    assert Qc(s, h) == Below(h) && ViewOf(s, h) == ViewAt(v, h) && ViewOf(s, 2) == v.v1;
    if h >= 4 {
      assert ViewOf(s, Below(h)) == ViewAt(v, Below(h));
    }
  }

  // ---------------------------------------------------------------- the exact condition

  /** In every run of the configuration a decision from these views is final, if certificates keep up. */
  ghost predicate AlwaysFinal(c: Config, v: Views)
    requires c.Valid()
  {
    forall steps: seq<Step>, k: nat ::
      (IsRun(Chained, c, steps) && DecidesFrom(c, steps, k, v) && KeptUpAt(Chained, c, steps, k)) ==>
        FinalAt(Chained, c, steps, k)
  }

  /** In every configuration, decisions of ChainedHotStuff from views `v` that certificates keep up with are
      final in all runs exactly when `v` has no gap: the views are consecutive, or the block is genesis, or
      there is no such decision. */
  lemma FinalExactlyWhenConsecutive(c: Config, v: Views)
    requires c.Valid()
    ensures AlwaysFinal(c, v) <==> (0 < v.v1 < v.v2 < v.v3 ==> v.v3 == v.v1 + 2)
  {
    if v.Gap() {
      var steps, k1, k2 := ChainedNeedsConsecutiveViews(c, v);
      assert DecidesFrom(c, steps, k1, v);
      assert !AlwaysFinal(c, v);
    } else {
      forall steps: seq<Step>, k: nat |
        IsRun(Chained, c, steps) && DecidesFrom(c, steps, k, v) && KeptUpAt(Chained, c, steps, k)
        ensures FinalAt(Chained, c, steps, k)
      {
        GaplessIsFinal(c, steps, k, v);
      }
    }
  }

  lemma GaplessIsFinal(c: Config, steps: seq<Step>, k: nat, v: Views)
    requires c.Valid() && IsRun(Chained, c, steps)
    requires DecidesFrom(c, steps, k, v) && KeptUpAt(Chained, c, steps, k) && !v.Gap()
    ensures FinalAt(Chained, c, steps, k)
  {
    DecisionViews(c, steps, k, v);
    if v.v1 > 0 {
      ChainedAgreement(c, steps, k);
    } else {
      var s' := After(Chained, c, steps);
      RunKeeps(Chained, c, steps);
      forall h | Certified(c, s', h) ensures ExtendsViaQc(s'.blocks, h, GENESIS_HASH) {
        EverythingExtendsGenesis(Chained, c, s', h);
      }
    }
  }

  /** The views of a decision ascend, and only genesis is decided in view 0. */
  lemma DecisionViews(c: Config, steps: seq<Step>, k: nat, v: Views)
    requires c.Valid() && DecidesFrom(c, steps, k, v)
    ensures v.v1 < v.v2 < v.v3
    ensures v.v1 == 0 ==> DecidedAt(Chained, c, steps, k).value == GENESIS
  {
    var s, step := After(Chained, c, steps[..k]), steps[k];
    RunKeeps(Chained, c, steps[..k]);
    DecidesThird(Chained, step.chain[step.block.hash := step.block], s.replicas[step.id].locked, step.block);
    CertificateHolds(Chained, c, s, step.chain, step.block.cert);
    var p := step.block.cert.hash;
    CertifiedLink(Chained, c, s, p);
    CertifiedLink(Chained, c, s, Qc(s, p));
    if v.v1 == 0 {
      OneCertifiedPerView(Chained, c, s, Qc(s, Qc(s, p)), GENESIS_HASH);
    }
  }

  // ---------------------------------------------------------------- the shape of blocks

  // Blocks 2, 3, 4 and 5 of consecutive views decide block 2 and lock block 3. Block 6 has block 3 as
  // its parent and a certificate of genesis.

  function S(c: Config, view: View, h: Hash): Block {
    if h <= GENESIS_HASH then GENESIS
    else if h == 6 then Block(6, 3, QuorumCert(c.Replicas(), 0, GENESIS_HASH), view + 4, 0, "")
    else On(c.Replicas(), h, view + h - 2, h - 1)
  }

  function Line(c: Config, view: View): (chain: Chain)
    ensures WellHashed(chain)
  {
    map h | 1 <= h <= 6 :: S(c, view, h)
  }

  ghost predicate Straight(sc: Scene, view: View) {
    && sc.Valid() && view > 0 && sc.rules == Chained && sc.signers == sc.c.Replicas()
    && forall h :: 1 <= h <= 6 ==> InLine(sc, view, h)
  }

  ghost predicate InLine(sc: Scene, view: View, h: Hash) {
    BlockChain.Stored(sc.blocks, S(sc.c, view, h))
  }

  lemma TheLine(c: Config, view: View) returns (sc: Scene)
    requires c.Valid() && view > 0
    ensures Straight(sc, view) && sc.c == c
  {
    sc := Stage(c, Line(c, view));
    AllAreQuorum(c, Line(c, view));
  }

  lemma GoStraight(sc: Scene, view: View, order: seq<Block>, locked: Block, lastVote: View, h: Hash)
    requires Straight(sc, view) && 3 <= h <= 5 && Reaches(sc, order, locked, lastVote) && Upto(HashSet(order), h - 1)
    requires view + h - 2 > lastVote && view + h - 3 > locked.view
    ensures Reaches(sc, order + [S(sc.c, view, h)], Higher(S(sc.c, view, h - 2), locked), view + h - 2)
    ensures Upto(HashSet(order + [S(sc.c, view, h)]), h)
  {
    assert InLine(sc, view, h);
    assert InLine(sc, view, h - 1);
    assert InLine(sc, view, h - 2);
    SignOn(sc, order, locked, lastVote, S(sc.c, view, h), S(sc.c, view, h - 1), S(sc.c, view, h - 2));
  }

  lemma BeginStraight(sc: Scene, view: View) returns (begun: seq<Block>)
    requires Straight(sc, view)
    ensures |begun| == 2 && Reaches(sc, begun, GENESIS, view + 1) && Upto(HashSet(begun), 3)
  {
    begun := FirstStraight(sc, view);
    GoStraight(sc, view, begun, GENESIS, view, 3);
    begun := begun + [S(sc.c, view, 3)];
  }

  lemma FirstStraight(sc: Scene, view: View) returns (begun: seq<Block>)
    requires Straight(sc, view)
    ensures |begun| == 1 && Reaches(sc, begun, GENESIS, view) && Upto(HashSet(begun), 2)
  {
    assert InLine(sc, view, 2);
    SignRoot(sc, [], 0, S(sc.c, view, 2));
    begun := [] + [S(sc.c, view, 2)];
  }

  lemma DecideStraight(sc: Scene, view: View, begun: seq<Block>)
    requires Straight(sc, view) && Reaches(sc, begun, GENESIS, view + 1) && Upto(HashSet(begun), 3)
    ensures var decided := begun + [S(sc.c, view, 4)] + [S(sc.c, view, 5)];
            Reaches(sc, decided, S(sc.c, view, 3), view + 3) && Upto(HashSet(decided), 5)
  {
    GoStraight(sc, view, begun, GENESIS, view + 1, 4);
    GoStraight(sc, view, begun + [S(sc.c, view, 4)], S(sc.c, view, 2), view + 2, 5);
  }

  /** The second branch of VoteRule lets block 6 pass, because its parent is the lock. */
  lemma SixthPasses(sc: Scene, view: View, order: seq<Block>)
    requires Straight(sc, view) && Reaches(sc, order, S(sc.c, view, 3), view + 3) && Upto(HashSet(order), 5)
    ensures Playable(sc, order + [S(sc.c, view, 6)]) && Upto(HashSet(order + [S(sc.c, view, 6)]), 6)
  {
    assert InLine(sc, view, 3);
    assert InLine(sc, view, 6);
    assert BlockChain.Extends(sc.blocks, S(sc.c, view, 3), S(sc.c, view, 3));
    OneMoreBlock(sc, order, S(sc.c, view, 6));
  }

  lemma RunStraight(sc: Scene, view: View) returns (steps: seq<Step>, hashes: set<Hash>, r: Replica, k: nat)
    requires Straight(sc, view)
    ensures sc.At(steps, hashes, r) && Upto(hashes, 6)
    ensures Handles(Chained, sc.c, steps, k, sc.blocks, S(sc.c, view, 5), Some(S(sc.c, view, 2)))
  {
    var begun := BeginStraight(sc, view);
    var decided := begun + [S(sc.c, view, 4)] + [S(sc.c, view, 5)];
    DecideStraight(sc, view, begun);
    SixthPasses(sc, view, decided);
    var order := decided + [S(sc.c, view, 6)];
    steps := Play(sc, order);
    r, hashes := Stands(sc, order), HashSet(order);
    k := FifthStep(sc, view, steps, order);
  }

  lemma FifthStep(sc: Scene, view: View, steps: seq<Step>, order: seq<Block>) returns (k: nat)
    requires Straight(sc, view) && 3 < |order| && order[3] == S(sc.c, view, 5) && Handled(sc, steps, order, 3)
    ensures Handles(Chained, sc.c, steps, k, sc.blocks, S(sc.c, view, 5), Some(S(sc.c, view, 2)))
  {
    k :| HandlesAt(sc, steps, order, 3, k);
    FifthDecides(sc, view, Stands(sc, order[..3]).locked);
  }

  lemma FifthDecides(sc: Scene, view: View, locked: Block)
    requires Straight(sc, view)
    ensures Decide(Chained, sc.blocks, locked, S(sc.c, view, 5)).decided == Some(S(sc.c, view, 2))
  {
    assert InLine(sc, view, 4);
    assert InLine(sc, view, 3);
    assert InLine(sc, view, 2);
    DecidesThree(sc.blocks, locked, S(sc.c, view, 5), S(sc.c, view, 4), S(sc.c, view, 3));
  }

  lemma StraightLands(sc: Scene, view: View, s: State, hashes: set<Hash>)
    requires Straight(sc, view) && Upto(hashes, 6) && s.blocks == sc.blocks && s.votes == Votes(sc.signers, hashes)
    ensures CertifiedLand(sc.c, s)
  {
    SixthLands(sc, view);
    forall h | h in s.blocks && h != GENESIS_HASH && Certified(sc.c, s, h) ensures LandsOnQc(s, h) {
      CertifiedIsSigned(sc, s, hashes, {}, h);
      assert InLine(sc, view, h) && InLine(sc, view, if h == 6 then 1 else h - 1);
      if h != 6 {
        ShapedLands(s.blocks, s.blocks[h]);
      }
    }
  }

  lemma SixthLands(sc: Scene, view: View)
    requires Straight(sc, view)
    ensures BlockChain.Landing(sc.blocks, 0, S(sc.c, view, 6)) == Some(GENESIS_HASH)
  {
    assert InLine(sc, view, 3) && InLine(sc, view, 2) && InLine(sc, view, 1);
    assert BlockChain.Landing(sc.blocks, 0, S(sc.c, view, 2)) == Some(GENESIS_HASH);
    assert BlockChain.Landing(sc.blocks, 0, S(sc.c, view, 3)) == Some(GENESIS_HASH);
  }

  /** Consecutive views do not suffice for agreement along certificates: in every configuration and every
      view there is a decision that a certified block of an older certificate passes by, because its parent
      is the lock. Along parent links that block does extend the decision. */
  lemma ChainedNeedsKeepingUp(c: Config, view: View) returns (steps: seq<Step>, k: nat)
    requires c.Valid() && view > 0
    ensures IsRun(Chained, c, steps) && DecidesFrom(c, steps, k, Views(view, view + 1, view + 2))
    ensures !KeptUpAt(Chained, c, steps, k) && !FinalAt(Chained, c, steps, k)
    ensures CertifiedLand(c, After(Chained, c, steps))
  {
    var sc := TheLine(c, view);
    var r, hashes;
    steps, hashes, r, k := RunStraight(sc, view);
    StraightLands(sc, view, After(Chained, c, steps), hashes);
    SixthIsLate(sc, view, After(Chained, c, steps), hashes);
    FromLine(sc, view, steps, k);
    ChainedAgreement(c, steps, k);
  }

  lemma FromLine(sc: Scene, view: View, steps: seq<Step>, k: nat)
    requires Straight(sc, view) && Handles(Chained, sc.c, steps, k, sc.blocks, S(sc.c, view, 5), Some(S(sc.c, view, 2)))
    ensures DecidesFrom(sc.c, steps, k, Views(view, view + 1, view + 2)) && ConsecutiveAt(Chained, sc.c, steps, k)
  {
    assert InLine(sc, view, 5);
    assert InLine(sc, view, 4);
    assert InLine(sc, view, 3);
  }

  lemma SixthIsLate(sc: Scene, view: View, s: State, hashes: set<Hash>)
    requires Straight(sc, view) && Upto(hashes, 6) && s.blocks == sc.blocks && s.votes == Votes(sc.signers, hashes)
    ensures !KeepUp(sc.c, s, 2)
  {
    CertifiedIsSigned(sc, s, hashes, {}, 6);
    assert InLine(sc, view, 1);
    assert InLine(sc, view, 2);
    assert InLine(sc, view, 6);
    assert ViewOf(s, 6) > ViewOf(s, 2) + 2 && ViewOf(s, Qc(s, 6)) == 0;
  }
}
