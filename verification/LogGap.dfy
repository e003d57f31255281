/** Towers of blocks that decide `x` and then `y`, of which `y` names any parent: the logs follow in all
    runs over such blocks whose other certified blocks land exactly when `y` lands on `x`. This is an
    instance of what LogCondition proves of all runs; it shows that the condition on certified blocks
    cannot be dropped, in any configuration. */
module LogGap {
  import opened HotStuff
  import opened Quorum
  import opened Consensus
  import opened Protocol
  import opened Agreement
  import opened Logs
  import opened Rounds
  import BlockChain

  /** Any blocks that contain one `x` on genesis, and on it `y`, `z`, `a` and `b`, each certifying the
      one before, in consecutive views up to `a`. The parent of `y` is any block at all. */
  datatype Tower = Tower(blocks: Chain, signers: set<ID>, x: Block, y: Block, z: Block, a: Block, b: Block) {
    ghost predicate Valid() {
      && WellHashed(blocks)
      && Has(x) && Has(y) && Has(z) && Has(a) && Has(b)
      && x.cert.hash == GENESIS_HASH && Shaped(x) && Shaped(z) && Shaped(a) && Shaped(b)
      && Certifies(y, x) && Certifies(z, y) && Certifies(a, z) && Certifies(b, a)
      && 0 < x.view && y.view == x.view + 1 && z.view == x.view + 2 && a.view == x.view + 3 && b.view > a.view
    }

    ghost predicate Has(block: Block) {
      BlockChain.Stored(blocks, block) && block.hash > GENESIS_HASH
    }

    ghost predicate Certifies(block: Block, on: Block) {
      block.cert.hash == on.hash && block.cert.signers == signers
    }

    function In(c: Config): Scene {
      Scene(Simple, c, blocks, signers)
    }
  }

  // ---------------------------------------------------------------- the run

  /** `x` is signed. */
  lemma FirstRound(c: Config, t: Tower) returns (steps: seq<Step>)
    requires t.Valid() && t.In(c).Valid()
    ensures t.In(c).At(steps, {t.x.hash}, Replica(t.x.view, GENESIS, GENESIS, []))
  {
    var k;
    steps := Begin(t.In(c));
    steps, k := Round(t.In(c), steps, {}, NEW_REPLICA, t.x);
    assert {} + {t.x.hash} == {t.x.hash};
  }

  /** `y` is signed. */
  lemma SecondRound(c: Config, t: Tower, before: seq<Step>) returns (steps: seq<Step>)
    requires t.Valid() && t.In(c).Valid()
    requires t.In(c).At(before, {t.x.hash}, Replica(t.x.view, GENESIS, GENESIS, []))
    ensures t.In(c).At(steps, {t.x.hash, t.y.hash}, Replica(t.y.view, GENESIS, GENESIS, []))
  {
    var k;
    steps, k := Round(t.In(c), before, {t.x.hash}, Replica(t.x.view, GENESIS, GENESIS, []), t.y);
    assert {t.x.hash} + {t.y.hash} == {t.x.hash, t.y.hash};
  }

  /** `z` is signed, and locks `x`. */
  lemma ThirdRound(c: Config, t: Tower, before: seq<Step>) returns (steps: seq<Step>)
    requires t.Valid() && t.In(c).Valid()
    requires t.In(c).At(before, {t.x.hash, t.y.hash}, Replica(t.y.view, GENESIS, GENESIS, []))
    ensures t.In(c).At(steps, {t.x.hash, t.y.hash, t.z.hash}, Replica(t.z.view, t.x, GENESIS, []))
  {
    var k;
    var r := Replica(t.y.view, GENESIS, GENESIS, []);
    steps, k := Round(t.In(c), before, {t.x.hash, t.y.hash}, r, t.z);
    assert {t.x.hash, t.y.hash} + {t.z.hash} == {t.x.hash, t.y.hash, t.z.hash};
    assert Then(Simple, t.blocks, r, t.z) == Replica(t.z.view, t.x, GENESIS, []);
  }

  /** `a` is signed, and `x` executed. */
  lemma FourthRound(c: Config, t: Tower, before: seq<Step>) returns (steps: seq<Step>)
    requires t.Valid() && t.In(c).Valid()
    requires t.In(c).At(before, {t.x.hash, t.y.hash, t.z.hash}, Replica(t.z.view, t.x, GENESIS, []))
    ensures t.In(c).At(steps, {t.x.hash, t.y.hash, t.z.hash, t.a.hash}, Replica(t.a.view, t.y, t.x, [t.x]))
  {
    var k;
    var r := Replica(t.z.view, t.x, GENESIS, []);
    steps, k := Round(t.In(c), before, {t.x.hash, t.y.hash, t.z.hash}, r, t.a);
    assert {t.x.hash, t.y.hash, t.z.hash} + {t.a.hash} == {t.x.hash, t.y.hash, t.z.hash, t.a.hash};
    ExecutesX(t);
    assert Then(Simple, t.blocks, r, t.a) == Replica(t.a.view, t.y, t.x, [t.x]);
  }

  lemma ExecutesX(t: Tower)
    requires t.Valid()
    ensures ToExecute(t.blocks, GENESIS, t.x) == Some([t.x])
  {
    assert ToExecute(t.blocks, GENESIS, GENESIS) == Some([]);
    assert [] + [t.x] == [t.x];
  }

  /** What the signers have become: they committed `x` and then `y`. */
  function Ended(t: Tower): Replica
    requires t.Valid()
  {
    AfterCommit(t.blocks, Replica(t.b.view, t.z, t.x, [t.x]), t.y)
  }

  /** What the replica becomes that only handles `b`. */
  function EndedIdle(t: Tower): Replica
    requires t.Valid()
  {
    AfterCommit(t.blocks, Replica(t.b.view, t.z, GENESIS, []), t.y)
  }

  function All(t: Tower): set<Hash> {
    {t.x.hash, t.y.hash, t.z.hash, t.a.hash, t.b.hash}
  }

  /** `b` is signed, and `y` committed. */
  lemma WholeRun(c: Config, t: Tower) returns (steps: seq<Step>)
    requires t.Valid() && t.In(c).Valid()
    ensures t.In(c).At(steps, All(t), Ended(t))
  {
    var k;
    var r := Replica(t.a.view, t.y, t.x, [t.x]);
    steps := FirstRound(c, t);
    steps := SecondRound(c, t, steps);
    steps := ThirdRound(c, t, steps);
    steps := FourthRound(c, t, steps);
    steps, k := Round(t.In(c), steps, {t.x.hash, t.y.hash, t.z.hash, t.a.hash}, r, t.b);
    assert {t.x.hash, t.y.hash, t.z.hash, t.a.hash} + {t.b.hash} == All(t);
    assert Then(Simple, t.blocks, r, t.b) == Ended(t);
  }

  // ---------------------------------------------------------------- the exact condition

  /** All certified blocks but `y` land on the blocks their certificates name. */
  ghost predicate OthersLand(c: Config, s: State, y: Hash)
    requires c.n >= 1
  {
    && WellHashed(s.blocks)
    && forall h :: h in s.blocks && h != GENESIS_HASH && h != y && Certified(c, s, h) ==> LandsOnQc(s, h)
  }

  lemma OthersDoLand(c: Config, t: Tower, s: State, more: set<Vote>)
    requires t.Valid() && t.In(c).Valid() && s.blocks == t.blocks
    requires s.votes == Votes(t.signers, All(t)) + more && forall v :: v in more ==> v.hash in All(t)
    ensures OthersLand(c, s, t.y.hash)
  {
    forall h | h in s.blocks && h != GENESIS_HASH && h != t.y.hash && Certified(c, s, h) ensures LandsOnQc(s, h) {
      CertifiedIsSigned(t.In(c), s, All(t), more, h);
      ShapedLands(s.blocks, s.blocks[h]);
    }
  }

  /** In every run over these blocks in which the other certified blocks land, the logs follow. */
  ghost predicate AlwaysFollow(c: Config, t: Tower)
    requires c.n >= 1
  {
    forall steps :: (IsRun(Simple, c, steps) && After(Simple, c, steps).blocks == t.blocks
                     && OthersLand(c, After(Simple, c, steps), t.y.hash)) ==>
                LogsFollow(c, After(Simple, c, steps))
  }

  /** In every configuration and over the blocks of any tower signed by a quorum, the logs follow in all
      such runs exactly when `y` lands on the block it certifies. */
  lemma FollowExactlyWhenLanding(c: Config, t: Tower)
    requires t.Valid() && t.In(c).Valid()
    ensures AlwaysFollow(c, t) <==> BlockChain.Lands(t.blocks, t.x, t.y)
  {
    if BlockChain.Lands(t.blocks, t.x, t.y) {
      forall steps | IsRun(Simple, c, steps) && After(Simple, c, steps).blocks == t.blocks
                     && OthersLand(c, After(Simple, c, steps), t.y.hash)
        ensures LogsFollow(c, After(Simple, c, steps))
      {
        assert LandsOnQc(After(Simple, c, steps), t.y.hash);
        ReplicatedLog(c, steps);
      }
    } else {
      var steps := FailingRun(c, t);
      assert !AlwaysFollow(c, t);
    }
  }

  lemma FailingRun(c: Config, t: Tower) returns (steps: seq<Step>)
    requires t.Valid() && t.In(c).Valid() && !BlockChain.Lands(t.blocks, t.x, t.y)
    ensures IsRun(Simple, c, steps) && After(Simple, c, steps).blocks == t.blocks
    ensures OthersLand(c, After(Simple, c, steps), t.y.hash) && !LogsFollow(c, After(Simple, c, steps))
  {
    steps := WholeRun(c, t);
    OthersDoLand(c, t, After(Simple, c, steps), {});
    WrongPath(t);
    var i := QuorumIntersection(c, t.signers, t.signers);
    assert !PathLog(After(Simple, c, steps), After(Simple, c, steps).replicas[i]);
  }

  /** A replica that then commits `x` and `y` ends with a log that is not the parent path. */
  lemma WrongPath(t: Tower)
    requires t.Valid() && !BlockChain.Lands(t.blocks, t.x, t.y)
    ensures var r := AfterCommit(t.blocks, Replica(t.b.view, t.z, t.x, [t.x]), t.y);
            r.executed != PathTo(t.blocks, r.bExec.hash)
  {
    assert PathTo(t.blocks, GENESIS_HASH) == [];
    assert PathTo(t.blocks, t.x.hash) == [t.x];
    CommitKeepsPath(t.blocks, t.blocks, Replica(t.b.view, t.z, t.x, [t.x]), t.y);
  }

  /** The last block executed has the largest hash. */
  lemma {:induction false} EndsInCommitted(chain: Chain, e: Block, g: Block)
    requires WellHashed(chain) && HashLinked(g) && g.view > e.view && ToExecute(chain, e, g).Some?
    ensures var todo := ToExecute(chain, e, g).value;
            todo != [] && todo[|todo| - 1] == g && forall k :: 0 <= k < |todo| - 1 ==> todo[k].hash < g.hash
    decreases g.hash
  {
    var p := chain[g.parent];
    if p.view > e.view {
      EndsInCommitted(chain, e, p);
    }
  }

  /** Executing from an older block executes what lies below where the walk ends as well. */
  lemma {:induction false} ExecutesThrough(chain: Chain, e: Block, low: Block, g: Block)
    requires WellHashed(chain) && BlockChain.Stored(chain, g) && low.view <= e.view
    requires BlockChain.Landing(chain, e.view, g).Some? && ToExecute(chain, low, g).Some?
    ensures var w := BlockChain.Landing(chain, e.view, g).value;
            && w in chain && ToExecute(chain, low, chain[w]).Some? && ToExecute(chain, e, g).Some?
            && ToExecute(chain, low, g).value == ToExecute(chain, low, chain[w]).value + ToExecute(chain, e, g).value
    decreases g.hash
  {
    if g.view > e.view {
      ExecutesThrough(chain, e, low, chain[g.parent]);
    }
  }

  /** If the walk from `y` finds all its blocks, and passes `x` by, then as soon as one replica can be
      faulty there is a run after which the logs of two correct replicas are in conflict: one that signed
      everything, and one that only handles `b`. */
  lemma LogsFork(c: Config, t: Tower, idle: ID) returns (steps: seq<Step>, busy: ID)
    requires t.Valid() && c.Valid() && c.n >= 4 && c.Honest(idle) && t.signers == c.Replicas() - {idle}
    requires !BlockChain.Lands(t.blocks, t.x, t.y) && BlockChain.Landing(t.blocks, 0, t.y).Some?
    ensures IsRun(Simple, c, steps) && After(Simple, c, steps).blocks == t.blocks
    ensures OthersLand(c, After(Simple, c, steps), t.y.hash)
    ensures c.Honest(busy) && c.Honest(idle) && |After(Simple, c, steps).replicas| == c.n
    ensures var s := After(Simple, c, steps);
            && ToExecute(t.blocks, t.x, t.y).Some? && ToExecute(t.blocks, GENESIS, t.y).Some?
            && s.replicas[busy].executed == [t.x] + ToExecute(t.blocks, t.x, t.y).value
            && s.replicas[idle].executed == ToExecute(t.blocks, GENESIS, t.y).value
            && !PrefixOrdered(s.replicas[busy].executed, s.replicas[idle].executed)
  {
    assert c.Replicas() == t.signers + {idle};
    busy := QuorumIntersection(c, t.signers, t.signers);
    steps := WithIdle(c, t, idle);
    ForkedLogs(t.blocks, t.x, t.y);
    Executed(t);
  }

  /** The signers commit `x` and then `y`, and the idle replica only `y`. */
  lemma WithIdle(c: Config, t: Tower, idle: ID) returns (steps: seq<Step>)
    requires t.Valid() && t.In(c).Valid() && c.Honest(idle) && idle !in t.signers
    ensures IsRun(Simple, c, steps) && After(Simple, c, steps).blocks == t.blocks
    ensures OthersLand(c, After(Simple, c, steps), t.y.hash)
    ensures var s := After(Simple, c, steps);
            && |s.replicas| == c.n && s.replicas[idle] == EndedIdle(t)
            && forall i :: i in t.signers && c.Honest(i) ==> i < c.n && s.replicas[i] == Ended(t)
  {
    var before := WholeRun(c, t);
    steps := IdleJoins(c, t, idle, before);
    OthersDoLand(c, t, After(Simple, c, steps), {Vote(idle, t.b.hash)});
  }

  lemma Executed(t: Tower)
    requires t.Valid() && ToExecute(t.blocks, t.x, t.y).Some? && ToExecute(t.blocks, GENESIS, t.y).Some?
    ensures Ended(t).executed == [t.x] + ToExecute(t.blocks, t.x, t.y).value
    ensures EndedIdle(t).executed == ToExecute(t.blocks, GENESIS, t.y).value
  {
    EndsInCommitted(t.blocks, t.x, t.y);
    EndsInCommitted(t.blocks, GENESIS, t.y);
    assert [] + ToExecute(t.blocks, GENESIS, t.y).value == ToExecute(t.blocks, GENESIS, t.y).value;
  }

  /** The replica that has done nothing so far handles `b`, and commits `y`. */
  lemma IdleJoins(c: Config, t: Tower, idle: ID, before: seq<Step>) returns (steps: seq<Step>)
    requires t.Valid() && t.In(c).Valid() && c.Honest(idle) && idle !in t.signers
    requires t.In(c).At(before, All(t), Ended(t))
    ensures IsRun(Simple, c, steps)
    ensures var s, s' := After(Simple, c, before), After(Simple, c, steps);
            && s'.blocks == t.blocks && s'.votes == Votes(t.signers, All(t)) + {Vote(idle, t.b.hash)}
            && s'.replicas == s.replicas[idle := EndedIdle(t)]
  {
    CertificateVerifies(t.In(c), All(t), NEW_REPLICA, t.b, After(Simple, c, before).votes);
    steps := Sign(Simple, c, before, idle, t.b);
    assert Then(Simple, t.blocks, NEW_REPLICA, t.b) == EndedIdle(t);
  }

  lemma ForkedLogs(blocks: Chain, x: Block, y: Block)
    requires WellHashed(blocks) && BlockChain.Stored(blocks, x) && BlockChain.Stored(blocks, y)
    requires y.cert.hash == x.hash && 0 < x.view < y.view
    requires !BlockChain.Lands(blocks, x, y) && BlockChain.Landing(blocks, 0, y).Some?
    ensures ToExecute(blocks, x, y).Some? && ToExecute(blocks, GENESIS, y).Some?
    ensures !PrefixOrdered([x] + ToExecute(blocks, x, y).value, ToExecute(blocks, GENESIS, y).value)
  {
    WalkIsPath(blocks, blocks, GENESIS, y);
    ExecutesThrough(blocks, x, GENESIS, y);
    var w := blocks[BlockChain.Landing(blocks, x.view, y).value];
    EndsInCommitted(blocks, x, y);
    EndsInCommitted(blocks, GENESIS, y);
    if w.view > 0 {
      EndsInCommitted(blocks, GENESIS, w);
    }
    NotOrdered([x], ToExecute(blocks, GENESIS, w).value, ToExecute(blocks, x, y).value, y);
  }

  /** Two logs with the same end, which occurs nowhere else in them, are ordered only if equal. */
  lemma NotOrdered(a: seq<Block>, b: seq<Block>, todo: seq<Block>, y: Block)
    requires a != b && todo != [] && todo[|todo| - 1] == y
    requires forall k :: 0 <= k < |a + todo| - 1 ==> (a + todo)[k] != y
    requires forall k :: 0 <= k < |b + todo| - 1 ==> (b + todo)[k] != y
    ensures !PrefixOrdered(a + todo, b + todo)
  {
    SameFront(a, b, todo);
    assert (a + todo)[|a + todo| - 1] == y && (b + todo)[|b + todo| - 1] == y;
  }

  // ---------------------------------------------------------------- one such run

  /** Replica 3 is faulty, and replica 1 idle. */
  const FOUR: Config := Config(4, {3})

  const SIGNERS: set<ID> := {0, 2, 3}

  function Above(hash: Hash, view: View, parent: Hash, on: Hash): Block {
    Block(hash, parent, QuorumCert(SIGNERS, 0, on), view, 3, "")
  }

  const X: Block := Above(2, 1, 1, 1)
  const Y: Block := Above(3, 2, 1, 2) // certifies X, but has genesis as its parent
  const Z: Block := Above(4, 3, 3, 3)
  const A: Block := Above(5, 4, 4, 4)
  const B: Block := Above(6, 5, 5, 5)
  const T: Tower := Tower(map[1 := GENESIS, 2 := X, 3 := Y, 4 := Z, 5 := A, 6 := B], SIGNERS, X, Y, Z, A, B)

  /** With one faulty replica of four, a correct replica that commits X and then Y executes both, and
      one that commits only Y executes Y alone. */
  lemma UnshapedBlockForksLogs() returns (steps: seq<Step>, busy: ID)
    ensures FOUR.Valid() && IsRun(Simple, FOUR, steps) && FOUR.Honest(busy) && FOUR.Honest(1)
    ensures var s := After(Simple, FOUR, steps);
            && |s.replicas| == 4 && s.replicas[busy].executed == [X, Y] && s.replicas[1].executed == [Y]
            && !PrefixOrdered(s.replicas[busy].executed, s.replicas[1].executed)
  {
    assert T.Valid();
    assert FOUR.Replicas() - {1} == SIGNERS;
    PassesBy();
    steps, busy := LogsFork(FOUR, T, 1);
  }

  lemma PassesBy()
    requires T.Valid()
    ensures !BlockChain.Lands(T.blocks, X, Y) && BlockChain.Landing(T.blocks, 0, Y).Some?
    ensures ToExecute(T.blocks, GENESIS, Y) == Some([Y]) && ToExecute(T.blocks, X, Y) == Some([Y])
    ensures [X] + [Y] == [X, Y]
  {
    assert T.blocks[1] == GENESIS;
    assert BlockChain.Landing(T.blocks, 1, GENESIS) == Some(1) && BlockChain.Landing(T.blocks, 0, GENESIS) == Some(1);
    assert ToExecute(T.blocks, GENESIS, GENESIS) == Some([]);
    assert ToExecute(T.blocks, X, GENESIS) == Some([]);
    assert [] + [Y] == [Y];
  }
}
