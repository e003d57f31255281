/** The twins test's verdict on the executed logs. */
module CheckCommits {
  import opened HotStuff
  import opened Quorum
  import opened Consensus
  import opened Protocol
  import opened Invariant
  import opened Agreement
  import opened Logs
  import opened LogCondition
  import BlockChain

  /** The logs of the nodes of one replica; a replica with twins has more than one node. */
  type Nodes = seq<seq<Hash>>

  /** The replicas that count are those without twins. */
  predicate Single(nodes: Nodes) {
    |nodes| == 1
  }

  /** Some counted replica has `h` at position `i` of its log. */
  ghost predicate At(replicas: seq<Nodes>, i: nat, h: Hash) {
    exists j :: 0 <= j < |replicas| && Single(replicas[j]) && i < |replicas[j][0]| && replicas[j][0][i] == h
  }

  ghost predicate SomeAt(replicas: seq<Nodes>, i: nat) {
    exists h :: At(replicas, i, h)
  }

  /** No two counted logs have different blocks at position `i`. */
  ghost predicate AgreeAt(replicas: seq<Nodes>, i: nat) {
    forall h1, h2 :: At(replicas, i, h1) && At(replicas, i, h2) ==> h1 == h2
  }

  ghost predicate PairwisePrefixes(replicas: seq<Nodes>) {
    forall j, k :: 0 <= j < |replicas| && 0 <= k < |replicas| && Single(replicas[j]) && Single(replicas[k]) ==>
                     PrefixOrdered(replicas[j][0], replicas[k][0])
  }

  lemma PrefixesAgree(replicas: seq<Nodes>, i: nat)
    requires PairwisePrefixes(replicas)
    ensures AgreeAt(replicas, i)
  {
  }

  lemma AgreementMakesPrefixes(replicas: seq<Nodes>)
    requires forall i: nat :: AgreeAt(replicas, i)
    ensures PairwisePrefixes(replicas)
  {
    forall j, k | 0 <= j < |replicas| && 0 <= k < |replicas| && Single(replicas[j]) && Single(replicas[k])
      ensures PrefixOrdered(replicas[j][0], replicas[k][0])
    {
      var a, b := replicas[j][0], replicas[k][0];
      forall i: nat | i < |a| && i < |b| ensures a[i] == b[i] {
        assert At(replicas, i, a[i]) && At(replicas, i, b[i]) && AgreeAt(replicas, i);
      }
    }
  }

  /** Safe exactly when the counted logs are pairwise prefixes. `commits` is then the length of the
      longest one, and otherwise the first position where two logs differ. */
  method Check(replicas: seq<Nodes>) returns (safe: bool, commits: nat)
    ensures safe <==> PairwisePrefixes(replicas)
    ensures safe <==> forall j, k ::
              0 <= j < |replicas| && 0 <= k < |replicas| && |replicas[j]| == 1 && |replicas[k]| == 1 ==>
                replicas[j][0] <= replicas[k][0] || replicas[k][0] <= replicas[j][0]
    ensures forall i: nat :: i < commits ==> AgreeAt(replicas, i) && SomeAt(replicas, i)
    ensures safe ==> forall h :: !At(replicas, commits, h)
    ensures !safe ==> !AgreeAt(replicas, commits)
  {
    var i: nat := 0;
    ghost var longest := Longest(replicas);
    while true
      invariant forall k: nat :: k < i ==> AgreeAt(replicas, k) && SomeAt(replicas, k)
      invariant i <= longest
      decreases longest - i
    {
      var noCommits := true;
      var commitCount: map<Hash, int> := map[];
      for j := 0 to |replicas|
        invariant forall h :: h in commitCount <==>
                    exists k :: 0 <= k < j && Single(replicas[k]) && i < |replicas[k][0]| && replicas[k][0][i] == h
        invariant noCommits <==> commitCount == map[]
      {
        var replica := replicas[j];
        if |replica| != 1 {
          continue;
        }
        if |replica[0]| <= i {
          continue;
        }
        var h := replica[0][i];
        commitCount := commitCount[h := (if h in commitCount then commitCount[h] else 0) + 1];
        noCommits := false;
      }
      assert forall h :: h in commitCount <==> At(replicas, i, h);
      if noCommits {
        forall k: nat ensures AgreeAt(replicas, k) {
          NothingBeyond(replicas, i, k);
        }
        AgreementMakesPrefixes(replicas);
        return true, i;
      }
      var some :| some in commitCount;
      assert At(replicas, i, some);
      OneKey(commitCount);
      if |commitCount| != 1 {
        if PairwisePrefixes(replicas) {
          PrefixesAgree(replicas, i);
        }
        return false, i;
      }
      i := i + 1;
    }
  }

  lemma OneKey(m: map<Hash, int>)
    requires m != map[]
    ensures |m| == 1 <==> forall a, b :: a in m && b in m ==> a == b
  {
    var a :| a in m;
    if forall b :: b in m ==> a == b {
      assert m.Keys == {a};
    } else {
      var b :| b in m && a != b;
      SubsetSize({a, b}, m.Keys);
    }
  }

  lemma NothingBeyond(replicas: seq<Nodes>, i: nat, k: nat)
    requires forall h :: !At(replicas, i, h)
    requires forall k: nat :: k < i ==> AgreeAt(replicas, k)
    ensures AgreeAt(replicas, k)
  {
    if k > i {
      forall h ensures !At(replicas, k, h) {
        if At(replicas, k, h) {
          var j :| 0 <= j < |replicas| && Single(replicas[j]) && k < |replicas[j][0]| && replicas[j][0][k] == h;
          assert At(replicas, i, replicas[j][0][i]);
        }
      }
    }
  }

  /** No log is longer. */
  ghost function Longest(replicas: seq<Nodes>): (n: nat)
    ensures forall i: nat, h :: At(replicas, i, h) ==> i < n
  {
    if replicas == [] then 0
    else
      var rest := replicas[..|replicas| - 1];
      var last := replicas[|replicas| - 1];
      var n := Longest(rest);
      assert forall i: nat, h :: At(replicas, i, h) ==> At(rest, i, h) || (Single(last) && i < |last[0]|);
      if Single(last) && |last[0]| > n then |last[0]| else n
  }

  function Hashes(blocks: seq<Block>): seq<Hash> {
    seq(|blocks|, k requires 0 <= k < |blocks| => blocks[k].hash)
  }

  /** The executed logs of some replicas without twins. */
  ghost function LogsOf(s: State, ids: seq<ID>): seq<Nodes>
    requires forall k :: 0 <= k < |ids| ==> ids[k] < |s.replicas|
  {
    seq(|ids|, k requires 0 <= k < |ids| => [Hashes(s.replicas[ids[k]].executed)])
  }

  lemma SameHashesSameBlocks(blocks: Chain, g: Hash, h: Hash)
    requires WellHashed(blocks)
    ensures Hashes(PathTo(blocks, g)) <= Hashes(PathTo(blocks, h)) <==> PathTo(blocks, g) <= PathTo(blocks, h)
  {
    var a, b := PathTo(blocks, g), PathTo(blocks, h);
    PathIsStored(blocks, g);
    PathIsStored(blocks, h);
    if Hashes(a) <= Hashes(b) {
      forall k | 0 <= k < |a| ensures a[k] == b[k] {
        assert Hashes(a)[k] == Hashes(b)[k];
      }
    }
  }

  lemma {:induction false} PathIsStored(blocks: Chain, h: Hash)
    requires WellHashed(blocks)
    ensures forall b :: b in PathTo(blocks, h) ==> BlockChain.Stored(blocks, b)
    decreases h
  {
    if h != GENESIS_HASH && h in blocks {
      PathIsStored(blocks, blocks[h].parent);
    }
  }

  /** Logs that are parent paths pass the check if and only if the last blocks executed lie on one
      branch, pair by pair. */
  lemma PassExactly(c: Config, s: State, ids: seq<ID>)
    requires PathLogs(c, s) && forall k :: 0 <= k < |ids| ==> c.Honest(ids[k])
    ensures PairwisePrefixes(LogsOf(s, ids)) <==>
            forall j, k :: 0 <= j < |ids| && 0 <= k < |ids| ==>
                OnOneBranch(s.blocks, s.replicas[ids[j]].bExec.hash, s.replicas[ids[k]].bExec.hash)
  {
    var logs := LogsOf(s, ids);
    forall j, k | 0 <= j < |ids| && 0 <= k < |ids|
      ensures PrefixOrdered(logs[j][0], logs[k][0]) <==>
              OnOneBranch(s.blocks, s.replicas[ids[j]].bExec.hash, s.replicas[ids[k]].bExec.hash)
    {
      PairPasses(s, s.replicas[ids[j]], s.replicas[ids[k]]);
    }
    if PairwisePrefixes(logs) {
      forall j, k | 0 <= j < |ids| && 0 <= k < |ids|
        ensures OnOneBranch(s.blocks, s.replicas[ids[j]].bExec.hash, s.replicas[ids[k]].bExec.hash)
      {
        assert Single(logs[j]) && Single(logs[k]);
      }
    }
  }

  lemma PairPasses(s: State, q: Replica, r: Replica)
    requires WellHashed(s.blocks) && PathLog(s, q) && PathLog(s, r)
    ensures PrefixOrdered(Hashes(q.executed), Hashes(r.executed)) <==> OnOneBranch(s.blocks, q.bExec.hash, r.bExec.hash)
  {
    SameHashesSameBlocks(s.blocks, q.bExec.hash, r.bExec.hash);
    SameHashesSameBlocks(s.blocks, r.bExec.hash, q.bExec.hash);
    PathIsPrefix(s.blocks, q.bExec.hash, r.bExec.hash);
    PathIsPrefix(s.blocks, r.bExec.hash, q.bExec.hash);
  }

  /** The logs of correct replicas pass the check after every run, of either rule set, whose commits walk
      down to what was executed last and join what the others executed. */
  lemma CorrectLogsPass(rules: RuleSet, c: Config, steps: seq<Step>, ids: seq<ID>)
    requires c.Valid() && IsRun(rules, c, steps) && AlwaysLands(rules, c, steps) && AlwaysJoins(rules, c, steps)
    requires forall k :: 0 <= k < |ids| ==> c.Honest(ids[k]) && ids[k] < |After(rules, c, steps).replicas|
    ensures PairwisePrefixes(LogsOf(After(rules, c, steps), ids))
  {
    var s := After(rules, c, steps);
    FollowExactly(rules, c, steps);
    forall j, k | 0 <= j < |ids| && 0 <= k < |ids|
      ensures PrefixOrdered(Hashes(s.replicas[ids[j]].executed), Hashes(s.replicas[ids[k]].executed))
    {
      assert PrefixOrdered(s.replicas[ids[j]].executed, s.replicas[ids[k]].executed);
    }
  }
}
