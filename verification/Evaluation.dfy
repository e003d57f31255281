/** One evaluation of a tree: the quorum latency, and the nodes left in order. */
module Evaluation {
  import opened Arithmetic
  import opened UniqueTrees
  import opened TreeCount
  import opened Score
  import opened Sorting
  import opened TreePasses
  import opened Symmetry
  import opened PathTimes

  function Ids(nodes: seq<Node>): (ids: seq<int>)
    ensures |ids| == |nodes|
  {
    seq(|nodes|, k requires 0 <= k < |nodes| => nodes[k].id)
  }

  /** The nodes after aggregation: the votes of each branch are with its internal node. */
  ghost predicate Scored(lat: Latencies, bf: nat, tree: seq<int>, nodes: seq<Node>)
    requires 0 < bf <= |tree|
  {
    && |nodes| == |tree| + 1
    && (forall k :: 0 < k <= bf ==> nodes[k] == Internal(lat, nodes[0].id, BranchAt(bf, tree, k - 1)))
    && (forall k :: 0 < k < |nodes| ==> nodes[k].id == tree[k - 1])
  }

  lemma ScoredInternals(lat: Latencies, bf: nat, tree: seq<int>, nodes: seq<Node>)
    requires 0 < bf <= |tree| && Scored(lat, bf, tree, nodes)
    ensures nodes[1..bf + 1] == Internals(lat, nodes[0].id, Branches(bf, tree))
  {
  }

  /** The collection loop at the root. */
  method CollectVotes(quorumSize: int, root: Node, internalNodes: seq<Node>) returns (t: int)
    requires root.votes == 1 && root.aggregated == 0
    ensures t == Collect(quorumSize, 0, 1, internalNodes)
  {
    var aggregated, votes := root.aggregated, root.votes;
    for i := 0 to |internalNodes|
      invariant Collect(quorumSize, aggregated, votes, internalNodes[i..]) == Collect(quorumSize, 0, 1, internalNodes)
    {
      if votes >= quorumSize {
        return aggregated;
      }
      assert internalNodes[i..][1..] == internalNodes[i + 1..];
      aggregated := Max(aggregated, internalNodes[i].delivered);
      votes := votes + internalNodes[i].votes;
    }
    return aggregated;
  }

  /** After sorting, the branches of the tree that the nodes spell out are those of `tree`, each
      with its votes, in order of delivery. */
  ghost predicate Realises(lat: Latencies, bf: nat, tree: seq<int>, nodes: seq<Node>)
    requires FullTree(bf, tree)
  {
    && |nodes| == |tree| + 1
    && var tree' := Ids(nodes)[1..];
    && Arrangement(tree, tree')
    && nodes[1..bf + 1] == Internals(lat, nodes[0].id, Branches(bf, tree'))
  }

  lemma GroupIds(bf: nat, nodes: seq<Node>, i: nat)
    requires bf > 0 && |nodes| == TreeSize(bf) && 0 < i <= bf
    ensures FullTree(bf, Ids(nodes)[1..])
    ensures BranchAt(bf, Ids(nodes)[1..], i - 1) == Branch(nodes[i].id, Ids(LeafGroup(bf, nodes, i)))
  {
    BranchShape(bf, Ids(nodes)[1..], i - 1);
    GroupInRange(bf, i);
    assert bf + bf * (i - 1) == bf * i;
    IdsOfSlice(nodes, bf * i, bf * i + bf);
  }

  lemma IdsOfSlice(nodes: seq<Node>, from: nat, to: nat)
    requires from <= to < |nodes|
    ensures Ids(nodes)[1..][from..to] == Ids(nodes[from + 1..to + 1])
  {
  }

  /** A node that moved from `f` to `t` still stands for the same branch. */
  lemma BranchMoved(lat: Latencies, bf: nat, tree: seq<int>, before: seq<Node>, after: seq<Node>, f: nat, t: nat)
    requires FullTree(bf, tree) && Scored(lat, bf, tree, before) && |after| == |before| == TreeSize(bf)
    requires LeavesFollow(bf, before, after, bf)
    requires 0 < f <= bf && 0 < t <= bf && after[t] == before[f]
    ensures FullTree(bf, Ids(after)[1..])
    ensures BranchAt(bf, Ids(after)[1..], t - 1) == BranchAt(bf, tree, f - 1)
  {
    GroupIds(bf, before, f);
    GroupIds(bf, after, t);
    assert Ids(before)[1..] == tree;
  }

  lemma BranchesPermuted(lat: Latencies, bf: nat, tree: seq<int>, before: seq<Node>, after: seq<Node>)
    requires FullTree(bf, tree) && Scored(lat, bf, tree, before) && Reordered(bf, before, after)
    ensures |after| == |tree| + 1 && FullTree(bf, Ids(after)[1..])
    ensures multiset(Branches(bf, Ids(after)[1..])) == multiset(Branches(bf, tree))
  {
    var bs, bo := Branches(bf, Ids(after)[1..]), Branches(bf, tree);
    forall t, f | 0 < t <= bf && 0 < f <= bf && after[t] == before[f] ensures bs[t - 1] == bo[f - 1] {
      SameBranch(lat, bf, tree, before, after, f, t);
    }
    TransportInternals(bf, after, before, bs, bo);
  }

  lemma SameBranch(lat: Latencies, bf: nat, tree: seq<int>, before: seq<Node>, after: seq<Node>, f: nat, t: nat)
    requires FullTree(bf, tree) && Scored(lat, bf, tree, before) && Reordered(bf, before, after)
    requires 0 < f <= bf && 0 < t <= bf && after[t] == before[f] && FullTree(bf, Ids(after)[1..])
    ensures Branches(bf, Ids(after)[1..])[t - 1] == Branches(bf, tree)[f - 1]
  {
    BranchMoved(lat, bf, tree, before, after, f, t);
  }

  lemma TransportInternals(bf: nat, s: seq<Node>, o: seq<Node>, bs: seq<Branch>, bo: seq<Branch>)
    requires bf < |s| && bf < |o| && |bs| == bf == |bo| && multiset(s[1..bf + 1]) == multiset(o[1..bf + 1])
    requires forall t, f :: 0 < t <= bf && 0 < f <= bf && s[t] == o[f] ==> bs[t - 1] == bo[f - 1]
    ensures multiset(bs) == multiset(bo)
  {
    var s', o' := s[1..bf + 1], o[1..bf + 1];
    assert forall t, f :: 0 <= t < bf && 0 <= f < bf && s'[t] == o'[f] ==> s[t + 1] == o[f + 1];
    Transport(s', o', bs, bo);
  }

  lemma StillInternal(lat: Latencies, bf: nat, tree: seq<int>, before: seq<Node>, after: seq<Node>, t: nat)
    requires FullTree(bf, tree) && Scored(lat, bf, tree, before) && Reordered(bf, before, after) && 0 < t <= bf
    ensures FullTree(bf, Ids(after)[1..])
    ensures after[t] == Internal(lat, after[0].id, BranchAt(bf, Ids(after)[1..], t - 1))
  {
    var f := CameFrom(bf, before, after, t);
    BranchMoved(lat, bf, tree, before, after, f, t);
  }

  lemma CameFrom(bf: nat, before: seq<Node>, after: seq<Node>, t: nat) returns (f: nat)
    requires bf < |before| == |after| && 0 < t <= bf
    requires multiset(after[1..bf + 1]) == multiset(before[1..bf + 1])
    ensures 0 < f <= bf && before[f] == after[t]
  {
    var s, o := after[1..bf + 1], before[1..bf + 1];
    assert s[t - 1] in multiset(s);
    assert s[t - 1] in o;
    var k :| 0 <= k < |o| && o[k] == s[t - 1];
    f := k + 1;
  }

  lemma ReorderedRealises(lat: Latencies, bf: nat, tree: seq<int>, before: seq<Node>, after: seq<Node>)
    requires FullTree(bf, tree) && Scored(lat, bf, tree, before) && Reordered(bf, before, after)
    ensures Realises(lat, bf, tree, after)
  {
    var tree' := Ids(after)[1..];
    BranchesPermuted(lat, bf, tree, before, after);
    forall x ensures multiset(tree')[x] == multiset(tree)[x] {
      OccursOfPermutation(Branches(bf, tree'), Branches(bf, tree), x);
      OccursInTree(bf, tree, x);
      OccursInTree(bf, tree', x);
    }
    forall t | 0 < t <= bf ensures after[t] == Internal(lat, after[0].id, BranchAt(bf, tree', t - 1)) {
      StillInternal(lat, bf, tree, before, after, t);
    }
  }

  lemma ScoredRealises(lat: Latencies, bf: nat, tree: seq<int>, nodes: seq<Node>)
    requires FullTree(bf, tree) && Scored(lat, bf, tree, nodes)
    ensures Realises(lat, bf, tree, nodes)
  {
    assert Ids(nodes)[1..] == tree;
    ScoredInternals(lat, bf, tree, nodes);
  }

  /** With sorting, returns the quorum latency of the tree, and for a full tree the nodes spell out
      a tree with that latency. Without, returns no less. */
  method QcLatency(lat: Latencies, quorumSize: int, branchFactor: nat, all: array<Node>, noSort: bool,
          ghost tree: seq<int>)
      returns (t: int)
    requires 0 < branchFactor <= |tree| && Distinct(tree) && Reset(all[..], tree) && NonNegative(lat)
    modifies all
    ensures all[0].id == old(all[0].id)
    ensures !noSort ==> LeastTime(lat, quorumSize, branchFactor, all[0].id, tree, t)
    ensures noSort ==> PrefixTime(lat, quorumSize, all[0].id, Branches(branchFactor, tree), t)
    ensures noSort ==> forall u :: LeastTime(lat, quorumSize, branchFactor, all[0].id, tree, u) ==> u <= t
    ensures FullTree(branchFactor, tree) ==> Realises(lat, branchFactor, tree, all[..])
    ensures FullTree(branchFactor, tree) && !noSort ==>
              LeastTime(lat, quorumSize, branchFactor, all[0].id, Ids(all[..])[1..], t)
  {
    var root := all[0];
    var bf := branchFactor;
    Disseminate(lat, bf, all, tree);
    ghost var informed := all[..];
    Aggregate(lat, bf, all, tree);
    ghost var before := all[..];
    AfterAggregation(lat, bf, tree, informed, before);
    if !noSort {
      OrderByLatency(bf, all);
    }
    ghost var after := all[..];
    if FullTree(bf, tree) {
      if noSort {
        ScoredRealises(lat, bf, tree, after);
      } else {
        ReorderedRealises(lat, bf, tree, before, after);
      }
    }
    t := CollectVotes(quorumSize, root, all[1..bf + 1]);
    assert all[1..bf + 1] == after[1..bf + 1];
    Verdict(lat, quorumSize, bf, tree, before, after, noSort, t);
    InPathTerms(lat, quorumSize, bf, tree, after, noSort, t);
  }

  lemma InPathTerms(lat: Latencies, quorum: int, bf: nat, tree: seq<int>, nodes: seq<Node>, noSort: bool, t: int)
    requires 0 < bf <= |tree| && NonNegative(lat) && |nodes| == |tree| + 1
    ensures var root := nodes[0].id;
            && (QcTime(lat, quorum, bf, root, tree, t) ==> LeastTime(lat, quorum, bf, root, tree, t))
            && (FullTree(bf, tree) && QcTime(lat, quorum, bf, root, Ids(nodes)[1..], t) ==>
                  LeastTime(lat, quorum, bf, root, Ids(nodes)[1..], t))
            && forall u :: LeastTime(lat, quorum, bf, root, tree, u) ==> QcTime(lat, quorum, bf, root, tree, u)
  {
    TimesAgree(lat, quorum, bf, nodes[0].id, tree, t);
    if FullTree(bf, tree) {
      TimesAgree(lat, quorum, bf, nodes[0].id, Ids(nodes)[1..], t);
    }
    forall u | LeastTime(lat, quorum, bf, nodes[0].id, tree, u) ensures QcTime(lat, quorum, bf, nodes[0].id, tree, u) {
      TimesAgree(lat, quorum, bf, nodes[0].id, tree, u);
    }
  }

  lemma AfterAggregation(lat: Latencies, bf: nat, tree: seq<int>, informed: seq<Node>, nodes: seq<Node>)
    requires 0 < bf <= |tree| && Distinct(tree) && InformedUpTo(lat, bf, tree, informed, bf, bf + bf * bf)
    requires |nodes| == |informed| && nodes[0] == informed[0]
    requires forall k :: 0 < k <= bf ==> nodes[k] == Internal(lat, nodes[0].id, BranchAt(bf, tree, k - 1))
    requires forall k :: bf < k < |nodes| ==> nodes[k] == informed[k]
    ensures Scored(lat, bf, tree, nodes) && InternalsDistinct(bf, nodes)
  {
    forall a, b | 0 < a < b <= bf ensures nodes[a] != nodes[b] {
      assert nodes[a].id == tree[a - 1] && nodes[b].id == tree[b - 1];
    }
  }

  lemma Verdict(lat: Latencies, quorum: int, bf: nat, tree: seq<int>, before: seq<Node>, after: seq<Node>,
          noSort: bool, t: int)
    requires 0 < bf <= |tree| && Scored(lat, bf, tree, before) && NonNegative(lat)
    requires if noSort then after == before else Reordered(bf, before, after)
    requires t == Collect(quorum, 0, 1, after[1..bf + 1])
    ensures !noSort ==> QcTime(lat, quorum, bf, after[0].id, tree, t)
    ensures !noSort && FullTree(bf, tree) && Realises(lat, bf, tree, after) ==>
              QcTime(lat, quorum, bf, after[0].id, Ids(after)[1..], t)
    ensures noSort ==> forall u :: QcTime(lat, quorum, bf, after[0].id, tree, u) ==> u <= t
    ensures noSort ==> PrefixTime(lat, quorum, after[0].id, Branches(bf, tree), t)
  {
    var given, internals := Internals(lat, before[0].id, Branches(bf, tree)), after[1..bf + 1];
    InternalsAreProper(lat, before[0].id, Branches(bf, tree));
    ScoredInternals(lat, bf, tree, before);
    if noSort {
      forall u | EarliestQuorum(quorum, given, u) ensures u <= t {
        CollectAll(quorum, given);
      }
      CollectIsPrefix(lat, quorum, before[0].id, Branches(bf, tree));
    } else {
      PermutedIsProper(given, internals);
      SortedCollectIsEarliest(quorum, internals);
      EarliestOfPermutation(quorum, internals, given, t);
    }
  }

  lemma PermutedIsProper(a: seq<Node>, b: seq<Node>)
    requires Proper(a) && multiset(a) == multiset(b)
    ensures Proper(b)
  {
    forall k | 0 <= k < |b| ensures b[k] in a {
      assert b[k] in multiset(b);
    }
  }
}
