/** The quorum latency in terms of the paths that messages take: from the root to an internal node, on to
    a leaf, back to the internal node, and back to the root. */
module PathTimes {
  import opened Arithmetic
  import opened Score
  import opened Sorting
  import opened TreePasses
  import opened Symmetry

  ghost predicate NonNegative(lat: Latencies) {
    forall a, b :: lat(a, b) >= 0
  }

  /** By time `t` the votes of the branch can be at the root: the path of its head, and the path of each of
      its leaves through the head, take no longer. */
  ghost predicate InTime(lat: Latencies, root: int, b: Branch, t: int) {
    && lat(root, b.head) + lat(b.head, root) <= t
    && forall k :: 0 <= k < |b.leaves| ==>
         lat(root, b.head) + lat(b.head, b.leaves[k]) + lat(b.leaves[k], b.head) + lat(b.head, root) <= t
  }

  /** A branch is delivered at the root as soon as its longest path has been taken, with a vote of each of
      its nodes. */
  lemma DeliveryIsLongestPath(lat: Latencies, root: int, b: Branch, t: int)
    ensures Internal(lat, root, b).delivered <= t <==> InTime(lat, root, b, t)
    ensures var d := Internal(lat, root, b).delivered;
            || d == lat(root, b.head) + lat(b.head, root)
            || exists k :: 0 <= k < |b.leaves| &&
                 d == lat(root, b.head) + lat(b.head, b.leaves[k]) + lat(b.leaves[k], b.head) + lat(b.head, root)
    ensures Internal(lat, root, b).id == b.head && Internal(lat, root, b).votes == 1 + |b.leaves|
  {
    GatheredIsLongest(lat, b.head, lat(root, b.head), b.leaves);
  }

  lemma {:induction false} GatheredIsLongest(lat: Latencies, head: int, start: int, leaves: seq<int>)
    ensures var g := Gathered(lat, head, start, leaves);
            && g >= start
            && (forall k :: 0 <= k < |leaves| ==> g >= start + lat(head, leaves[k]) + lat(leaves[k], head))
            && (|| g == start
                || exists k :: 0 <= k < |leaves| && g == start + lat(head, leaves[k]) + lat(leaves[k], head))
  {
    if leaves != [] {
      var m := |leaves| - 1;
      var rest := leaves[..m];
      GatheredIsLongest(lat, head, start, rest);
      assert forall k :: 0 <= k < m ==> rest[k] == leaves[k];
      assert leaves[m] == leaves[|leaves| - 1];
    }
  }

  /** The leaves of a branch: consecutive positions of the tree, `bf` of them or as many as there are. */
  lemma BranchShapeAny(bf: nat, tree: seq<int>, i: nat)
    requires i < bf <= |tree|
    ensures var b := BranchAt(bf, tree, i);
            && b.head == tree[i]
            && (forall j :: 0 <= j < |b.leaves| ==>
                  bf + bf * i + j < |tree| && b.leaves[j] == tree[bf + bf * i + j])
            && |b.leaves| == if bf + bf * i + bf <= |tree| then bf
                             else if bf + bf * i <= |tree| then |tree| - (bf + bf * i) else 0
  {
    assert bf * (i + 1) == bf * i + bf;
  }

  // ---------------------------------------------------------------- the quorum

  /** The votes of the branches that are at the root by time `t`. */
  ghost function VotesInTime(lat: Latencies, root: int, bs: seq<Branch>, t: int): nat {
    if bs == [] then 0
    else (if InTime(lat, root, bs[0], t) then 1 + |bs[0].leaves| else 0) + VotesInTime(lat, root, bs[1..], t)
  }

  function AllVotes(bs: seq<Branch>): nat {
    if bs == [] then 0 else 1 + |bs[0].leaves| + AllVotes(bs[1..])
  }

  /** The least time by which the root's own vote and those that can be there make a quorum, or are all
      that there are. */
  ghost predicate LeastTime(lat: Latencies, quorum: int, bf: nat, root: int, tree: seq<int>, t: int)
    requires 0 < bf <= |tree|
  {
    var bs := Branches(bf, tree);
    && t >= 0 && Enough(lat, quorum, root, bs, t)
    && forall u :: 0 <= u < t ==> !Enough(lat, quorum, root, bs, u)
  }

  ghost predicate Enough(lat: Latencies, quorum: int, root: int, bs: seq<Branch>, t: int) {
    VotesInTime(lat, root, bs, t) == AllVotes(bs) || 1 + VotesInTime(lat, root, bs, t) >= quorum
  }

  lemma {:induction false} VotesAre(lat: Latencies, root: int, bs: seq<Branch>, t: int)
    ensures VotesBy(Internals(lat, root, bs), t) == VotesInTime(lat, root, bs, t)
    ensures TotalVotes(Internals(lat, root, bs)) == AllVotes(bs)
  {
    if bs != [] {
      VotesAre(lat, root, bs[1..], t);
      assert Internals(lat, root, bs)[1..] == Internals(lat, root, bs[1..]);
      DeliveryIsLongestPath(lat, root, bs[0], t);
    }
  }

  lemma InternalsAreProper(lat: Latencies, root: int, bs: seq<Branch>)
    requires NonNegative(lat)
    ensures Proper(Internals(lat, root, bs))
  {
    forall k | 0 <= k < |bs| ensures Internal(lat, root, bs[k]).delivered >= 0 {
      GatheredIsLongest(lat, bs[k].head, lat(root, bs[k].head), bs[k].leaves);
    }
  }

  /** All votes are there exactly from the last delivery on. */
  lemma {:induction false} AllByLast(nodes: seq<Node>, u: int)
    requires Proper(nodes) && u >= 0
    ensures VotesBy(nodes, u) == TotalVotes(nodes) <==> LastDelivery(nodes) <= u
  {
    if nodes != [] {
      AllByLast(nodes[1..], u);
      VotesByBounds(nodes[1..], u);
    }
  }

  /** The quorum latency is the least time in terms of paths. */
  lemma TimesAgree(lat: Latencies, quorum: int, bf: nat, root: int, tree: seq<int>, t: int)
    requires 0 < bf <= |tree| && NonNegative(lat)
    ensures QcTime(lat, quorum, bf, root, tree, t) <==> LeastTime(lat, quorum, bf, root, tree, t)
  {
    var bs := Branches(bf, tree);
    var nodes := Internals(lat, root, bs);
    InternalsAreProper(lat, root, bs);
    LastDeliveryBounds(nodes);
    VotesAre(lat, root, bs, t);
    forall u | u >= 0
      ensures Enough(lat, quorum, root, bs, u) <==>
              if 1 + TotalVotes(nodes) >= quorum then 1 + VotesBy(nodes, u) >= quorum else LastDelivery(nodes) <= u
    {
      VotesAre(lat, root, bs, u);
      AllByLast(nodes, u);
      VotesByBounds(nodes, u);
    }
    if 1 + TotalVotes(nodes) < quorum {
      assert Enough(lat, quorum, root, bs, LastDelivery(nodes));
    }
  }

  /** There is such a time. */
  lemma LeastExists(lat: Latencies, quorum: int, bf: nat, root: int, tree: seq<int>) returns (t: int)
    requires 0 < bf <= |tree| && NonNegative(lat)
    ensures LeastTime(lat, quorum, bf, root, tree, t)
  {
    var nodes := Internals(lat, root, Branches(bf, tree));
    var key := (n: Node) => n.delivered;
    var sorted := SortBy(key, nodes);
    SortKeeps(key, nodes);
    InternalsAreProper(lat, root, Branches(bf, tree));
    assert Proper(sorted) by {
      forall k | 0 <= k < |sorted| ensures sorted[k] in nodes {
        assert sorted[k] in multiset(sorted);
      }
    }
    t := Collect(quorum, 0, 1, sorted);
    SortedCollectIsEarliest(quorum, sorted);
    EarliestOfPermutation(quorum, sorted, nodes, t);
    TimesAgree(lat, quorum, bf, root, tree, t);
  }

  /** With latencies of at most a quarter of `limit` all votes are there by `limit`. */
  lemma {:induction false} AllInTime(lat: Latencies, root: int, bs: seq<Branch>, limit: int)
    requires forall a, b :: 4 * lat(a, b) <= limit
    requires limit >= 0
    ensures VotesInTime(lat, root, bs, limit) == AllVotes(bs)
  {
    if bs != [] {
      AllInTime(lat, root, bs[1..], limit);
      var b := bs[0];
      assert 4 * lat(root, b.head) <= limit && 4 * lat(b.head, root) <= limit;
      forall k | 0 <= k < |b.leaves|
        ensures lat(root, b.head) + lat(b.head, b.leaves[k]) + lat(b.leaves[k], b.head) + lat(b.head, root) <= limit
      {
        assert 4 * lat(b.head, b.leaves[k]) <= limit && 4 * lat(b.leaves[k], b.head) <= limit;
      }
    }
  }

  lemma SmallLatencies(lat: Latencies, quorum: int, bf: nat, root: int, tree: seq<int>, limit: int, t: int)
    requires 0 < bf <= |tree| && limit >= 0 && forall a, b :: 4 * lat(a, b) <= limit
    requires LeastTime(lat, quorum, bf, root, tree, t)
    ensures t <= limit
  {
    AllInTime(lat, root, Branches(bf, tree), limit);
    assert Enough(lat, quorum, root, Branches(bf, tree), limit);
  }

  // ---------------------------------------------------------------- without sorting

  /** The least time by which the first branches that together make a quorum, or all of them, are in time. */
  ghost predicate PrefixTime(lat: Latencies, quorum: int, root: int, bs: seq<Branch>, t: int) {
    exists m :: PrefixTimeAt(lat, quorum, root, bs, t, m)
  }

  ghost predicate PrefixTimeAt(lat: Latencies, quorum: int, root: int, bs: seq<Branch>, t: int, m: nat) {
    && m <= |bs| && (m == |bs| || 1 + AllVotes(bs[..m]) >= quorum)
    && (forall j :: 0 <= j < m ==> 1 + AllVotes(bs[..j]) < quorum)
    && t >= 0 && VotesInTime(lat, root, bs[..m], t) == AllVotes(bs[..m])
    && forall u :: 0 <= u < t ==> VotesInTime(lat, root, bs[..m], u) < AllVotes(bs[..m])
  }

  /** The collection loop takes nodes up to the first that make a quorum, and waits for the last of them. */
  lemma {:induction false} CollectStops(quorum: int, nodes: seq<Node>, done: nat) returns (m: nat)
    requires done <= |nodes| && forall j :: 0 <= j < done ==> 1 + TotalVotes(nodes[..j]) < quorum
    ensures m <= |nodes| && (m == |nodes| || 1 + TotalVotes(nodes[..m]) >= quorum)
    ensures forall j :: 0 <= j < m ==> 1 + TotalVotes(nodes[..j]) < quorum
    ensures Collect(quorum, LastDelivery(nodes[..done]), 1 + TotalVotes(nodes[..done]), nodes[done..])
              == LastDelivery(nodes[..m])
    decreases |nodes| - done
  {
    if done == |nodes| || 1 + TotalVotes(nodes[..done]) >= quorum {
      m := done;
    } else {
      assert nodes[..done + 1] == nodes[..done] + [nodes[done]];
      VotesByAppend(nodes[..done], [nodes[done]], 0);
      LastDeliveryBounds(nodes[..done]);
      assert nodes[done..][1..] == nodes[done + 1..];
      m := CollectStops(quorum, nodes, done + 1);
    }
  }

  lemma CollectIsPrefix(lat: Latencies, quorum: int, root: int, bs: seq<Branch>)
    requires NonNegative(lat)
    ensures PrefixTime(lat, quorum, root, bs, Collect(quorum, 0, 1, Internals(lat, root, bs)))
  {
    var nodes := Internals(lat, root, bs);
    assert nodes[..0] == [] && nodes[0..] == nodes;
    var m := CollectStops(quorum, nodes, 0);
    var t := Collect(quorum, 0, 1, nodes);
    forall j | 0 <= j <= |bs| ensures AllVotes(bs[..j]) == TotalVotes(nodes[..j]) {
      assert nodes[..j] == Internals(lat, root, bs[..j]);
      VotesAre(lat, root, bs[..j], 0);
    }
    PrefixIs(lat, root, bs, m, t);
    assert PrefixTimeAt(lat, quorum, root, bs, t, m);
  }

  lemma PrefixIs(lat: Latencies, root: int, bs: seq<Branch>, m: nat, t: int)
    requires NonNegative(lat) && m <= |bs| && t == LastDelivery(Internals(lat, root, bs)[..m])
    ensures t >= 0 && VotesInTime(lat, root, bs[..m], t) == AllVotes(bs[..m])
    ensures forall u :: 0 <= u < t ==> VotesInTime(lat, root, bs[..m], u) < AllVotes(bs[..m])
  {
    var nodes := Internals(lat, root, bs[..m]);
    assert Internals(lat, root, bs)[..m] == nodes;
    InternalsAreProper(lat, root, bs[..m]);
    LastDeliveryBounds(nodes);
    forall u | u >= 0
      ensures VotesInTime(lat, root, bs[..m], u) <= AllVotes(bs[..m])
      ensures VotesInTime(lat, root, bs[..m], u) < AllVotes(bs[..m]) <==> u < t
    {
      VotesAre(lat, root, bs[..m], u);
      AllByLast(nodes, u);
      VotesByBounds(nodes, u);
    }
  }
}
