/** The latency of collecting a quorum certificate over a tree of height two. */
module Score {
  import opened Arithmetic
  import opened TreeCount
  import opened Sorting

  /** The latency from one node to another. */
  type Latencies = (int, int) -> int

  datatype Node = Node(id: int, votes: int, disseminated: int, aggregated: int, delivered: int)

  // ---------------------------------------------------------------- what the tree stands for

  /** An internal node and the leaves below it. */
  datatype Branch = Branch(head: int, leaves: seq<int>)

  /** Where the leaves of internal node `i` start among `size` non-root nodes. */
  function LeafStart(bf: nat, i: nat, size: nat): nat {
    Min(bf * i + bf, size)
  }

  function BranchAt(bf: nat, tree: seq<int>, i: nat): Branch
    requires bf <= |tree| && i < bf
  {
    assert bf * (i + 1) == bf * i + bf;
    Branch(tree[i], tree[LeafStart(bf, i, |tree|)..LeafStart(bf, i + 1, |tree|)])
  }

  /** `tree` lists the internal nodes, then the leaves of each in turn. */
  function Branches(bf: nat, tree: seq<int>): (bs: seq<Branch>)
    requires bf <= |tree|
    ensures |bs| == bf
  {
    seq(bf, i requires 0 <= i < bf => BranchAt(bf, tree, i))
  }

  /** When `head`, which has the proposal at `start`, has the votes of `leaves`. */
  function Gathered(lat: Latencies, head: int, start: int, leaves: seq<int>): int {
    if leaves == [] then start
    else
      var leaf := leaves[|leaves| - 1];
      Max(Gathered(lat, head, start, leaves[..|leaves| - 1]), start + lat(head, leaf) + lat(leaf, head))
  }

  /** The internal node of a branch once its votes have reached the root. */
  function Internal(lat: Latencies, root: int, b: Branch): Node {
    var start := lat(root, b.head);
    var gathered := Gathered(lat, b.head, start, b.leaves);
    Node(b.head, 1 + |b.leaves|, start, gathered, gathered + lat(b.head, root))
  }

  function Internals(lat: Latencies, root: int, bs: seq<Branch>): (ns: seq<Node>)
    ensures |ns| == |bs|
  {
    seq(|bs|, i requires 0 <= i < |bs| => Internal(lat, root, bs[i]))
  }

  // ---------------------------------------------------------------- the earliest quorum time

  function Weight(n: Node, t: int): int {
    if n.delivered <= t then n.votes else 0
  }

  /** The votes of the internal nodes delivered at the root by time `t`. */
  function VotesBy(nodes: seq<Node>, t: int): int {
    if nodes == [] then 0 else Weight(nodes[0], t) + VotesBy(nodes[1..], t)
  }

  function TotalVotes(nodes: seq<Node>): int {
    if nodes == [] then 0 else nodes[0].votes + TotalVotes(nodes[1..])
  }

  function LastDelivery(nodes: seq<Node>): int {
    if nodes == [] then 0 else Max(nodes[0].delivered, LastDelivery(nodes[1..]))
  }

  /** By time `t`, and not before, the root's own vote and those delivered make a quorum; when they
      never do, `t` is the last delivery. */
  ghost predicate EarliestQuorum(quorum: int, nodes: seq<Node>, t: int) {
    if 1 + TotalVotes(nodes) >= quorum then
      && t >= 0 && 1 + VotesBy(nodes, t) >= quorum
      && forall u :: 0 <= u < t ==> 1 + VotesBy(nodes, u) < quorum
    else t == LastDelivery(nodes)
  }

  lemma EarliestIsUnique(quorum: int, nodes: seq<Node>, t: int, u: int)
    requires EarliestQuorum(quorum, nodes, t) && EarliestQuorum(quorum, nodes, u)
    ensures t == u
  {
  }

  ghost predicate Proper(nodes: seq<Node>) {
    forall k :: 0 <= k < |nodes| ==> nodes[k].votes > 0 && nodes[k].delivered >= 0
  }

  ghost predicate Sorted(nodes: seq<Node>) {
    forall a, b :: 0 <= a < b < |nodes| ==> nodes[a].delivered <= nodes[b].delivered
  }

  /** The collection loop, from what the root has on. */
  function Collect(quorum: int, time: int, votes: int, nodes: seq<Node>): int
    decreases |nodes|
  {
    if nodes == [] || votes >= quorum then time
    else Collect(quorum, Max(time, nodes[0].delivered), votes + nodes[0].votes, nodes[1..])
  }

  lemma {:induction false} VotesByAll(nodes: seq<Node>, t: int)
    requires Proper(nodes) && forall k :: 0 <= k < |nodes| ==> nodes[k].delivered <= t
    ensures VotesBy(nodes, t) == TotalVotes(nodes)
  {
    if nodes != [] {
      VotesByAll(nodes[1..], t);
    }
  }

  lemma {:induction false} VotesByBounds(nodes: seq<Node>, t: int)
    requires Proper(nodes)
    ensures 0 <= VotesBy(nodes, t) <= TotalVotes(nodes)
    ensures (forall k :: 0 <= k < |nodes| ==> nodes[k].delivered > t) ==> VotesBy(nodes, t) == 0
  {
    if nodes != [] {
      VotesByBounds(nodes[1..], t);
    }
  }

  lemma {:induction false} VotesByAppend(a: seq<Node>, b: seq<Node>, t: int)
    ensures VotesBy(a + b, t) == VotesBy(a, t) + VotesBy(b, t)
    ensures TotalVotes(a + b) == TotalVotes(a) + TotalVotes(b)
    ensures LastDelivery(a + b) == Max(LastDelivery(a), LastDelivery(b))
  {
    LastDeliveryBounds(b);
    if a == [] {
      assert a + b == b;
    } else {
      assert (a + b)[1..] == a[1..] + b;
      VotesByAppend(a[1..], b, t);
    }
  }

  lemma {:induction false} LastDeliveryBounds(nodes: seq<Node>)
    ensures forall k :: 0 <= k < |nodes| ==> nodes[k].delivered <= LastDelivery(nodes)
    ensures LastDelivery(nodes) >= 0
  {
    if nodes != [] {
      LastDeliveryBounds(nodes[1..]);
    }
  }

  /** Whatever the order, the loop stops no earlier than the quorum is there. */
  lemma {:induction false} CollectReaches(quorum: int, done: seq<Node>, rest: seq<Node>)
    requires Proper(done + rest)
    ensures var t := Collect(quorum, LastDelivery(done), 1 + TotalVotes(done), rest);
            && t >= 0
            && (1 + TotalVotes(done + rest) >= quorum ==> 1 + VotesBy(done + rest, t) >= quorum)
            && (1 + TotalVotes(done + rest) < quorum ==> t == LastDelivery(done + rest))
    decreases |rest|
  {
    var t := Collect(quorum, LastDelivery(done), 1 + TotalVotes(done), rest);
    LastDeliveryBounds(done);
    VotesByAppend(done, rest, LastDelivery(done));
    assert Proper(done) && Proper(rest) by {
      assert forall k :: 0 <= k < |done| ==> (done + rest)[k] == done[k];
      assert forall k :: 0 <= k < |rest| ==> (done + rest)[|done| + k] == rest[k];
    }
    VotesByAll(done, LastDelivery(done));
    VotesByBounds(rest, LastDelivery(done));
    if rest == [] {
      assert done + rest == done;
    } else if 1 + TotalVotes(done) < quorum {
      var done' := done + [rest[0]];
      assert done' + rest[1..] == done + rest;
      VotesByAppend(done, [rest[0]], 0);
      assert rest[0].delivered >= 0;
      CollectReaches(quorum, done', rest[1..]);
    }
  }

  /** Before the `m`-th node in order of delivery arrives, only the votes of those before it count. */
  lemma {:induction false} BeforeDelivery(nodes: seq<Node>, m: nat, u: int)
    requires Proper(nodes) && Sorted(nodes) && m < |nodes| && u < nodes[m].delivered
    ensures VotesBy(nodes, u) <= TotalVotes(nodes[..m])
  {
    if m == 0 {
      VotesByBounds(nodes, u);
    } else {
      assert nodes[..m][1..] == nodes[1..][..m - 1];
      BeforeDelivery(nodes[1..], m - 1, u);
    }
  }

  lemma ProperParts(done: seq<Node>, rest: seq<Node>)
    requires Proper(done + rest) && Sorted(done + rest)
    ensures Proper(done) && Proper(rest) && Sorted(done)
  {
    var all := done + rest;
    assert forall k :: 0 <= k < |done| ==> all[k] == done[k];
    assert forall k :: 0 <= k < |rest| ==> all[|done| + k] == rest[k];
  }

  /** In order of delivery it stops exactly then. */
  lemma {:induction false} CollectIsEarliest(quorum: int, done: seq<Node>, rest: seq<Node>, u: int)
    requires Proper(done + rest) && Sorted(done + rest)
    requires done == [] || 1 + TotalVotes(done[..|done| - 1]) < quorum
    requires 0 <= u < Collect(quorum, LastDelivery(done), 1 + TotalVotes(done), rest)
    ensures 1 + VotesBy(done + rest, u) < quorum
    decreases |rest|
  {
    ProperParts(done, rest);
    if rest == [] || 1 + TotalVotes(done) >= quorum {
      var m := |done| - 1;
      LastOfSorted(done);
      assert (done + rest)[..m] == done[..m];
      BeforeDelivery(done + rest, m, u);
    } else {
      var done' := done + [rest[0]];
      assert done' + rest[1..] == done + rest;
      assert done'[..|done'| - 1] == done;
      VotesByAppend(done, [rest[0]], 0);
      CollectIsEarliest(quorum, done', rest[1..], u);
    }
  }

  lemma {:induction false} LastOfSorted(nodes: seq<Node>)
    requires nodes != [] && Sorted(nodes) && Proper(nodes)
    ensures LastDelivery(nodes) == nodes[|nodes| - 1].delivered
  {
    if |nodes| > 1 {
      LastOfSorted(nodes[1..]);
      assert nodes[0].delivered <= nodes[|nodes| - 1].delivered;
    }
  }

  lemma CollectAll(quorum: int, nodes: seq<Node>)
    requires Proper(nodes)
    ensures var t := Collect(quorum, 0, 1, nodes);
            && t >= 0
            && (1 + TotalVotes(nodes) >= quorum ==> 1 + VotesBy(nodes, t) >= quorum)
            && (1 + TotalVotes(nodes) < quorum ==> t == LastDelivery(nodes))
  {
    var none: seq<Node> := [];
    assert none + nodes == nodes;
    CollectReaches(quorum, none, nodes);
  }

  lemma NotBefore(quorum: int, nodes: seq<Node>, u: int)
    requires Proper(nodes) && Sorted(nodes) && 0 <= u < Collect(quorum, 0, 1, nodes)
    ensures 1 + VotesBy(nodes, u) < quorum
  {
    var none: seq<Node> := [];
    assert none + nodes == nodes;
    CollectIsEarliest(quorum, none, nodes, u);
  }

  /** For nodes in order of delivery, the loop returns the earliest quorum time. */
  lemma SortedCollectIsEarliest(quorum: int, nodes: seq<Node>)
    requires Proper(nodes) && Sorted(nodes)
    ensures EarliestQuorum(quorum, nodes, Collect(quorum, 0, 1, nodes))
  {
    CollectAll(quorum, nodes);
    forall u | 0 <= u < Collect(quorum, 0, 1, nodes) ensures 1 + VotesBy(nodes, u) < quorum {
      NotBefore(quorum, nodes, u);
    }
  }

  // ---------------------------------------------------------------- the order does not matter

  lemma {:induction false} SumsOfPermutation(a: seq<Node>, b: seq<Node>, t: int)
    requires multiset(a) == multiset(b)
    ensures VotesBy(a, t) == VotesBy(b, t) && TotalVotes(a) == TotalVotes(b) && LastDelivery(a) == LastDelivery(b)
    decreases |a|
  {
    if a == [] {
      assert |multiset(b)| == 0;
    } else {
      var k := MatchFirst(a, b);
      assert a == [a[0]] + a[1..] && b == b[..k] + ([a[0]] + b[k + 1..]);
      SumsOfPermutation(a[1..], b[..k] + b[k + 1..], t);
      VotesByAppend(b[..k], [a[0]] + b[k + 1..], t);
      VotesByAppend([a[0]], b[k + 1..], t);
      VotesByAppend(b[..k], b[k + 1..], t);
      VotesByAppend([a[0]], a[1..], t);
    }
  }

  lemma EarliestOfPermutation(quorum: int, a: seq<Node>, b: seq<Node>, t: int)
    requires multiset(a) == multiset(b) && EarliestQuorum(quorum, a, t)
    ensures EarliestQuorum(quorum, b, t)
  {
    SumsOfPermutation(a, b, t);
    forall u ensures VotesBy(a, u) == VotesBy(b, u) {
      SumsOfPermutation(a, b, u);
    }
  }

  /** Collecting in any order never returns less than collecting in order of delivery. */
  lemma UnsortedIsNoLess(quorum: int, sorted: seq<Node>, nodes: seq<Node>)
    requires Proper(nodes) && Sorted(sorted) && multiset(sorted) == multiset(nodes)
    ensures Collect(quorum, 0, 1, nodes) >= Collect(quorum, 0, 1, sorted)
  {
    assert Proper(sorted) by {
      forall k | 0 <= k < |sorted| ensures sorted[k] in nodes {
        assert sorted[k] in multiset(sorted);
      }
    }
    SortedCollectIsEarliest(quorum, sorted);
    EarliestOfPermutation(quorum, sorted, nodes, Collect(quorum, 0, 1, sorted));
    CollectAll(quorum, nodes);
  }
}
