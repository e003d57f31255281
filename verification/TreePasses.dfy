/** Evaluating a tree in place. */
module TreePasses {
  import opened Arithmetic
  import opened TreeCount
  import opened Score
  import opened Sorting

  /** Overwrites the nodes, keeping only the root's identifier. */
  method ResetNodes(nodes: array<Node>, tree: seq<int>)
    requires nodes.Length == |tree| + 1
    modifies nodes
    ensures Reset(nodes[..], tree) && nodes[0].id == old(nodes[0].id)
  {
    for i := 0 to nodes.Length
      invariant nodes[0].id == old(nodes[0].id)
      invariant forall k :: 0 <= k < i ==> nodes[k] == Node(if k > 0 then tree[k - 1] else nodes[0].id, 1, 0, 0, 0)
    {
      if i > 0 {
        nodes[i] := nodes[i].(id := tree[i - 1]);
      }
      nodes[i] := nodes[i].(votes := 1);
      nodes[i] := nodes[i].(disseminated := 0);
      nodes[i] := nodes[i].(aggregated := 0);
      nodes[i] := nodes[i].(delivered := 0);
    }
  }

  /** Each node has its own vote and no times yet. */
  ghost predicate Reset(nodes: seq<Node>, tree: seq<int>) {
    && |nodes| == |tree| + 1
    && nodes[0] == Node(nodes[0].id, 1, 0, 0, 0)
    && forall k :: 0 < k < |nodes| ==> nodes[k] == Node(tree[k - 1], 1, 0, 0, 0)
  }

  function Owner(bf: nat, k: nat): nat
    requires 0 < bf <= k
  {
    (k - bf) / bf
  }

  lemma OwnerOf(bf: nat, i: nat, j: nat)
    requires j < bf
    ensures Owner(bf, bf * i + j + bf) == i
  {
    var n := bf * i + j;
    assert n == (n / bf) * bf + n % bf;
    Gap(i, n / bf, bf);
    Gap(n / bf, i, bf);
  }

  lemma OwnerInRange(bf: nat, k: nat)
    requires 0 < bf <= k < bf + bf * bf
    ensures Owner(bf, k) < bf
  {
    assert k - bf == ((k - bf) / bf) * bf + (k - bf) % bf;
    if (k - bf) / bf >= bf {
      Gap(bf - 1, (k - bf) / bf, bf);
    }
  }

  /** A node once the proposal has come down to it. */
  ghost function Informed(lat: Latencies, bf: nat, root: int, tree: seq<int>, k: nat): Node
    requires 0 < bf <= |tree| && k < |tree|
  {
    if k < bf then Node(tree[k], 1, lat(root, tree[k]), 0, 0)
    else if k < bf + bf * bf then
      OwnerInRange(bf, k);
      var head := tree[Owner(bf, k)];
      var at := lat(root, head) + lat(head, tree[k]);
      Node(tree[k], 1, at, at, at + lat(tree[k], head))
    else Node(tree[k], 1, 0, 0, 0)
  }

  /** Internal nodes below `i` and leaves below `m` are informed, the others still reset. */
  ghost predicate InformedUpTo(lat: Latencies, bf: nat, tree: seq<int>, nodes: seq<Node>, i: nat, m: nat)
    requires 0 < bf <= |tree|
  {
    && |nodes| == |tree| + 1
    && nodes[0] == Node(nodes[0].id, 1, 0, 0, 0)
    && forall k :: 0 < k < |nodes| ==>
         nodes[k] == if (if k <= bf then k <= i else k <= m) then Informed(lat, bf, nodes[0].id, tree, k - 1)
                     else Node(tree[k - 1], 1, 0, 0, 0)
  }

  /** Top-down dissemination: from the root to the internal nodes, from these to their leaves. */
  method Disseminate(lat: Latencies, bf: nat, all: array<Node>, ghost tree: seq<int>)
    requires 0 < bf <= |tree| && Reset(all[..], tree)
    modifies all
    ensures InformedUpTo(lat, bf, tree, all[..], bf, bf + bf * bf) && all[0] == old(all[0])
  {
    var root := all[0];
    for i := 0 to bf
      invariant InformedUpTo(lat, bf, tree, all[..], i, bf + bf * i) && all[0] == root
    {
      assert all[i + 1] == all[..][i + 1];
      all[i + 1] := all[i + 1].(disseminated := root.disseminated + lat(root.id, all[i + 1].id));
      Step(bf, i);
      DisseminateToLeaves(lat, bf, all, i, tree);
    }
  }

  method DisseminateToLeaves(lat: Latencies, bf: nat, all: array<Node>, i: nat, ghost tree: seq<int>)
    requires 0 < bf <= |tree| && i < bf && InformedUpTo(lat, bf, tree, all[..], i + 1, bf + bf * i)
    modifies all
    ensures InformedUpTo(lat, bf, tree, all[..], i + 1, bf + bf * (i + 1)) && all[0] == old(all[0])
  {
    Step(bf, i);
    var head := all[i + 1];
    assert head == all[..][i + 1] == Informed(lat, bf, all[0].id, tree, i);
    for j := 0 to bf
      invariant all[0] == old(all[0]) && all[i + 1] == head
      invariant InformedUpTo(lat, bf, tree, all[..], i + 1, bf + bf * i + j)
    {
      var leafIndex := bf * i + j + bf;
      if leafIndex >= all.Length - 1 {
        break;
      }
      OwnerOf(bf, i, j);
      assert bf <= leafIndex < bf + bf * bf;
      var leaf := all[leafIndex + 1];
      assert leaf == all[..][leafIndex + 1];
      var at := head.disseminated + lat(head.id, leaf.id);
      all[leafIndex + 1] := leaf.(disseminated := at, aggregated := at, delivered := at + lat(leaf.id, head.id));
    }
  }

  lemma Step(bf: nat, i: nat)
    requires i < bf
    ensures bf * (i + 1) == bf * i + bf <= bf * bf && bf * i >= 0
  {
    if i + 1 < bf {
      Gap(i + 1, bf, bf);
    }
  }

  /** Aggregation: each internal node waits for its leaves and sends the votes to the root. */
  method Aggregate(lat: Latencies, bf: nat, all: array<Node>, ghost tree: seq<int>)
    requires 0 < bf <= |tree| && InformedUpTo(lat, bf, tree, all[..], bf, bf + bf * bf)
    modifies all
    ensures all[0] == old(all[0])
    ensures forall k :: 0 < k <= bf ==> all[k] == Internal(lat, all[0].id, BranchAt(bf, tree, k - 1))
    ensures forall k :: bf < k < all.Length ==> all[k] == old(all[k])
  {
    var root := all[0];
    ghost var before := all[..];
    for i := 0 to bf
      invariant all[0] == root
      invariant forall k :: 0 < k <= i ==> all[k] == Internal(lat, root.id, BranchAt(bf, tree, k - 1))
      invariant forall k :: i < k < all.Length ==> all[k] == before[k]
    {
      assert all[i + 1] == before[i + 1] == Informed(lat, bf, root.id, tree, i);
      AggregateBranch(lat, bf, all, i, root.id, tree, before);
    }
  }

  method AggregateBranch(lat: Latencies, bf: nat, all: array<Node>, i: nat, root: int, ghost tree: seq<int>,
          ghost before: seq<Node>)
    requires 0 < bf <= |tree| && i < bf && all.Length == |tree| + 1 == |before|
    requires before[0].id == root && InformedUpTo(lat, bf, tree, before, bf, bf + bf * bf)
    requires forall k :: i < k < all.Length ==> all[k] == before[k]
    modifies all
    ensures forall k :: 0 <= k < all.Length && k != i + 1 ==> all[k] == old(all[k])
    ensures all[i + 1] == Internal(lat, root, BranchAt(bf, tree, i))
  {
    ghost var b := BranchAt(bf, tree, i);
    assert all[i + 1] == before[i + 1] == Informed(lat, bf, root, tree, i);
    Step(bf, i);
    ghost var m := 0;
    all[i + 1] := all[i + 1].(aggregated := all[i + 1].disseminated);
    for j := 0 to bf
      invariant m == Min(j, |b.leaves|)
      invariant forall k :: 0 <= k < all.Length && k != i + 1 ==> all[k] == old(all[k])
      invariant var start := lat(root, b.head);
                all[i + 1] == Node(b.head, 1 + m, start, Gathered(lat, b.head, start, b.leaves[..m]), 0)
    {
      var leafIndex := bf * i + j + bf;
      if leafIndex >= all.Length - 1 {
        m := |b.leaves|;
        break;
      }
      OwnerOf(bf, i, j);
      assert bf <= leafIndex < bf + bf * bf;
      assert j < |b.leaves| && b.leaves[j] == tree[leafIndex];
      assert b.leaves[..j + 1] == b.leaves[..j] + [b.leaves[j]];
      assert all[leafIndex + 1] == before[leafIndex + 1] == Informed(lat, bf, root, tree, leafIndex);
      all[i + 1] := all[i + 1].(aggregated := Max(all[i + 1].aggregated, all[leafIndex + 1].delivered),
                                votes := all[i + 1].votes + all[leafIndex + 1].votes);
      m := m + 1;
    }
    assert b.leaves[..|b.leaves|] == b.leaves;
    all[i + 1] := all[i + 1].(delivered := all[i + 1].aggregated + lat(all[i + 1].id, root));
  }

  // ---------------------------------------------------------------- sorting

  /** The library sort: some order by delivery, the order among equals unspecified. */
  method SortFunc(nodes: seq<Node>) returns (sorted: seq<Node>)
    ensures Sorted(sorted) && multiset(sorted) == multiset(nodes)
  {
    sorted := SortBy((n: Node) => n.delivered, nodes);
    SortKeeps((n: Node) => n.delivered, nodes);
  }

  /** The leaves of the `i`-th internal node, counting from 1 as the root takes index 0. */
  ghost function LeafGroup(bf: nat, nodes: seq<Node>, i: nat): (g: seq<Node>)
    requires |nodes| == TreeSize(bf) && 0 < i <= bf
  {
    Step(bf, i - 1);
    nodes[bf * i + 1..bf * i + 1 + bf]
  }

  ghost predicate InternalsDistinct(bf: nat, nodes: seq<Node>)
    requires bf < |nodes|
  {
    forall a, b :: 0 < a < b <= bf ==> nodes[a] != nodes[b]
  }

  ghost predicate DistinctNodes(nodes: seq<Node>) {
    forall a, b :: 0 <= a < b < |nodes| ==> nodes[a] != nodes[b]
  }

  /** The leaves of the internal nodes have moved along with them. */
  ghost predicate LeavesFollow(bf: nat, before: seq<Node>, after: seq<Node>, upTo: nat)
    requires |before| == |after| == TreeSize(bf)
  {
    forall f, t :: 0 < f <= bf && 0 < t <= bf && f <= upTo && after[t] == before[f] ==>
                     LeafGroup(bf, after, t) == LeafGroup(bf, before, f)
  }

  ghost predicate Reordered(bf: nat, before: seq<Node>, after: seq<Node>)
    requires bf < |before|
  {
    && |after| == |before| && after[0] == before[0]
    && Sorted(after[1..bf + 1]) && multiset(after[1..bf + 1]) == multiset(before[1..bf + 1])
    && if |before| == TreeSize(bf) then LeavesFollow(bf, before, after, bf)
       else after[bf + 1..] == before[bf + 1..]
  }

  lemma GroupInRange(bf: nat, i: nat)
    requires 0 < i <= bf
    ensures bf + 1 <= bf * i + 1 && bf * i + 1 + bf <= TreeSize(bf)
  {
    Step(bf, i - 1);
    if i > 1 {
      Gap(1, i, bf);
    }
  }

  lemma GroupsApart(bf: nat, i: nat, j: nat)
    requires i != j
    ensures bf * i + bf <= bf * j || bf * j + bf <= bf * i
  {
    if i < j {
      Gap(i, j, bf);
    } else {
      Gap(j, i, bf);
    }
  }

  lemma GroupKept(bf: nat, before: seq<Node>, after: seq<Node>, to: nat, t: nat)
    requires |before| == |after| == TreeSize(bf) && 0 < to <= bf && 0 < t <= bf && t != to
    requires forall k :: 0 <= k < |after| && !(bf * to + 1 <= k < bf * to + 1 + bf) ==> after[k] == before[k]
    ensures LeafGroup(bf, after, t) == LeafGroup(bf, before, t)
  {
    GroupsApart(bf, t, to);
    GroupInRange(bf, t);
  }

  method CopyLeaves(bf: nat, all: array<Node>, src: seq<Node>, from: nat, to: nat)
    requires all.Length == |src| == TreeSize(bf) && 0 < from <= bf && 0 < to <= bf
    modifies all
    ensures forall k :: 0 <= k <= bf ==> all[k] == old(all[k])
    ensures LeafGroup(bf, all[..], to) == LeafGroup(bf, src, from)
    ensures forall t :: 0 < t <= bf && t != to ==> LeafGroup(bf, all[..], t) == LeafGroup(bf, old(all[..]), t)
  {
    ghost var before := all[..];
    GroupInRange(bf, from);
    GroupInRange(bf, to);
    Copy(all, bf * to + 1, src, bf * from + 1, bf);
    CopiedGroups(bf, before, all[..], src, from, to, bf * to + 1, bf * from + 1);
  }

  /** The built-in copy of `n` elements. */
  method Copy(dst: array<Node>, d: nat, src: seq<Node>, s: nat, n: nat)
    requires d + n <= dst.Length && s + n <= |src|
    modifies dst
    ensures forall m :: 0 <= m < dst.Length && !(d <= m < d + n) ==> dst[m] == old(dst[m])
    ensures forall m :: d <= m < d + n ==> dst[m] == src[m - d + s]
  {
    for k := 0 to n
      invariant forall m :: 0 <= m < dst.Length && !(d <= m < d + k) ==> dst[m] == old(dst[m])
      invariant forall m :: d <= m < d + k ==> dst[m] == src[m - d + s]
    {
      dst[d + k] := src[s + k];
    }
  }

  lemma CopiedGroups(bf: nat, before: seq<Node>, after: seq<Node>, src: seq<Node>, from: nat, to: nat, d: nat, s: nat)
    requires |before| == |after| == |src| == TreeSize(bf) && 0 < from <= bf && 0 < to <= bf
    requires d == bf * to + 1 && s == bf * from + 1 && d + bf <= |after| && s + bf <= |src|
    requires forall m :: 0 <= m < |after| && !(d <= m < d + bf) ==> after[m] == before[m]
    requires forall m :: d <= m < d + bf ==> after[m] == src[m - d + s]
    ensures LeafGroup(bf, after, to) == LeafGroup(bf, src, from)
    ensures forall t :: 0 < t <= bf && t != to ==> LeafGroup(bf, after, t) == LeafGroup(bf, before, t)
  {
    assert after[d..d + bf] == src[s..s + bf];
    forall t | 0 < t <= bf && t != to ensures LeafGroup(bf, after, t) == LeafGroup(bf, before, t) {
      GroupKept(bf, before, after, to, t);
    }
  }

  method Index(nodes: seq<Node>, n: Node) returns (i: nat)
    requires n in nodes
    ensures i < |nodes| && nodes[i] == n
  {
    i := 0;
    while nodes[i] != n
      invariant i < |nodes| && n !in nodes[..i]
      decreases |nodes| - i
    {
      i := i + 1;
    }
  }

  method SortInternals(bf: nat, all: array<Node>) returns (same: bool)
    requires 0 < bf < all.Length
    modifies all
    ensures all[0] == old(all[0]) && forall k :: bf < k < all.Length ==> all[k] == old(all[k])
    ensures Sorted(all[1..bf + 1]) && multiset(all[1..bf + 1]) == multiset(old(all[1..bf + 1]))
    ensures same <==> all[1..bf + 1] == old(all[1..bf + 1])
  {
    var original := all[1..bf + 1];
    var internalNodes := SortFunc(original);
    SameLength(internalNodes, original);
    for i := 0 to bf
      invariant all[0] == old(all[0]) && forall k :: bf < k < all.Length ==> all[k] == old(all[k])
      invariant forall k :: 0 < k <= i ==> all[k] == internalNodes[k - 1]
    {
      all[i + 1] := internalNodes[i];
    }
    assert all[1..bf + 1] == internalNodes;
    same := original == internalNodes;
  }

  /** Puts the internal nodes in order of delivery; in a full tree their leaves follow them. */
  method OrderByLatency(bf: nat, all: array<Node>)
    requires 0 < bf < all.Length && InternalsDistinct(bf, all[..])
    modifies all
    ensures Reordered(bf, old(all[..]), all[..])
  {
    var original := all[..];
    var same := SortInternals(bf, all);
    ghost var sorted := all[..];
    assert sorted[1..bf + 1] == all[1..bf + 1] && original[1..bf + 1] == old(all[1..bf + 1]);
    if same {
      SameInternals(bf, original, sorted);
      if all.Length == TreeSize(bf) {
        Unmoved(bf, original);
      }
      return;
    }
    if all.Length == TreeSize(bf) {
      StillDistinct(bf, original, sorted);
      MoveLeaves(bf, all, original);
      assert all[1..bf + 1] == sorted[1..bf + 1];
    } else {
      assert sorted[bf + 1..] == original[bf + 1..];
    }
  }

  method MoveLeaves(bf: nat, all: array<Node>, original: seq<Node>)
    requires 0 < bf && all.Length == |original| == TreeSize(bf)
    requires InternalsDistinct(bf, original) && InternalsDistinct(bf, all[..])
    requires multiset(all[1..bf + 1]) == multiset(original[1..bf + 1])
    requires forall k :: bf < k < all.Length ==> all[k] == original[k]
    modifies all
    ensures forall k :: 0 <= k <= bf ==> all[k] == old(all[k])
    ensures LeavesFollow(bf, original, all[..], bf)
  {
    var src := all[..];
    assert src[1..bf + 1] == all[1..bf + 1];
    for from := 1 to bf + 1
      invariant forall k :: 0 <= k <= bf ==> all[k] == src[k]
      invariant LeavesFollow(bf, original, all[..], from - 1)
    {
      StillThere(bf, original, src, from);
      var at := Index(src[1..bf + 1], original[from]);
      ghost var now := all[..];
      Moved(bf, original, src, from);
      CopyLeaves(bf, all, src, from, at + 1);
      FollowsNext(bf, original, now, all[..], from, at + 1);
    }
  }

  lemma StillThere(bf: nat, a: seq<Node>, b: seq<Node>, i: nat)
    requires 0 < i <= bf < |a| == |b| && multiset(b[1..bf + 1]) == multiset(a[1..bf + 1])
    ensures a[i] in b[1..bf + 1]
  {
    assert a[i] == a[1..bf + 1][i - 1];
    assert a[i] in multiset(a[1..bf + 1]);
  }

  lemma SameInternals(bf: nat, a: seq<Node>, b: seq<Node>)
    requires bf < |a| == |b| && a[0] == b[0] && a[1..bf + 1] == b[1..bf + 1]
    requires forall k :: bf < k < |a| ==> a[k] == b[k]
    ensures a == b
  {
    forall k | 0 < k <= bf ensures a[k] == b[k] {
      assert a[1..bf + 1][k - 1] == b[1..bf + 1][k - 1];
    }
  }

  lemma StillDistinct(bf: nat, a: seq<Node>, b: seq<Node>)
    requires bf < |a| == |b| && InternalsDistinct(bf, a) && multiset(a[1..bf + 1]) == multiset(b[1..bf + 1])
    ensures InternalsDistinct(bf, b)
  {
    PermutedIsDistinct(a[1..bf + 1], b[1..bf + 1]);
    forall i, j | 0 < i < j <= bf ensures b[i] != b[j] {
      assert b[1..bf + 1][i - 1] != b[1..bf + 1][j - 1];
    }
  }

  lemma SameLength(a: seq<Node>, b: seq<Node>)
    requires multiset(a) == multiset(b)
    ensures |a| == |b|
  {
    assert |multiset(a)| == |a| && |multiset(b)| == |b|;
  }

  lemma Unmoved(bf: nat, nodes: seq<Node>)
    requires |nodes| == TreeSize(bf) && InternalsDistinct(bf, nodes)
    ensures LeavesFollow(bf, nodes, nodes, bf)
  {
  }

  /** The leaves of `src`, which are still where they were. */
  lemma Moved(bf: nat, before: seq<Node>, src: seq<Node>, f: nat)
    requires |before| == |src| == TreeSize(bf) && 0 < f <= bf
    requires forall k :: bf < k < |src| ==> src[k] == before[k]
    ensures LeafGroup(bf, src, f) == LeafGroup(bf, before, f)
  {
    GroupInRange(bf, f);
  }

  lemma PermutedIsDistinct(a: seq<Node>, b: seq<Node>)
    requires DistinctNodes(a) && multiset(a) == multiset(b)
    ensures DistinctNodes(b)
  {
    forall i, j | 0 <= i < j < |b| ensures b[i] != b[j] {
      if b[i] == b[j] {
        assert b == b[..i] + [b[i]] + b[i + 1..j] + [b[j]] + b[j + 1..];
        assert multiset(b)[b[i]] >= 2;
        AtMostOnce(a, b[i]);
      }
    }
  }

  lemma {:induction false} AtMostOnce(a: seq<Node>, n: Node)
    requires DistinctNodes(a)
    ensures multiset(a)[n] <= 1
  {
    if a != [] {
      Uncons(a);
      AtMostOnce(a[1..], n);
      assert a[0] !in a[1..];
    }
  }

  lemma FollowsNext(bf: nat, before: seq<Node>, now: seq<Node>, next: seq<Node>, from: nat, to: nat)
    requires |before| == |now| == |next| == TreeSize(bf) && 0 < from <= bf && 0 < to <= bf
    requires InternalsDistinct(bf, before) && InternalsDistinct(bf, now)
    requires forall k :: 0 <= k <= bf ==> next[k] == now[k]
    requires now[to] == before[from] && LeavesFollow(bf, before, now, from - 1)
    requires LeafGroup(bf, next, to) == LeafGroup(bf, before, from)
    requires forall t :: 0 < t <= bf && t != to ==> LeafGroup(bf, next, t) == LeafGroup(bf, now, t)
    ensures LeavesFollow(bf, before, next, from)
  {
  }
}
