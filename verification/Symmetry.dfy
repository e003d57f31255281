/** Trees that differ only in the order of siblings have the same quorum latency, and each has a
    counterpart among the enumerated ones. */
module Symmetry {
  import opened Arithmetic
  import opened UniqueTrees
  import opened TreeCount
  import opened Score
  import opened Sorting
  import opened TreePasses

  ghost predicate FullTree(bf: nat, tree: seq<int>) {
    0 < bf <= |tree| && |tree| == bf * bf + bf
  }

  /** `t` is the quorum latency of `tree` below `root`. */
  ghost predicate QcTime(lat: Latencies, quorum: int, bf: nat, root: int, tree: seq<int>, t: int)
    requires 0 < bf <= |tree|
  {
    EarliestQuorum(quorum, Internals(lat, root, Branches(bf, tree)), t)
  }

  // ---------------------------------------------------------------- trees and their branches

  lemma BranchShape(bf: nat, tree: seq<int>, i: nat)
    requires FullTree(bf, tree) && i < bf
    ensures bf + bf * i + bf <= |tree|
    ensures BranchAt(bf, tree, i) == Branch(tree[i], tree[bf + bf * i..bf + bf * i + bf])
  {
    Step(bf, i);
  }

  /** How often `x` occurs in the branches. */
  function Occurs(bs: seq<Branch>, x: int): nat {
    if bs == [] then 0 else (if bs[0].head == x then 1 else 0) + multiset(bs[0].leaves)[x] + Occurs(bs[1..], x)
  }

  lemma {:induction false} OccursAppend(a: seq<Branch>, b: seq<Branch>, x: int)
    ensures Occurs(a + b, x) == Occurs(a, x) + Occurs(b, x)
  {
    if a == [] {
      assert a + b == b;
    } else {
      assert (a + b)[1..] == a[1..] + b;
      OccursAppend(a[1..], b, x);
    }
  }

  lemma OccursWithout(bs: seq<Branch>, k: nat, x: int)
    requires k < |bs|
    ensures Occurs(bs, x) == Occurs([bs[k]], x) + Occurs(bs[..k] + bs[k + 1..], x)
  {
    var left, right := bs[..k], bs[k + 1..];
    assert bs == left + ([bs[k]] + right);
    OccursAppend(left, [bs[k]] + right, x);
    OccursAppend([bs[k]], right, x);
    OccursAppend(left, right, x);
  }

  lemma {:induction false} OccursOfPermutation(a: seq<Branch>, b: seq<Branch>, x: int)
    requires multiset(a) == multiset(b)
    ensures Occurs(a, x) == Occurs(b, x)
    decreases |a|
  {
    if a == [] {
      assert |multiset(b)| == 0;
    } else {
      var k := MatchFirst(a, b);
      OccursOfPermutation(a[1..], b[..k] + b[k + 1..], x);
      OccursWithout(b, k, x);
      assert a == [a[0]] + a[1..];
      OccursAppend([a[0]], a[1..], x);
    }
  }

  /** A full tree holds what its branches hold. */
  lemma OccursInTree(bf: nat, tree: seq<int>, x: int)
    requires FullTree(bf, tree)
    ensures Occurs(Branches(bf, tree), x) == multiset(tree)[x]
  {
    var bs := Branches(bf, tree);
    forall i | 0 <= i < bf ensures Block(bf, tree, bs, i) {
      BranchShape(bf, tree, i);
      PlacesIs(bf, i);
    }
    PlacesIs(bf, bf);
    OccursUpTo(bf, tree, bs, bf, bf + bf * bf, x);
    assert bs[..bf] == bs;
    OccursInParts(tree, bf, x);
  }

  lemma OccursInParts(s: seq<int>, m: nat, x: int)
    requires m <= |s|
    ensures multiset(s)[x] == multiset(s[..m])[x] + multiset(s[m..|s|])[x]
  {
    assert s == s[..m] + s[m..|s|];
  }

  /** Branch `i` is head `i` with the `i`-th block of leaves. */
  ghost predicate Block(bf: nat, tree: seq<int>, bs: seq<Branch>, i: nat)
    requires i < |bs| <= |tree|
  {
    var start := bf + Places(bf, i);
    start + bf <= |tree| && bs[i] == Branch(tree[i], tree[start..start + bf])
  }

  lemma {:induction false} OccursUpTo(bf: nat, tree: seq<int>, bs: seq<Branch>, m: nat, end: nat, x: int)
    requires |bs| <= |tree| && forall i :: 0 <= i < |bs| ==> Block(bf, tree, bs, i)
    requires m <= |bs| && end == bf + Places(bf, m) && end <= |tree|
    ensures Occurs(bs[..m], x) == multiset(tree[..m])[x] + multiset(tree[bf..end])[x]
    decreases m
  {
    if m > 0 {
      var mid := end - bf;
      BlockEnds(bf, tree, bs, m, end);
      OccursUpTo(bf, tree, bs, m - 1, mid, x);
      OccursStep(bs, tree, m, bf, mid, end, x);
    } else {
      OccursNone(bs, tree, bf, x);
    }
  }

  lemma OccursNone(bs: seq<Branch>, tree: seq<int>, bf: nat, x: int)
    requires bf <= |tree|
    ensures Occurs(bs[..0], x) == multiset(tree[..0])[x] + multiset(tree[bf..bf])[x]
  {
    assert bs[..0] == [] && tree[..0] == [] && tree[bf..bf] == [];
  }

  lemma BlockEnds(bf: nat, tree: seq<int>, bs: seq<Branch>, m: nat, end: nat)
    requires 0 < m <= |bs| <= |tree| && Block(bf, tree, bs, m - 1)
    requires end == bf + Places(bf, m) && end <= |tree|
    ensures end - bf == bf + Places(bf, m - 1) && bs[m - 1] == Branch(tree[m - 1], tree[end - bf..end])
  {
  }

  lemma OccursStep(bs: seq<Branch>, tree: seq<int>, m: nat, bf: nat, mid: nat, end: nat, x: int)
    requires 0 < m <= |bs| && m <= |tree| && bf <= mid && mid + bf == end <= |tree|
    requires bs[m - 1] == Branch(tree[m - 1], tree[mid..end])
    requires Occurs(bs[..m - 1], x) == multiset(tree[..m - 1])[x] + multiset(tree[bf..mid])[x]
    ensures Occurs(bs[..m], x) == multiset(tree[..m])[x] + multiset(tree[bf..end])[x]
  {
    assert bs[..m] == bs[..m - 1] + [bs[m - 1]];
    OccursAppend(bs[..m - 1], [bs[m - 1]], x);
    assert [bs[m - 1]][1..] == [];
    OneMore(tree, m, x);
    Slices(tree, bf, mid, end);
  }

  lemma OneMore(s: seq<int>, m: nat, x: int)
    requires 0 < m <= |s|
    ensures multiset(s[..m])[x] == multiset(s[..m - 1])[x] + if s[m - 1] == x then 1 else 0
  {
    assert s[..m] == s[..m - 1] + [s[m - 1]];
  }

  /** The tree with these branches. */
  function Flatten(bs: seq<Branch>): seq<int> {
    Heads(bs) + AllLeaves(bs)
  }

  function Heads(bs: seq<Branch>): (h: seq<int>)
    ensures |h| == |bs|
  {
    seq(|bs|, i requires 0 <= i < |bs| => bs[i].head)
  }

  function AllLeaves(bs: seq<Branch>): seq<int> {
    if bs == [] then [] else AllLeaves(bs[..|bs| - 1]) + bs[|bs| - 1].leaves
  }

  ghost predicate Even(bf: nat, bs: seq<Branch>) {
    forall k :: 0 <= k < |bs| ==> |bs[k].leaves| == bf
  }

  lemma {:induction false} LeavesAt(bf: nat, bs: seq<Branch>, i: nat)
    requires Even(bf, bs)
    ensures |AllLeaves(bs)| == bf * |bs|
    ensures i < |bs| ==> bf * i + bf <= |AllLeaves(bs)| && AllLeaves(bs)[bf * i..bf * i + bf] == bs[i].leaves
  {
    if bs != [] {
      var m := |bs| - 1;
      var front, last := bs[..m], bs[m].leaves;
      LeavesAt(bf, front, i);
      assert bf * |bs| == bf * m + bf;
      assert AllLeaves(bs) == AllLeaves(front) + last;
      if i < m {
        SliceOfFront(AllLeaves(front), last, bf * i, bf * i + bf);
        assert front[i] == bs[i];
      } else if i == m {
        SliceAtEnd(AllLeaves(front), last, bf * i, bf * i + bf);
      }
    }
  }

  lemma SliceOfFront(a: seq<int>, b: seq<int>, from: nat, to: nat)
    requires from <= to <= |a|
    ensures (a + b)[from..to] == a[from..to]
  {
  }

  lemma SliceAtEnd(a: seq<int>, b: seq<int>, from: nat, to: nat)
    requires from == |a| && to == |a| + |b|
    ensures (a + b)[from..to] == b
  {
  }

  lemma FlattenBranches(bf: nat, bs: seq<Branch>)
    requires bf > 0 && |bs| == bf && Even(bf, bs)
    ensures FullTree(bf, Flatten(bs)) && Branches(bf, Flatten(bs)) == bs
  {
    var tree := Flatten(bs);
    LeavesAt(bf, bs, 0);
    forall i | 0 <= i < bf ensures BranchAt(bf, tree, i) == bs[i] {
      LeavesAt(bf, bs, i);
      BranchShape(bf, tree, i);
      Shifted(Heads(bs), AllLeaves(bs), bf * i, bf * i + bf);
    }
  }

  lemma Shifted(a: seq<int>, b: seq<int>, from: nat, to: nat)
    requires from <= to <= |b|
    ensures (a + b)[|a| + from..|a| + to] == b[from..to]
  {
  }

  // ---------------------------------------------------------------- siblings may be reordered

  lemma {:induction false} GatheredAppend(lat: Latencies, head: int, start: int, a: seq<int>, b: seq<int>)
    ensures Gathered(lat, head, start, a + b) == Max(Gathered(lat, head, start, a), Gathered(lat, head, start, b))
    ensures Gathered(lat, head, start, b) >= start
    decreases |b|
  {
    if b == [] {
      assert a + b == a;
      GatheredIsLate(lat, head, start, a);
    } else {
      assert (a + b)[..|a + b| - 1] == a + b[..|b| - 1];
      GatheredAppend(lat, head, start, a, b[..|b| - 1]);
      GatheredIsLate(lat, head, start, a);
    }
  }

  lemma {:induction false} GatheredIsLate(lat: Latencies, head: int, start: int, a: seq<int>)
    ensures Gathered(lat, head, start, a) >= start
  {
    if a != [] {
      GatheredIsLate(lat, head, start, a[..|a| - 1]);
    }
  }

  lemma GatheredWithout(lat: Latencies, head: int, start: int, s: seq<int>, k: nat)
    requires k < |s|
    ensures Gathered(lat, head, start, s) ==
              Max(Gathered(lat, head, start, [s[k]]), Gathered(lat, head, start, s[..k] + s[k + 1..]))
  {
    var left, right := s[..k], s[k + 1..];
    assert s == left + ([s[k]] + right);
    GatheredAppend(lat, head, start, left, [s[k]] + right);
    GatheredAppend(lat, head, start, [s[k]], right);
    GatheredAppend(lat, head, start, left, right);
  }

  /** The order of the leaves does not matter. */
  lemma {:induction false} GatheredOfPermutation(lat: Latencies, head: int, start: int, a: seq<int>, b: seq<int>)
    requires multiset(a) == multiset(b)
    ensures Gathered(lat, head, start, a) == Gathered(lat, head, start, b)
    decreases |a|
  {
    if a == [] {
      assert |multiset(b)| == 0;
    } else {
      var k := MatchFirst(a, b);
      GatheredOfPermutation(lat, head, start, a[1..], b[..k] + b[k + 1..]);
      GatheredWithout(lat, head, start, b, k);
      assert a == [a[0]] + a[1..];
      GatheredAppend(lat, head, start, [a[0]], a[1..]);
    }
  }

  function SortLeaves(b: Branch): Branch {
    Branch(b.head, SortBy((x: int) => x, b.leaves))
  }

  function SortEachLeaves(bs: seq<Branch>): (r: seq<Branch>)
    ensures |r| == |bs|
  {
    seq(|bs|, i requires 0 <= i < |bs| => SortLeaves(bs[i]))
  }

  lemma LeafOrderIsFree(lat: Latencies, root: int, b: Branch)
    ensures Internal(lat, root, SortLeaves(b)) == Internal(lat, root, b)
  {
    SortKeeps((x: int) => x, b.leaves);
    GatheredOfPermutation(lat, b.head, lat(root, b.head), SortLeaves(b).leaves, b.leaves);
  }

  lemma {:induction false} SameOccurrences(bs: seq<Branch>, x: int)
    ensures Occurs(SortEachLeaves(bs), x) == Occurs(bs, x)
  {
    if bs != [] {
      assert SortEachLeaves(bs)[1..] == SortEachLeaves(bs[1..]);
      SortKeeps((x: int) => x, bs[0].leaves);
      SameOccurrences(bs[1..], x);
    }
  }

  /** Equal elements carry equal images, so a permutation permutes the images. */
  lemma {:induction false} Transport<A, B>(s: seq<A>, o: seq<A>, bs: seq<B>, bo: seq<B>)
    requires multiset(s) == multiset(o) && |s| == |bs| && |o| == |bo|
    requires forall t, f :: 0 <= t < |s| && 0 <= f < |o| && s[t] == o[f] ==> bs[t] == bo[f]
    ensures multiset(bs) == multiset(bo)
    decreases |s|
  {
    if s == [] {
      assert |multiset(o)| == 0;
    } else {
      var k := MatchFirst(s, o);
      Transport(s[1..], o[..k] + o[k + 1..], bs[1..], bo[..k] + bo[k + 1..]);
      Uncons(bs);
      Rejoin(bo, k);
    }
  }

  /** The representative of a tree: its branches in order of their heads, all leaves in order. */
  function Canonical(bf: nat, tree: seq<int>): seq<int>
    requires bf <= |tree|
  {
    Flatten(SortBy((b: Branch) => b.head, SortEachLeaves(Branches(bf, tree))))
  }

  lemma CanonicalBranches(bf: nat, tree: seq<int>)
    requires FullTree(bf, tree)
    ensures FullTree(bf, Canonical(bf, tree))
    ensures Branches(bf, Canonical(bf, tree)) == SortBy((b: Branch) => b.head, SortEachLeaves(Branches(bf, tree)))
  {
    var each := SortEachLeaves(Branches(bf, tree));
    var key := (b: Branch) => b.head;
    var sorted := SortBy(key, each);
    SortKeeps(key, each);
    forall k | 0 <= k < |sorted| ensures |sorted[k].leaves| == bf {
      assert sorted[k] in multiset(sorted);
      var i :| 0 <= i < |each| && each[i] == sorted[k];
      BranchShape(bf, tree, i);
    }
    FlattenBranches(bf, sorted);
  }

  /** The representative holds the same nodes. */
  lemma CanonicalHoldsSame(bf: nat, tree: seq<int>)
    requires FullTree(bf, tree)
    ensures FullTree(bf, Canonical(bf, tree)) && multiset(Canonical(bf, tree)) == multiset(tree)
  {
    var each := SortEachLeaves(Branches(bf, tree));
    var key := (b: Branch) => b.head;
    CanonicalBranches(bf, tree);
    SortKeeps(key, each);
    forall x ensures multiset(Canonical(bf, tree))[x] == multiset(tree)[x] {
      OccursOfPermutation(SortBy(key, each), each, x);
      SameOccurrences(Branches(bf, tree), x);
      OccursInTree(bf, tree, x);
      OccursInTree(bf, Canonical(bf, tree), x);
    }
  }

  lemma LeafOrdersAreFree(lat: Latencies, root: int, bs: seq<Branch>)
    ensures Internals(lat, root, SortEachLeaves(bs)) == Internals(lat, root, bs)
  {
    forall i | 0 <= i < |bs| ensures Internal(lat, root, SortEachLeaves(bs)[i]) == Internal(lat, root, bs[i]) {
      LeafOrderIsFree(lat, root, bs[i]);
    }
  }

  lemma CanonicalInternals(lat: Latencies, bf: nat, root: int, tree: seq<int>)
    requires FullTree(bf, tree) && FullTree(bf, Canonical(bf, tree))
    ensures multiset(Internals(lat, root, Branches(bf, Canonical(bf, tree)))) == multiset(Internals(lat, root,
              Branches(bf, tree)))
  {
    var each := SortEachLeaves(Branches(bf, tree));
    var key := (b: Branch) => b.head;
    var sorted := SortBy(key, each);
    CanonicalBranches(bf, tree);
    SortKeeps(key, each);
    LeafOrdersAreFree(lat, root, Branches(bf, tree));
    Transport(sorted, each, Internals(lat, root, sorted), Internals(lat, root, each));
  }

  /** The representative has the same quorum latency. */
  lemma CanonicalIsEquivalent(lat: Latencies, quorum: int, bf: nat, root: int, tree: seq<int>, t: int)
    requires FullTree(bf, tree) && FullTree(bf, Canonical(bf, tree))
    ensures QcTime(lat, quorum, bf, root, tree, t) <==> QcTime(lat, quorum, bf, root, Canonical(bf, tree), t)
  {
    CanonicalInternals(lat, bf, root, tree);
    var a, b := Internals(lat, root, Branches(bf, tree)), Internals(lat, root, Branches(bf, Canonical(bf, tree)));
    if EarliestQuorum(quorum, a, t) {
      EarliestOfPermutation(quorum, a, b, t);
    }
    if EarliestQuorum(quorum, b, t) {
      EarliestOfPermutation(quorum, b, a, t);
    }
  }

  /** The representative is one of the enumerated trees. */
  lemma CanonicalAscends(bf: nat, tree: seq<int>)
    requires FullTree(bf, tree) && Distinct(tree)
    ensures GroupsAscend(bf, Canonical(bf, tree))
  {
    var each := SortEachLeaves(Branches(bf, tree));
    var key := (b: Branch) => b.head;
    var sorted := SortBy(key, each);
    var c := Canonical(bf, tree);
    SortKeeps(key, each);
    CanonicalBranches(bf, tree);
    CanonicalHoldsSame(bf, tree);
    ArrangementIsDistinct(tree, c);
    forall k | 0 < k < |c| && k % bf != 0 ensures c[k - 1] < c[k] {
      if k < bf {
        assert key(sorted[k - 1]) <= key(sorted[k]);
        assert c[k - 1] == sorted[k - 1].head && c[k] == sorted[k].head;
      } else {
        LeavesAscend(bf, tree, k);
      }
      assert c[k - 1] != c[k];
    }
  }

  /** Each branch of the representative has its leaves in order. */
  lemma BranchLeavesAscend(bs: seq<Branch>, i: nat, j: nat)
    requires i < |bs|
    ensures var leaves := SortBy((b: Branch) => b.head, SortEachLeaves(bs))[i].leaves;
            0 < j < |leaves| ==> leaves[j - 1] <= leaves[j]
  {
    var each := SortEachLeaves(bs);
    var key := (b: Branch) => b.head;
    var sorted := SortBy(key, each);
    SortKeeps(key, each);
    assert sorted[i] in multiset(sorted);
    var m :| 0 <= m < |each| && each[m] == sorted[i];
    var id := (x: int) => x;
    SortKeeps(id, bs[m].leaves);
    var leaves := SortBy(id, bs[m].leaves);
    assert 0 < j < |leaves| ==> id(leaves[j - 1]) <= id(leaves[j]);
  }

  lemma LeavesAscend(bf: nat, tree: seq<int>, k: nat)
    requires FullTree(bf, tree) && FullTree(bf, Canonical(bf, tree)) && bf <= k < |tree| && k % bf != 0
    ensures Canonical(bf, tree)[k - 1] <= Canonical(bf, tree)[k]
  {
    var c := Canonical(bf, tree);
    CanonicalBranches(bf, tree);
    var i, j := LeafAt(bf, c, k);
    BranchLeavesAscend(Branches(bf, tree), i, j);
  }

  /** The leaf at position `k`, and the one before it, in the branch they belong to. */
  lemma LeafAt(bf: nat, tree: seq<int>, k: nat) returns (i: nat, j: nat)
    requires FullTree(bf, tree) && bf <= k < |tree| && k % bf != 0
    ensures i < bf && 0 < j < |Branches(bf, tree)[i].leaves|
    ensures tree[k] == Branches(bf, tree)[i].leaves[j] && tree[k - 1] == Branches(bf, tree)[i].leaves[j - 1]
  {
    OwnerInRange(bf, k);
    OwnerSplit(bf, k);
    i := Owner(bf, k);
    var start := bf + bf * i;
    j := k - start;
    BranchShape(bf, tree, i);
    SliceElement(tree, start, start + bf, j);
    SliceElement(tree, start, start + bf, j - 1);
  }

  lemma SliceElement(s: seq<int>, from: nat, to: nat, j: nat)
    requires from + j < to <= |s|
    ensures s[from..to][j] == s[from + j]
  {
  }

  lemma OwnerSplit(bf: nat, k: nat)
    requires 0 < bf <= k && k % bf != 0
    ensures 0 < k - bf - bf * Owner(bf, k) < bf
  {
    var r := (k - bf) % bf;
    assert k - bf == Owner(bf, k) * bf + r;
    ModOf(Owner(bf, k) + 1, bf, r);
  }

  /** Every arrangement has the same quorum latency as some enumerated one. */
  lemma EnumerationLosesNothing(lat: Latencies, quorum: int, bf: nat, root: int, base: seq<int>, tree: seq<int>, t: int)
    requires FullTree(bf, base) && StrictlySorted(base) && Arrangement(base, tree)
    ensures Canonical(bf, tree) in Calls(base, bf, [])
    ensures FullTree(bf, Canonical(bf, tree))
    ensures QcTime(lat, quorum, bf, root, tree, t) <==> QcTime(lat, quorum, bf, root, Canonical(bf, tree), t)
  {
    CanonicalHoldsSame(bf, tree);
    CanonicalIsEquivalent(lat, quorum, bf, root, tree, t);
    ArrangementIsDistinct(base, tree);
    CanonicalAscends(bf, tree);
    EnumerationIsExact(base, bf);
  }
}
