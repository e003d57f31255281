/** Enumerating the arrangements of a root's subtree up to symmetry, by backtracking. */
module UniqueTrees {

  ghost predicate StrictlySorted(s: seq<int>) {
    forall a, b :: 0 <= a < b < |s| ==> s[a] < s[b]
  }

  /** `x` may follow `prefix`: it starts a group of `bf` positions or does not precede its neighbour. */
  predicate MayFollow(bf: nat, prefix: seq<int>, x: int)
    requires bf > 0
  {
    |prefix| % bf == 0 || prefix[|prefix| - 1] <= x
  }

  /** The calls made below `prefix`, and those from candidate `i` on. */
  ghost function Calls(tree: seq<int>, bf: nat, prefix: seq<int>): seq<seq<int>>
    requires bf > 0 && |prefix| <= |tree|
    decreases |tree| - |prefix|, |tree| + 1
  {
    if |prefix| == |tree| then [prefix] else CallsFrom(tree, bf, prefix, 0)
  }

  ghost function CallsFrom(tree: seq<int>, bf: nat, prefix: seq<int>, i: nat): seq<seq<int>>
    requires bf > 0 && |prefix| < |tree| && i <= |tree|
    decreases |tree| - |prefix|, |tree| - i
  {
    if i == |tree| then []
    else
      (if tree[i] !in prefix && MayFollow(bf, prefix, tree[i]) then Calls(tree, bf, prefix + [tree[i]]) else [])
      + CallsFrom(tree, bf, prefix, i + 1)
  }

  // ---------------------------------------------------------------- the two implementations

  /** Stands for the callback: remembers what it was called with. */
  class Recorder {
    var calls: seq<seq<int>>

    constructor ()
      ensures calls == []
    {
      calls := [];
    }

    method Eval(perm: array<int>)
      modifies this
      ensures calls == old(calls) + [perm[..]]
    {
      calls := calls + [perm[..]];
    }
  }

  ghost predicate Marks(tree: seq<int>, used: seq<bool>, prefix: seq<int>) {
    |used| == |tree| && forall i :: 0 <= i < |tree| ==> (used[i] <==> tree[i] in prefix)
  }

  lemma Unfold(tree: seq<int>, bf: nat, prefix: seq<int>, i: nat, calls: seq<seq<int>>)
    requires bf > 0 && |prefix| < |tree| && i < |tree|
    ensures calls + CallsFrom(tree, bf, prefix, i) ==
              (if tree[i] !in prefix && MayFollow(bf, prefix, tree[i]) then calls + Calls(tree, bf,
                        prefix + [tree[i]]) else calls)
              + CallsFrom(tree, bf, prefix, i + 1)
  {
  }

  lemma MarkNext(tree: seq<int>, used: seq<bool>, prefix: seq<int>, i: nat)
    requires StrictlySorted(tree) && Marks(tree, used, prefix) && i < |tree|
    ensures Marks(tree, used[i := true], prefix + [tree[i]])
  {
  }

  method UniqueTrees(tree: seq<int>, branchFactor: nat, eval: Recorder)
    requires branchFactor > 0 && StrictlySorted(tree)
    modifies eval
    ensures eval.calls == old(eval.calls) + Calls(tree, branchFactor, [])
  {
    var perm := new int[|tree|](_ => 0);
    var used := new bool[|tree|](_ => false);
    assert perm[..0] == [];
    EvalUniqueTree(0, tree, perm, used, branchFactor, eval);
  }

  method EvalUniqueTree(pos: nat, tree: seq<int>, perm: array<int>, used: array<bool>, bf: nat, eval: Recorder)
    requires bf > 0 && StrictlySorted(tree)
    requires pos <= |tree| == perm.Length && Marks(tree, used[..], perm[..pos])
    modifies perm, used, eval
    ensures used[..] == old(used[..]) && perm[..pos] == old(perm[..pos])
    ensures eval.calls == old(eval.calls) + Calls(tree, bf, old(perm[..pos]))
    decreases |tree| - pos, 1
  {
    ghost var prefix, marks, before := perm[..pos], used[..], eval.calls;
    if pos >= |tree| {
      assert perm[..] == prefix;
      eval.Eval(perm);
      return;
    }
    var subtreeStart := pos - pos % bf;
    for i := 0 to |tree|
      invariant used[..] == marks && perm[..pos] == prefix
      invariant eval.calls + CallsFrom(tree, bf, prefix, i) == before + CallsFrom(tree, bf, prefix, 0)
    {
      Unfold(tree, bf, prefix, i, eval.calls);
      assert used[i] == marks[i];
      if !used[i] {
        if pos > subtreeStart && perm[pos - 1] > tree[i] {
          continue;
        }
        Place(pos, i, tree, perm, used, bf, eval);
      }
    }
  }

  /** One turn of the loop: puts candidate `i` at `pos`, enumerates below it, takes it back. */
  method Place(pos: nat, i: nat, tree: seq<int>, perm: array<int>, used: array<bool>, bf: nat, eval: Recorder)
    requires bf > 0 && StrictlySorted(tree)
    requires pos < |tree| == perm.Length && Marks(tree, used[..], perm[..pos])
    requires i < |tree| && !used[i] && MayFollow(bf, perm[..pos], tree[i])
    modifies perm, used, eval
    ensures used[..] == old(used[..]) && perm[..pos] == old(perm[..pos])
    ensures eval.calls == old(eval.calls) + Calls(tree, bf, old(perm[..pos]) + [tree[i]])
    decreases |tree| - pos, 0
  {
    ghost var prefix, marks := perm[..pos], used[..];
    used[i] := true;
    perm[pos] := tree[i];
    MarkNext(tree, marks, prefix, i);
    assert used[..] == marks[i := true] && perm[..pos + 1] == prefix + [tree[i]];
    EvalUniqueTree(pos + 1, tree, perm, used, bf, eval);
    assert perm[..pos] == perm[..pos + 1][..pos];
    used[i] := false;
    assert used[..] == marks[i := true][i := false] == marks;
  }

  class UniqueTree {
    const eval: Recorder
    const tree: seq<int>
    const perm: array<int>
    const used: array<bool>
    const bf: nat

    constructor (tree: seq<int>, branchFactor: nat, eval: Recorder)
      ensures this.tree == tree && this.bf == branchFactor && this.eval == eval
      ensures fresh(perm) && fresh(used) && perm.Length == |tree|
      ensures used[..] == seq(|tree|, _ => false)
    {
      this.tree, this.bf, this.eval := tree, branchFactor, eval;
      perm := new int[|tree|](_ => 0);
      used := new bool[|tree|](_ => false);
    }

    method EvalUniqueTree2(pos: nat)
      requires bf > 0 && StrictlySorted(tree)
      requires pos <= |tree| == perm.Length && Marks(tree, used[..], perm[..pos])
      modifies perm, used, eval
      ensures used[..] == old(used[..]) && perm[..pos] == old(perm[..pos])
      ensures eval.calls == old(eval.calls) + Calls(tree, bf, old(perm[..pos]))
      decreases |tree| - pos, 1
    {
      ghost var prefix, marks, before := perm[..pos], used[..], eval.calls;
      if pos >= |tree| {
        assert perm[..] == prefix;
        eval.Eval(perm);
        return;
      }
      var subtreeStart := pos - pos % bf;
      for i := 0 to |tree|
        invariant used[..] == marks && perm[..pos] == prefix
        invariant eval.calls + CallsFrom(tree, bf, prefix, i) == before + CallsFrom(tree, bf, prefix, 0)
      {
        Unfold(tree, bf, prefix, i, eval.calls);
        assert used[i] == marks[i];
        if !used[i] {
          if pos > subtreeStart && perm[pos - 1] > tree[i] {
            continue;
          }
          Place2(pos, i);
        }
      }
    }

    /** One turn of the loop: puts candidate `i` at `pos`, enumerates below it, takes it back. */
    method Place2(pos: nat, i: nat)
      requires bf > 0 && StrictlySorted(tree)
      requires pos < |tree| == perm.Length && Marks(tree, used[..], perm[..pos])
      requires i < |tree| && !used[i] && MayFollow(bf, perm[..pos], tree[i])
      modifies perm, used, eval
      ensures used[..] == old(used[..]) && perm[..pos] == old(perm[..pos])
      ensures eval.calls == old(eval.calls) + Calls(tree, bf, old(perm[..pos]) + [tree[i]])
      decreases |tree| - pos, 0
    {
      ghost var prefix, marks := perm[..pos], used[..];
      used[i] := true;
      perm[pos] := tree[i];
      MarkNext(tree, marks, prefix, i);
      assert used[..] == marks[i := true] && perm[..pos + 1] == prefix + [tree[i]];
      EvalUniqueTree2(pos + 1);
      assert perm[..pos] == perm[..pos + 1][..pos];
      used[i] := false;
      assert used[..] == marks[i := true][i := false] == marks;
    }
  }

  /** Makes the same calls in the same order. */
  method UniqueTreesStruct(tree: seq<int>, branchFactor: nat, eval: Recorder)
    requires branchFactor > 0 && StrictlySorted(tree)
    modifies eval
    ensures eval.calls == old(eval.calls) + Calls(tree, branchFactor, [])
  {
    var ut := new UniqueTree(tree, branchFactor, eval);
    assert ut.perm[..0] == [];
    ut.EvalUniqueTree2(0);
  }

  // ---------------------------------------------------------------- what is called

  /** Distinct members of `tree`, ascending within every group of `bf` positions. */
  ghost predicate Partial(tree: seq<int>, bf: nat, p: seq<int>)
    requires bf > 0
  {
    Members(tree, p) && Distinct(p) && GroupsAscend(bf, p)
  }

  ghost predicate GroupsAscend(bf: nat, p: seq<int>)
    requires bf > 0
  {
    forall k :: 0 < k < |p| && k % bf != 0 ==> p[k - 1] < p[k]
  }

  lemma PartialExtends(tree: seq<int>, bf: nat, p: seq<int>, x: int)
    requires bf > 0 && Partial(tree, bf, p) && x in tree
    ensures Partial(tree, bf, p + [x]) <==> x !in p && MayFollow(bf, p, x)
  {
    var q := p + [x];
    assert q[|p|] == x && forall k :: 0 <= k < |p| ==> q[k] == p[k];
    if Partial(tree, bf, q) {
      assert |p| > 0 && |p| % bf != 0 ==> q[|p| - 1] < q[|p|];
    }
    if x !in p && MayFollow(bf, p, x) {
      assert |p| > 0 && |p| % bf != 0 ==> q[|p| - 1] != q[|p|];
    }
  }

  lemma PartialPrefix(tree: seq<int>, bf: nat, p: seq<int>, q: seq<int>)
    requires bf > 0 && p <= q && Partial(tree, bf, q)
    ensures Partial(tree, bf, p)
  {
    assert forall k :: 0 <= k < |p| ==> p[k] == q[k];
  }

  lemma {:induction false} CallsAre(tree: seq<int>, bf: nat, prefix: seq<int>, q: seq<int>)
    requires bf > 0 && |prefix| <= |tree| && Partial(tree, bf, prefix)
    ensures q in Calls(tree, bf, prefix) <==> |q| == |tree| && prefix <= q && Partial(tree, bf, q)
    decreases |tree| - |prefix|, |tree| + 1
  {
    if |prefix| == |tree| {
      assert q in [prefix] <==> q == prefix;
    } else {
      CallsFromAre(tree, bf, prefix, 0, q);
      if |q| == |tree| && prefix <= q && Partial(tree, bf, q) {
        assert q[|prefix|] in tree;
      }
    }
  }

  lemma {:induction false} CallsFromAre(tree: seq<int>, bf: nat, prefix: seq<int>, i: nat, q: seq<int>)
    requires bf > 0 && |prefix| < |tree| && i <= |tree| && Partial(tree, bf, prefix)
    ensures q in CallsFrom(tree, bf, prefix, i) <==>
              |q| == |tree| && prefix <= q && Partial(tree, bf, q) && q[|prefix|] in tree[i..]
    decreases |tree| - |prefix|, |tree| - i
  {
    if i < |tree| {
      CallsFromAre(tree, bf, prefix, i + 1, q);
      var p := prefix + [tree[i]];
      PartialExtends(tree, bf, prefix, tree[i]);
      if Partial(tree, bf, p) {
        CallsAre(tree, bf, p, q);
      } else if p <= q && Partial(tree, bf, q) {
        PartialPrefix(tree, bf, p, q);
      }
      assert p <= q <==> prefix <= q && |q| > |prefix| && q[|prefix|] == tree[i];
      assert tree[i..] == [tree[i]] + tree[i + 1..];
    }
  }

  /** `a` comes before `b` in lexicographic order. */
  ghost predicate Before(a: seq<int>, b: seq<int>) {
    exists k :: DiffersAt(a, b, k)
  }

  ghost predicate DiffersAt(a: seq<int>, b: seq<int>, k: nat) {
    k < |a| && k < |b| && a[..k] == b[..k] && a[k] < b[k]
  }

  ghost predicate Ascending(calls: seq<seq<int>>) {
    forall a, b :: 0 <= a < b < |calls| ==> Before(calls[a], calls[b])
  }

  lemma {:induction false} CallsAscend(tree: seq<int>, bf: nat, prefix: seq<int>)
    requires bf > 0 && |prefix| <= |tree| && StrictlySorted(tree) && Partial(tree, bf, prefix)
    ensures Ascending(Calls(tree, bf, prefix))
    decreases |tree| - |prefix|, |tree| + 1
  {
    if |prefix| < |tree| {
      CallsFromAscend(tree, bf, prefix, 0);
    }
  }

  lemma {:induction false} CallsFromAscend(tree: seq<int>, bf: nat, prefix: seq<int>, i: nat)
    requires bf > 0 && |prefix| < |tree| && i <= |tree| && StrictlySorted(tree) && Partial(tree, bf, prefix)
    ensures Ascending(CallsFrom(tree, bf, prefix, i))
    decreases |tree| - |prefix|, |tree| - i
  {
    if i < |tree| {
      CallsFromAscend(tree, bf, prefix, i + 1);
      var p := prefix + [tree[i]];
      PartialExtends(tree, bf, prefix, tree[i]);
      if tree[i] !in prefix && MayFollow(bf, prefix, tree[i]) {
        CallsAscend(tree, bf, p);
        var first, rest := Calls(tree, bf, p), CallsFrom(tree, bf, prefix, i + 1);
        forall a, b | 0 <= a < |first| && 0 <= b < |rest| ensures Before(first[a], rest[b]) {
          CallsAre(tree, bf, p, first[a]);
          CallsFromAre(tree, bf, prefix, i + 1, rest[b]);
          assert first[a] in first && rest[b] in rest;
          assert first[a][..|prefix|] == prefix == rest[b][..|prefix|];
          assert first[a][|prefix|] == p[|prefix|] == tree[i];
          assert DiffersAt(first[a], rest[b], |prefix|);
        }
      }
    }
  }

  /** `q` holds the members of `tree` in some order. */
  ghost predicate Arrangement(tree: seq<int>, q: seq<int>) {
    |q| == |tree| && multiset(q) == multiset(tree)
  }

  ghost predicate Distinct(s: seq<int>) {
    forall j, k :: 0 <= j < k < |s| ==> s[j] != s[k]
  }

  ghost predicate Members(tree: seq<int>, q: seq<int>) {
    forall k :: 0 <= k < |q| ==> q[k] in tree
  }

  lemma ArrangementIsDistinct(tree: seq<int>, q: seq<int>)
    requires Distinct(tree) && Arrangement(tree, q)
    ensures Members(tree, q) && Distinct(q)
  {
    DistinctMultiset(tree);
    forall k | 0 <= k < |q| ensures q[k] in tree {
      assert q[k] in multiset(q);
    }
    forall j, k | 0 <= j < k < |q| ensures q[j] != q[k] {
      RepeatsCount(q, j, k);
      assert multiset(q)[q[j]] == multiset(tree)[q[j]] <= 1;
    }
  }

  lemma RepeatsCount(q: seq<int>, j: nat, k: nat)
    requires j < k < |q|
    ensures q[j] == q[k] ==> multiset(q)[q[j]] >= 2
  {
    assert q == q[..j] + [q[j]] + q[j + 1..k] + [q[k]] + q[k + 1..];
  }

  lemma DistinctIsArrangement(tree: seq<int>, q: seq<int>)
    requires |q| == |tree| && Members(tree, q) && Distinct(q)
    ensures Arrangement(tree, q)
  {
    DistinctMultiset(q);
    forall x ensures multiset(q)[x] <= multiset(tree)[x] {
      assert x in q ==> x in tree;
      assert x in tree ==> x in multiset(tree);
    }
    assert multiset(tree) == multiset(q) + (multiset(tree) - multiset(q));
    assert |multiset(tree) - multiset(q)| == 0;
  }

  lemma {:induction false} DistinctMultiset(s: seq<int>)
    requires Distinct(s)
    ensures forall x :: multiset(s)[x] == if x in s then 1 else 0
  {
    if s != [] {
      var rest := s[..|s| - 1];
      DistinctMultiset(rest);
      assert s == rest + [s[|s| - 1]];
    }
  }

  /** For a strictly sorted tree, eval is called on exactly the permutations whose groups ascend,
      once each, in strictly increasing lexicographic order. */
  lemma EnumerationIsExact(tree: seq<int>, bf: nat)
    requires bf > 0 && StrictlySorted(tree)
    ensures forall q :: q in Calls(tree, bf, []) <==> Arrangement(tree, q) && GroupsAscend(bf, q)
    ensures Ascending(Calls(tree, bf, []))
    ensures var calls := Calls(tree, bf, []); forall a, b :: 0 <= a < b < |calls| ==> calls[a] != calls[b]
  {
    CallsAscend(tree, bf, []);
    forall q ensures q in Calls(tree, bf, []) <==> Arrangement(tree, q) && GroupsAscend(bf, q) {
      CallsAre(tree, bf, [], q);
      if Arrangement(tree, q) {
        ArrangementIsDistinct(tree, q);
      }
      if |q| == |tree| && Members(tree, q) && Distinct(q) {
        DistinctIsArrangement(tree, q);
      }
    }
    var calls := Calls(tree, bf, []);
    forall a, b | 0 <= a < b < |calls| ensures calls[a] != calls[b] {
      assert Before(calls[a], calls[b]);
    }
  }
}
