/** How many trees the enumeration visits. */
module TreeCount {
  import opened Arithmetic
  import opened UniqueTrees

  /** Pascal's triangle; zero when more are chosen than there are. */
  function Binomial(n: int, k: nat): nat
    decreases if n < 0 then 0 else n
  {
    if k == 0 then 1 else if n < k then 0 else Binomial(n - 1, k - 1) + Binomial(n - 1, k)
  }

  function TreeSize(bf: nat): nat {
    bf * bf + bf + 1
  }

  /** The product of the first `m` factors of NumTrees2. */
  function Factors(n: nat, k: nat, m: nat): nat {
    if m == 0 then 1 else Factors(n, k, m - 1) * Binomial(n - 1 - (m - 1) * k, k)
  }

  method NumTrees2(n: nat, k: nat) returns (result: nat)
    ensures result == n * Factors(n, k, k + 1)
  {
    result := n;
    for i := 0 to k + 1
      invariant result == n * Factors(n, k, i)
    {
      var temp := Binomial(n - 1 - i * k, k);
      Associate(n, Factors(n, k, i), temp);
      result := result * temp;
    }
  }

  lemma Associate(a: nat, b: nat, c: nat)
    ensures a * b * c == a * (b * c)
  {
  }

  /** The places in `groups` groups of `bf`. */
  function Places(bf: nat, groups: nat): nat {
    if groups == 0 then 0 else bf + Places(bf, groups - 1)
  }

  lemma {:induction false} PlacesIs(bf: nat, groups: nat)
    ensures Places(bf, groups) == bf * groups
  {
    if groups > 0 {
      PlacesIs(bf, groups - 1);
      assert bf * groups == bf + bf * (groups - 1);
    }
  }

  /** The ways to fill `groups` groups of `bf` from as many nodes as they have places. */
  function Fillings(bf: nat, groups: nat): nat {
    if groups == 0 then 1 else Binomial(Places(bf, groups), bf) * Fillings(bf, groups - 1)
  }

  /** How many of `tree[i..]` may come next after `prefix`. */
  ghost function Candidates(tree: seq<int>, bf: nat, prefix: seq<int>, i: nat): nat
    requires bf > 0 && i <= |tree|
    decreases |tree| - i
  {
    if i == |tree| then 0
    else (if tree[i] !in prefix && MayFollow(bf, prefix, tree[i]) then 1 else 0) + Candidates(tree, bf, prefix, i + 1)
  }

  /** After placing `tree[i]` inside a group, the candidates are those that came later before. */
  lemma {:induction false} CandidatesInside(tree: seq<int>, bf: nat, prefix: seq<int>, i: nat, from: nat)
    requires bf > 0 && StrictlySorted(tree) && i < |tree| && from <= |tree| && Partial(tree, bf, prefix)
    requires tree[i] !in prefix && MayFollow(bf, prefix, tree[i]) && (|prefix| + 1) % bf != 0
    ensures Candidates(tree, bf, prefix + [tree[i]], from)
              == Candidates(tree, bf, prefix, if from <= i then i + 1 else from)
    decreases |tree| - from
  {
    if from < |tree| {
      CandidatesInside(tree, bf, prefix, i, from + 1);
      var p := prefix + [tree[i]];
      assert p[|p| - 1] == tree[i];
      assert tree[from] in p <==> tree[from] in prefix || from == i;
    }
  }

  /** How many of `tree[i..]` are not placed in `prefix`. */
  ghost function Free(tree: seq<int>, prefix: seq<int>, i: nat): nat
    requires i <= |tree|
    decreases |tree| - i
  {
    if i == |tree| then 0 else (if tree[i] in prefix then 0 else 1) + Free(tree, prefix, i + 1)
  }

  lemma {:induction false} FreeAfter(tree: seq<int>, prefix: seq<int>, j: nat, i: nat)
    requires StrictlySorted(tree) && j < |tree| && i <= |tree| && tree[j] !in prefix
    ensures Free(tree, prefix, i) == Free(tree, prefix + [tree[j]], i) + if i <= j then 1 else 0
    decreases |tree| - i
  {
    if i < |tree| {
      FreeAfter(tree, prefix, j, i + 1);
      assert tree[i] in prefix + [tree[j]] <==> tree[i] in prefix || i == j;
    }
  }

  lemma {:induction false} FreeOfNone(tree: seq<int>, i: nat)
    requires i <= |tree|
    ensures Free(tree, [], i) == |tree| - i
    decreases |tree| - i
  {
    if i < |tree| {
      FreeOfNone(tree, i + 1);
    }
  }

  lemma {:induction false} FreeCount(tree: seq<int>, prefix: seq<int>)
    requires StrictlySorted(tree) && Members(tree, prefix) && Distinct(prefix)
    ensures Free(tree, prefix, 0) + |prefix| == |tree|
  {
    if prefix == [] {
      FreeOfNone(tree, 0);
    } else {
      var rest, last := prefix[..|prefix| - 1], prefix[|prefix| - 1];
      FreeCount(tree, rest);
      var j :| 0 <= j < |tree| && tree[j] == last;
      assert last !in rest;
      assert prefix == rest + [tree[j]];
      FreeAfter(tree, rest, j, 0);
    }
  }

  /** At the start of a group every node that is not placed is a candidate. */
  lemma {:induction false} CandidatesAtStart(tree: seq<int>, bf: nat, prefix: seq<int>, i: nat)
    requires bf > 0 && |prefix| % bf == 0 && i <= |tree|
    ensures Candidates(tree, bf, prefix, i) == Free(tree, prefix, i)
    decreases |tree| - i
  {
    if i < |tree| {
      CandidatesAtStart(tree, bf, prefix, i + 1);
    }
  }

  /** The places left in the group that the next node goes to. */
  function PlacesLeft(bf: nat, pos: nat): nat
    requires bf > 0
  {
    bf - pos % bf
  }

  /** The places left in a group that has been begun. */
  function Open(bf: nat, pos: nat): nat
    requires bf > 0
  {
    if pos % bf == 0 then 0 else PlacesLeft(bf, pos)
  }

  lemma {:induction false} CountCalls(tree: seq<int>, bf: nat, prefix: seq<int>, groups: nat)
    requires bf > 0 && StrictlySorted(tree) && |prefix| <= |tree| && Partial(tree, bf, prefix)
    requires |tree| == |prefix| + Open(bf, |prefix|) + Places(bf, groups)
    ensures |Calls(tree, bf, prefix)| ==
              if |prefix| % bf == 0 then Fillings(bf, groups)
              else Binomial(Candidates(tree, bf, prefix, 0), PlacesLeft(bf, |prefix|)) * Fillings(bf, groups)
    decreases |tree| - |prefix|, |tree| + 1
  {
    if |prefix| % bf == 0 {
      if groups > 0 {
        CandidatesAtStart(tree, bf, prefix, 0);
        FreeCount(tree, prefix);
        CountCallsFrom(tree, bf, prefix, 0, groups - 1);
      }
    } else {
      CountCallsFrom(tree, bf, prefix, 0, groups);
    }
  }

  lemma {:induction false} CountCallsFrom(tree: seq<int>, bf: nat, prefix: seq<int>, i: nat, groups: nat)
    requires bf > 0 && StrictlySorted(tree) && |prefix| < |tree| && i <= |tree| && Partial(tree, bf, prefix)
    requires |tree| == |prefix| + PlacesLeft(bf, |prefix|) + Places(bf, groups)
    ensures |CallsFrom(tree, bf, prefix, i)| ==
              Binomial(Candidates(tree, bf, prefix, i), PlacesLeft(bf, |prefix|)) * Fillings(bf, groups)
    decreases |tree| - |prefix|, |tree| - i
  {
    if i < |tree| {
      CountCallsFrom(tree, bf, prefix, i + 1, groups);
      if tree[i] !in prefix && MayFollow(bf, prefix, tree[i]) {
        var placed, later := Calls(tree, bf, prefix + [tree[i]]), CallsFrom(tree, bf, prefix, i + 1);
        assert CallsFrom(tree, bf, prefix, i) == placed + later;
        CountCallsPlaced(tree, bf, prefix, i, groups);
        Pascal(Candidates(tree, bf, prefix, i), PlacesLeft(bf, |prefix|), Fillings(bf, groups));
      }
    }
  }

  /** With candidate `i` in the next place, the rest of its group comes from the candidates after it. */
  lemma {:induction false} CountCallsPlaced(tree: seq<int>, bf: nat, prefix: seq<int>, i: nat, groups: nat)
    requires bf > 0 && StrictlySorted(tree) && |prefix| < |tree| && i < |tree| && Partial(tree, bf, prefix)
    requires |tree| == |prefix| + PlacesLeft(bf, |prefix|) + Places(bf, groups)
    requires tree[i] !in prefix && MayFollow(bf, prefix, tree[i])
    ensures |Calls(tree, bf, prefix + [tree[i]])| ==
              Binomial(Candidates(tree, bf, prefix, i + 1), PlacesLeft(bf, |prefix|) - 1) * Fillings(bf, groups)
    decreases |tree| - |prefix|, 0
  {
    var placed := prefix + [tree[i]];
    assert |placed| == |prefix| + 1;
    PartialExtends(tree, bf, prefix, tree[i]);
    NextPlace(bf, |prefix|);
    CountCalls(tree, bf, placed, groups);
    if PlacesLeft(bf, |prefix|) > 1 {
      CandidatesInside(tree, bf, prefix, i, 0);
    }
  }

  lemma NextPlace(bf: nat, pos: nat)
    requires bf > 0
    ensures Open(bf, pos + 1) == PlacesLeft(bf, pos) - 1
    ensures (pos + 1) % bf == 0 <==> PlacesLeft(bf, pos) == 1
  {
    var q, r := pos / bf, pos % bf;
    assert pos == q * bf + r;
    if r + 1 == bf {
      assert pos + 1 == (q + 1) * bf;
      ModOf(q + 1, bf, 0);
    } else {
      ModOf(q, bf, r + 1);
    }
  }

  lemma Pascal(m: nat, k: nat, f: nat)
    requires m > 0 && k > 0
    ensures Binomial(m, k) * f == Binomial(m - 1, k - 1) * f + Binomial(m - 1, k) * f
  {
    if m < k {
      assert Binomial(m - 1, k - 1) == 0;
    }
  }

  lemma {:induction false} FillingsAreFactors(bf: nat, m: nat)
    requires m <= bf + 1
    ensures Factors(TreeSize(bf), bf, m) * Fillings(bf, bf + 1 - m) == Fillings(bf, bf + 1)
  {
    if m > 0 {
      FillingsAreFactors(bf, m - 1);
      var rest := bf + 2 - m;
      assert TreeSize(bf) - 1 - (m - 1) * bf == bf * rest by {
        assert bf * rest == bf * bf + bf - (m - 1) * bf by { Distribute(bf, m); }
      }
      PlacesIs(bf, rest);
      Associate(Factors(TreeSize(bf), bf, m - 1), Binomial(bf * rest, bf), Fillings(bf, rest - 1));
    }
  }

  lemma Distribute(bf: nat, m: nat)
    requires 0 < m <= bf + 1
    ensures bf * (bf + 2 - m) == bf * bf + bf - (m - 1) * bf
  {
  }

  /** Over all roots, the enumeration visits exactly NumTrees2 trees: for every branch factor, each
      of the TreeSize roots makes the same number of calls, and these add up to NumTrees2. */
  lemma EnumerationCount(tree: seq<int>, bf: nat)
    requires bf > 0 && StrictlySorted(tree) && |tree| == bf * (bf + 1)
    ensures TreeSize(bf) * |Calls(tree, bf, [])| == TreeSize(bf) * Factors(TreeSize(bf), bf, bf + 1)
    ensures |Calls(tree, bf, [])| == Fillings(bf, bf + 1)
  {
    PlacesIs(bf, bf + 1);
    CountCalls(tree, bf, [], bf + 1);
    FillingsAreFactors(bf, bf + 1);
  }
}
