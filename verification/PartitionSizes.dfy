/** The sizes of the partitions in a twins scenario: integer partitions, in 8-bit arithmetic. */
module PartitionSizes {
  newtype uint8 = x: int | 0 <= x < 256

  function Min8(a: uint8, b: uint8): uint8 {
    if a < b then a else b
  }

  /** The shared slice that the results are appended to. */
  class Sizes {
    var sizes: seq<seq<uint8>>

    constructor ()
      ensures sizes == []
    {
      sizes := [];
    }
  }

  // ---------------------------------------------------------------- what is appended

  /** The states appended with `n` left to place from position `i` on. */
  ghost function Emitted(i: nat, n: uint8, minSize: uint8, state: seq<uint8>): seq<seq<uint8>>
    requires i < |state| && n >= 1 && minSize >= 1
    decreases |state| - i, 256
  {
    var s := state[i := n];
    (if i == 0 || s[i - 1] >= n then [s] else [])
    + (if i + 1 < |s| then Descent(i, n, minSize, state, if i > 0 then Min8(n - 1, s[i - 1]) else n - 1) else [])
  }

  /** Those with `m` or less at position `i`. */
  ghost function Descent(i: nat, n: uint8, minSize: uint8, state: seq<uint8>, m: uint8): seq<seq<uint8>>
    requires i + 1 < |state| && n >= 1 && minSize >= 1 && m < n
    decreases |state| - i, m as int
  {
    if m > 0 && (i > 0 || m >= minSize) then
      Emitted(i + 1, n - m, minSize, state[i := m]) + Descent(i, n, minSize, state, m - 1)
    else []
  }

  method GenPartitionSizes(n: uint8, k: uint8, minSize: uint8) returns (sizes: seq<seq<uint8>>)
    requires n >= 1 && k >= 1 && minSize >= 1
    ensures sizes == Emitted(0, n, minSize, Zeros(k as nat))
  {
    var s := new uint8[k as nat](_ => 0);
    var out := new Sizes();
    assert s[..] == Zeros(k as nat);
    GenPartitionSizesRecursive(0, n, minSize, s, out);
    sizes := out.sizes;
  }

  method GenPartitionSizesRecursive(i: uint8, n: uint8, minSize: uint8, state: array<uint8>, out: Sizes)
    requires i as nat < state.Length <= 255 && n >= 1 && minSize >= 1
    modifies out
    ensures out.sizes == old(out.sizes) + Emitted(i as nat, n, minSize, state[..])
    decreases state.Length - i as nat, 1
  {
    var s := new uint8[state.Length](k requires 0 <= k < state.Length reads state => state[k]);
    assert s[..] == state[..];
    s[i] := n;
    assert s[..] == state[..][i as nat := n];
    ghost var before := out.sizes;
    if i == 0 || s[i - 1] >= n {
      out.sizes := out.sizes + [s[..]];
    }
    var m := n - 1;
    if i > 0 {
      m := Min8(m, s[i - 1]);
    }
    if (i + 1) as int < s.Length {
      Descend(i, n, minSize, m, s, out, state[..]);
    }
    EmittedAfter(i as nat, n, minSize, state[..], before);
  }

  lemma EmittedAfter(i: nat, n: uint8, minSize: uint8, state: seq<uint8>, before: seq<seq<uint8>>)
    requires i < |state| && n >= 1 && minSize >= 1
    ensures var s := state[i := n];
            before + Emitted(i, n, minSize, state) ==
              (if i == 0 || s[i - 1] >= n then before + [s] else before)
              + if i + 1 < |s|
                then Descent(i, n, minSize, state, if i > 0 then Min8(n - 1, s[i - 1]) else n - 1) else []
  {
  }

  /** The countdown loop. */
  method Descend(i: uint8, n: uint8, minSize: uint8, from: uint8, s: array<uint8>, out: Sizes, ghost state: seq<uint8>)
    requires i as nat + 1 < s.Length == |state| <= 255 && n >= 1 && minSize >= 1 && from < n
    requires s[..] == state[i as nat := s[i]]
    modifies out, s
    ensures out.sizes == old(out.sizes) + Descent(i as nat, n, minSize, state, from)
    decreases s.Length - i as nat, 0
  {
    var m := from;
    while (i == 0 && m >= minSize) || (i != 0 && m > 0)
      invariant m < n && s[..] == state[i as nat := s[i]]
      invariant out.sizes + Descent(i as nat, n, minSize, state, m) == old(out.sizes) + Descent(i as nat, n, minSize,
                state, from)
      decreases m
    {
      Unfold(i as nat, n, minSize, state, m, out.sizes);
      s[i] := m;
      assert s[..] == state[i as nat := m];
      GenPartitionSizesRecursive(i + 1, n - m, minSize, s, out);
      m := m - 1;
    }
  }

  lemma Unfold(i: nat, n: uint8, minSize: uint8, state: seq<uint8>, m: uint8, sizes: seq<seq<uint8>>)
    requires i + 1 < |state| && n >= 1 && minSize >= 1 && 0 < m < n && (i > 0 || m >= minSize)
    ensures sizes + Descent(i, n, minSize, state, m) ==
              (sizes + Emitted(i + 1, n - m, minSize, state[i := m])) + Descent(i, n, minSize, state, m - 1)
  {
  }

  // ---------------------------------------------------------------- integer partitions

  function Zeros(k: nat): (z: seq<uint8>)
    ensures |z| == k
  {
    seq(k, _ => 0)
  }

  function Sum(p: seq<uint8>): nat {
    if p == [] then 0 else p[0] as nat + Sum(p[1..])
  }

  ghost predicate NonIncreasing(p: seq<uint8>) {
    forall a, b :: 0 <= a < b < |p| ==> p[a] >= p[b]
  }

  /** `q` goes on from the first `i` entries of `state` with a non-increasing division of `n`. */
  ghost predicate Continues(q: seq<uint8>, i: nat, n: uint8, state: seq<uint8>)
    requires i < |state|
  {
    && |q| == |state| && q[..i] == state[..i]
    && NonIncreasing(q[i..]) && Sum(q[i..]) == n as nat
    && (i > 0 ==> q[i] <= state[i - 1])
  }

  ghost predicate ZeroAfter(state: seq<uint8>, i: nat) {
    forall k :: i < k < |state| ==> state[k] == 0
  }

  lemma {:induction false} SumOfZeros(p: seq<uint8>)
    requires NonIncreasing(p)
    ensures Sum(p) == 0 <==> forall k :: 0 <= k < |p| ==> p[k] == 0
  {
    if p != [] {
      SumOfZeros(p[1..]);
    }
  }

  /** The whole of `n` at position `i`, or less there and the rest behind. */
  lemma Split(q: seq<uint8>, i: nat, n: uint8, state: seq<uint8>)
    requires i < |state| && n >= 1 && ZeroAfter(state, i) && |q| == |state|
    ensures Continues(q, i, n, state) && q[i] == n <==> q == state[i := n] && (i > 0 ==> state[i - 1] >= n)
    ensures Continues(q, i, n, state) ==> 1 <= q[i] <= n
  {
    assert q[i..] == [q[i]] + q[i + 1..];
    if Continues(q, i, n, state) {
      assert q[i..][1..] == q[i + 1..];
      SumOfZeros(q[i + 1..]);
      assert NonIncreasing(q[i + 1..]);
      if q[i] == n {
        forall k | 0 <= k < |q| ensures q[k] == state[i := n][k] {
          assert k < i ==> q[k] == q[..i][k] == state[..i][k];
          assert k > i ==> q[k] == q[i + 1..][k - i - 1] == 0;
        }
      }
      SumOfZeros(q[i..]);
      var k :| 0 <= k < |q[i..]| && q[i..][k] != 0;
      assert k > 0 ==> q[i..][0] >= q[i..][k];
    }
    if q == state[i := n] && (i > 0 ==> state[i - 1] >= n) {
      assert q[..i] == state[..i];
      assert forall k :: 0 < k < |q[i..]| ==> q[i..][k] == state[i + k] == 0;
      assert NonIncreasing(q[i + 1..]);
      SumOfZeros(q[i + 1..]);
      assert q[i..][1..] == q[i + 1..];
    }
  }

  /** With `m` at position `i`, what follows divides the rest. */
  lemma StepIn(q: seq<uint8>, i: nat, n: uint8, state: seq<uint8>, m: uint8)
    requires i + 1 < |state| && 1 <= m < n && (i > 0 ==> m <= state[i - 1])
    ensures Continues(q, i + 1, n - m, state[i := m]) <==> Continues(q, i, n, state) && q[i] == m
  {
    var s := state[i := m];
    if |q| == |state| {
      assert q[..i + 1] == q[..i] + [q[i]] && s[..i + 1] == state[..i] + [m];
      assert q[..i + 1] == s[..i + 1] <==> q[..i] == state[..i] && q[i] == m;
      var u := q[i + 1..];
      assert q[i..] == [q[i]] + u && u[0] == q[i + 1];
      ConsNonIncreasing(q[i], u);
      assert ([q[i]] + u)[1..] == u;
    }
  }

  lemma ConsNonIncreasing(x: uint8, u: seq<uint8>)
    requires u != []
    ensures NonIncreasing([x] + u) <==> NonIncreasing(u) && u[0] <= x
  {
    var t := [x] + u;
    if NonIncreasing(t) {
      assert t[0] >= t[1];
      forall a, b | 0 <= a < b < |u| ensures u[a] >= u[b] {
        assert t[a + 1] >= t[b + 1];
      }
    }
    if NonIncreasing(u) && u[0] <= x {
      forall a, b | 0 <= a < b < |t| ensures t[a] >= t[b] {
        assert b > 1 ==> u[0] >= u[b - 1];
      }
    }
  }

  lemma {:induction false} EmittedAre(i: nat, n: uint8, minSize: uint8, state: seq<uint8>, q: seq<uint8>)
    requires i < |state| && n >= 1 && minSize >= 1 && ZeroAfter(state, i)
    ensures q in Emitted(i, n, minSize, state) <==>
              Continues(q, i, n, state) && (i == 0 ==> q[0] >= minSize || q[0] == n)
    decreases |state| - i, 256
  {
    if |q| == |state| {
      Split(q, i, n, state);
    }
    var s := state[i := n];
    if i + 1 < |state| {
      var m := if i > 0 then Min8(n - 1, s[i - 1]) else n - 1;
      DescentAre(i, n, minSize, state, m, q);
    } else if Continues(q, i, n, state) {
      assert q[i..] == [q[i]] && Sum([q[i]]) == q[i] as nat + Sum([]);
    }
    assert q in [s] <==> q == s;
  }

  lemma {:induction false} DescentAre(i: nat, n: uint8, minSize: uint8, state: seq<uint8>, m: uint8, q: seq<uint8>)
    requires i + 1 < |state| && n >= 1 && minSize >= 1 && m < n && ZeroAfter(state, i)
    requires i > 0 ==> m <= state[i - 1]
    ensures q in Descent(i, n, minSize, state, m) <==>
              Continues(q, i, n, state) && q[i] <= m && (i == 0 ==> q[0] >= minSize)
    decreases |state| - i, m as int
  {
    if m > 0 && (i > 0 || m >= minSize) {
      var first, rest := Emitted(i + 1, n - m, minSize, state[i := m]), Descent(i, n, minSize, state, m - 1);
      assert Descent(i, n, minSize, state, m) == first + rest;
      assert q in first + rest <==> q in first || q in rest;
      EmittedAre(i + 1, n - m, minSize, state[i := m], q);
      DescentAre(i, n, minSize, state, m - 1, q);
      StepIn(q, i, n, state, m);
    } else if |q| == |state| {
      Split(q, i, n, state);
    }
  }

  // ---------------------------------------------------------------- the order

  /** `a` comes after `b` in lexicographic order. */
  ghost predicate After(a: seq<uint8>, b: seq<uint8>) {
    exists k :: DropsAt(a, b, k)
  }

  ghost predicate DropsAt(a: seq<uint8>, b: seq<uint8>, k: nat) {
    k < |a| && k < |b| && a[..k] == b[..k] && a[k] > b[k]
  }

  ghost predicate Descending(list: seq<seq<uint8>>) {
    forall a, b :: 0 <= a < b < |list| ==> After(list[a], list[b])
  }

  lemma {:induction false} EmittedDescend(i: nat, n: uint8, minSize: uint8, state: seq<uint8>)
    requires i < |state| && n >= 1 && minSize >= 1 && ZeroAfter(state, i)
    ensures Descending(Emitted(i, n, minSize, state))
    decreases |state| - i, 256
  {
    if i + 1 < |state| {
      var s := state[i := n];
      var m := if i > 0 then Min8(n - 1, s[i - 1]) else n - 1;
      DescentDescends(i, n, minSize, state, m);
      var rest := Descent(i, n, minSize, state, m);
      forall b | 0 <= b < |rest| ensures After(s, rest[b]) {
        DescentAre(i, n, minSize, state, m, rest[b]);
        assert rest[b] in rest && s[..i] == state[..i];
        assert DropsAt(s, rest[b], i);
      }
    }
  }

  lemma {:induction false} DescentDescends(i: nat, n: uint8, minSize: uint8, state: seq<uint8>, m: uint8)
    requires i + 1 < |state| && n >= 1 && minSize >= 1 && m < n && ZeroAfter(state, i)
    requires i > 0 ==> m <= state[i - 1]
    ensures Descending(Descent(i, n, minSize, state, m))
    decreases |state| - i, m as int
  {
    if m > 0 && (i > 0 || m >= minSize) {
      EmittedDescend(i + 1, n - m, minSize, state[i := m]);
      DescentDescends(i, n, minSize, state, m - 1);
      var first, rest := Emitted(i + 1, n - m, minSize, state[i := m]), Descent(i, n, minSize, state, m - 1);
      forall a, b | 0 <= a < |first| && 0 <= b < |rest| ensures After(first[a], rest[b]) {
        assert first[a] in first && rest[b] in rest;
        LargerFirst(i, n, minSize, state, m, first[a], rest[b]);
      }
      Joined(first, rest);
    }
  }

  lemma Joined(first: seq<seq<uint8>>, rest: seq<seq<uint8>>)
    requires Descending(first) && Descending(rest)
    requires forall a, b :: 0 <= a < |first| && 0 <= b < |rest| ==> After(first[a], rest[b])
    ensures Descending(first + rest)
  {
  }

  lemma LargerFirst(i: nat, n: uint8, minSize: uint8, state: seq<uint8>, m: uint8, p: seq<uint8>, q: seq<uint8>)
    requires i + 1 < |state| && n >= 1 && minSize >= 1 && 1 <= m < n && ZeroAfter(state, i)
    requires (i > 0 ==> m <= state[i - 1])
    requires p in Emitted(i + 1, n - m, minSize, state[i := m]) && q in Descent(i, n, minSize, state, m - 1)
    ensures After(p, q)
  {
    EmittedAre(i + 1, n - m, minSize, state[i := m], p);
    DescentAre(i, n, minSize, state, m - 1, q);
    StepIn(p, i, n, state, m);
    assert DropsAt(p, q, i);
  }

  /** For every n, k and minSize of at least 1, what is generated is every non-increasing list of k
      sizes that add up to n and begin with at least minSize (or with n itself), once each, in
      strictly decreasing lexicographic order. */
  lemma GeneratesPartitions(n: uint8, k: uint8, minSize: uint8)
    requires n >= 1 && k >= 1 && minSize >= 1
    ensures var sizes := Emitted(0, n, minSize, Zeros(k as nat));
            && (forall q :: q in sizes <==>
                  |q| == k as nat && NonIncreasing(q) && Sum(q) == n as nat && (q[0] >= minSize || q[0] == n))
            && Descending(sizes)
            && forall a, b :: 0 <= a < b < |sizes| ==> sizes[a] != sizes[b]
  {
    var state := Zeros(k as nat);
    var sizes := Emitted(0, n, minSize, state);
    EmittedDescend(0, n, minSize, state);
    forall q ensures q in sizes <==>
        |q| == k as nat && NonIncreasing(q) && Sum(q) == n as nat && (q[0] >= minSize || q[0] == n) {
      EmittedAre(0, n, minSize, state, q);
      assert |q| == k as nat ==> q[0..] == q && q[..0] == state[..0];
    }
    forall a, b | 0 <= a < b < |sizes| ensures sizes[a] != sizes[b] {
      assert After(sizes[a], sizes[b]);
    }
  }
}
