/** Insertion sort by a key, standing for the library's sort. */
module Sorting {
  ghost predicate OrderedBy<T(!new)>(key: T -> int, s: seq<T>) {
    forall a, b :: 0 <= a < b < |s| ==> key(s[a]) <= key(s[b])
  }

  function Insert<T>(key: T -> int, x: T, s: seq<T>): (r: seq<T>)
    ensures |r| == |s| + 1
  {
    if s == [] || key(x) <= key(s[0]) then [x] + s else [s[0]] + Insert(key, x, s[1..])
  }

  function SortBy<T>(key: T -> int, s: seq<T>): (r: seq<T>)
    ensures |r| == |s|
  {
    if s == [] then [] else Insert(key, s[0], SortBy(key, s[1..]))
  }

  lemma Uncons<T>(s: seq<T>)
    requires s != []
    ensures multiset(s) == multiset{s[0]} + multiset(s[1..])
  {
    assert s == [s[0]] + s[1..];
  }

  lemma Rejoin<T>(s: seq<T>, k: nat)
    requires k < |s|
    ensures multiset(s) == multiset(s[..k] + s[k + 1..]) + multiset{s[k]}
  {
    assert s == s[..k] + ([s[k]] + s[k + 1..]);
  }

  /** The position of `x` in `s`, and that the rest of `s` is what `x` leaves. */
  lemma Pick<T>(x: T, s: seq<T>) returns (k: nat)
    requires x in multiset(s)
    ensures k < |s| && s[k] == x
    ensures s == s[..k] + ([x] + s[k + 1..])
    ensures multiset(s[..k] + s[k + 1..]) == multiset(s) - multiset{x}
  {
    k :| 0 <= k < |s| && s[k] == x;
    Rejoin(s, k);
    assert s == s[..k] + ([x] + s[k + 1..]);
  }

  /** The first element of a permutation, found in the other, leaves permutations behind. */
  lemma MatchFirst<T>(a: seq<T>, b: seq<T>) returns (k: nat)
    requires a != [] && multiset(a) == multiset(b)
    ensures k < |b| == |a| && b[k] == a[0]
    ensures multiset(a[1..]) == multiset(b[..k] + b[k + 1..])
  {
    assert a[0] in multiset(a);
    assert |multiset(a)| == |a| && |multiset(b)| == |b|;
    k := Pick(a[0], b);
    Uncons(a);
  }

  lemma Slices<T>(s: seq<T>, a: nat, b: nat, c: nat)
    requires a <= b <= c <= |s|
    ensures multiset(s[a..c]) == multiset(s[a..b]) + multiset(s[b..c])
  {
    assert s[a..c] == s[a..b] + s[b..c];
  }

  lemma {:induction false} InsertAdds<T(!new)>(key: T -> int, x: T, s: seq<T>)
    ensures multiset(Insert(key, x, s)) == multiset(s) + multiset{x}
  {
    var r := Insert(key, x, s);
    Uncons(r);
    if s == [] || key(x) <= key(s[0]) {
      assert r[1..] == s;
    } else {
      Uncons(s);
      InsertAdds(key, x, s[1..]);
      assert r[1..] == Insert(key, x, s[1..]);
    }
  }

  lemma {:induction false} InsertOrders<T(!new)>(key: T -> int, x: T, s: seq<T>)
    requires OrderedBy(key, s)
    ensures OrderedBy(key, Insert(key, x, s))
  {
    if s != [] && key(x) > key(s[0]) {
      var r := Insert(key, x, s[1..]);
      InsertOrders(key, x, s[1..]);
      forall k | 0 <= k < |r| ensures key(s[0]) <= key(r[k]) {
        InsertedFrom(key, x, s[1..], k);
      }
    }
  }

  lemma {:induction false} InsertedFrom<T>(key: T -> int, x: T, s: seq<T>, k: nat)
    requires k <= |s|
    ensures Insert(key, x, s)[k] == x || Insert(key, x, s)[k] in s
  {
    if s != [] && key(x) > key(s[0]) && k > 0 {
      InsertedFrom(key, x, s[1..], k - 1);
    }
  }

  lemma {:induction false} SortKeeps<T(!new)>(key: T -> int, s: seq<T>)
    ensures multiset(SortBy(key, s)) == multiset(s) && OrderedBy(key, SortBy(key, s))
  {
    if s != [] {
      SortKeeps(key, s[1..]);
      InsertAdds(key, s[0], SortBy(key, s[1..]));
      InsertOrders(key, s[0], SortBy(key, s[1..]));
      Uncons(s);
    }
  }
}
