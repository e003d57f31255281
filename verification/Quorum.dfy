/** Quorum sizes, and why two quorums always share a correct replica. */
module Quorum {
  import opened HotStuff

  function NumFaulty(n: nat): nat {
    if n == 0 then 0 else (n - 1) / 3
  }

  function QuorumSize(n: nat): nat
    requires n >= 1
  {
    n - NumFaulty(n)
  }

  /** It is the largest number of faulty replicas that is less than a third of all. */
  lemma NumFaultyIsLargest(n: nat)
    requires n >= 1
    ensures 3 * NumFaulty(n) < n <= 3 * (NumFaulty(n) + 1)
    ensures QuorumSize(n) == n - NumFaulty(n)
  {
  }

  /** It is 2f + 1 only for a third of the sizes. */
  lemma QuorumSizeIsTwoFPlusOne(n: nat)
    requires n >= 1
    ensures QuorumSize(n) == 2 * NumFaulty(n) + 1 <==> n % 3 == 1
  {
    var q, r := (n - 1) / 3, (n - 1) % 3;
    assert n == 3 * q + r + 1;
    assert n % 3 == (r + 1) % 3;
  }

  /** The identifiers 0 .. n-1. */
  function Ids(n: nat): (s: set<ID>)
    ensures forall i: ID :: i in s <==> i < n
    ensures |s| == n
  {
    if n == 0 then {} else Ids(n - 1) + {n - 1}
  }

  /** The replicas are 0 .. n-1; those in `byz` may do anything. */
  datatype Config = Config(n: nat, byz: set<ID>) {
    ghost predicate Valid() {
      n >= 1 && byz <= Replicas() && |byz| <= NumFaulty(n)
    }

    function Replicas(): set<ID> {
      Ids(n)
    }

    predicate Honest(i: ID) {
      i < n && i !in byz
    }
  }

  /** Any two quorums have a correct replica in common. */
  lemma QuorumIntersection(c: Config, a: set<ID>, b: set<ID>) returns (i: ID)
    requires c.Valid() && a <= c.Replicas() && b <= c.Replicas()
    requires |a| >= QuorumSize(c.n) && |b| >= QuorumSize(c.n)
    ensures c.Honest(i) && i in a && i in b
  {
    assert |a + b| <= c.n by {
      SubsetSize(a + b, c.Replicas());
    }
    assert |a * b| == |a| + |b| - |a + b|;
    if a * b <= c.byz {
      SubsetSize(a * b, c.byz);
      assert false;
    }
    i :| i in a * b && i !in c.byz;
  }

  lemma {:induction false} SubsetSize<T>(a: set<T>, b: set<T>)
    requires a <= b
    ensures |a| <= |b|
  {
    assert b == a + (b - a);
    assert |b| == |a| + |b - a|;
  }
}
