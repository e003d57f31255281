/** The binary tree that Kauri lays over the replicas: position p has children 2p + 1 and 2p + 2. */
module HeapTree {
  import opened Arithmetic

  type ID = nat

  const MAX_CHILD: nat := 2

  function Parent(p: nat): nat
    requires p > 0
  {
    (p - 1) / MAX_CHILD
  }

  /** `p` lies strictly below `q`. */
  predicate Below(p: nat, q: nat) {
    p > q && (Parent(p) == q || (Parent(p) > 0 && Below(Parent(p), q)))
  }

  function Depth(p: nat): nat {
    if p == 0 then 0 else 1 + Depth(Parent(p))
  }

  /** The positions of depth d are 2 ^ d - 1 up to 2 ^ (d + 1) - 2. */
  lemma {:induction false} DepthRange(p: nat)
    ensures Pow2(Depth(p)) - 1 <= p <= 2 * Pow2(Depth(p)) - 2
  {
    if p > 0 {
      DepthRange(Parent(p));
    }
  }

  lemma {:induction false} Pow2Grows(a: nat, b: nat)
    requires a < b
    ensures 2 * Pow2(a) <= Pow2(b)
  {
    if a + 1 < b {
      Pow2Grows(a, b - 1);
    }
  }

  lemma DepthIsUnique(p: nat, d: nat)
    requires Pow2(d) - 1 <= p <= 2 * Pow2(d) - 2
    ensures Depth(p) == d
  {
    DepthRange(p);
    if Depth(p) < d {
      Pow2Grows(Depth(p), d);
    } else if d < Depth(p) {
      Pow2Grows(d, Depth(p));
    }
  }

  /** The children are the positions with this parent. */
  lemma ChildrenInvertParent(p: nat, c: nat)
    ensures c > 0 && Parent(c) == p <==> c == MAX_CHILD * p + 1 || c == MAX_CHILD * p + MAX_CHILD
  {
  }

  ghost predicate Taken(ids: map<ID, nat>, p: nat) {
    exists id :: id in ids && ids[id] == p
  }

  /** The replicas and their positions determine each other; the positions are 0 .. n-1. */
  ghost predicate Bijection(ids: map<ID, nat>, n: nat) {
    && (forall id :: id in ids ==> ids[id] < n)
    && (forall a, b :: a in ids && b in ids && ids[a] == ids[b] ==> a == b)
    && (forall p: nat :: p < n ==> Taken(ids, p))
  }

  ghost predicate IsChild(ids: map<ID, nat>, c: ID, p: ID) {
    c in ids && p in ids && ids[c] > 0 && Parent(ids[c]) == ids[p]
  }

  /** Replicas at ascending positions. */
  ghost predicate Ascending(ids: map<ID, nat>, list: seq<ID>) {
    && (forall k :: 0 <= k < |list| ==> list[k] in ids)
    && (forall j, k :: 0 <= j < k < |list| ==> ids[list[j]] < ids[list[k]])
  }

  /** Exactly the children of `p`, at ascending positions. */
  ghost predicate Children(ids: map<ID, nat>, list: seq<ID>, p: ID)
    requires p in ids
  {
    && Ascending(ids, list)
    && (forall c :: c in list <==> IsChild(ids, c, p))
    && (forall k :: 0 <= k < |list| ==> 2 * ids[p] < ids[list[k]] <= 2 * ids[p] + 2)
  }

  class FaultFreeTree {
    const ID: ID
    const configurationLength: nat
    const height: nat
    var idToPos: map<ID, nat>
    var posToID: map<nat, ID>

    ghost predicate Valid()
      reads this
    {
      && configurationLength >= 1 && ID in idToPos
      && height == 1 + Depth(configurationLength - 1)
      && Bijection(idToPos, configurationLength)
      && (forall p: nat :: p in posToID <==> p < configurationLength)
      && (forall p :: p in posToID ==> posToID[p] in idToPos && idToPos[posToID[p]] == p)
    }

    /** The height is the number of levels. */
    constructor (configurationLength: nat, myID: ID)
      requires configurationLength >= 1
      ensures this.configurationLength == configurationLength && ID == myID
      ensures height == 1 + Depth(configurationLength - 1)
      ensures Pow2(height - 1) <= configurationLength < Pow2(height)
    {
      var temp: int := configurationLength - 1;
      var h := 1;
      var power := 2;
      while temp > 0
        invariant h >= 1 && power == Pow2(h)
        invariant temp == configurationLength - (Pow2(h) - 1)
        invariant configurationLength > Pow2(h - 1) - 1
        decreases temp
      {
        temp := temp - power;
        power := power * 2;
        h := h + 1;
      }
      DepthIsUnique(configurationLength - 1, h - 1);
      DepthRange(configurationLength - 1);
      ID := myID;
      this.configurationLength := configurationLength;
      height := h;
      idToPos := map[];
      posToID := map[];
    }

    method InitializeWithPIDs(ids: map<ID, nat>)
      requires configurationLength >= 1 && height == 1 + Depth(configurationLength - 1)
      requires Bijection(ids, configurationLength) && ID in ids
      modifies this
      ensures Valid() && idToPos == ids
    {
      idToPos := ids;
      posToID := map[];
      var keys := ids.Keys;
      while keys != {}
        invariant keys <= ids.Keys && idToPos == ids
        invariant forall id :: id in ids && id !in keys ==> ids[id] in posToID
        invariant forall p :: p in posToID ==> p < configurationLength && posToID[p] in ids && ids[posToID[p]] == p
        decreases keys
      {
        var id :| id in keys;
        keys := keys - {id};
        posToID := posToID[ids[id] := id];
      }
      forall p: nat | p < configurationLength ensures p in posToID {
        assert Taken(ids, p);
      }
    }

    function PosOf(id: ID): nat
      requires Valid() && id in idToPos
      reads this
    {
      idToPos[id]
    }

    function GetParent(): (r: (ID, bool))
      requires Valid()
      reads this
      ensures r.1 <==> PosOf(ID) > 0
      ensures r.0 in idToPos && (if r.1 then PosOf(r.0) == Parent(PosOf(ID)) else r.0 == ID)
    {
      var myPos := idToPos[ID];
      if myPos == 0 then (ID, false) else (posToID[(myPos - 1) / MAX_CHILD], true)
    }

    predicate IsWithInIndex(position: nat) {
      position < configurationLength
    }

    method GetChildrenOfNode(nodeID: ID) returns (children: seq<ID>)
      requires Valid() && nodeID in idToPos
      ensures Children(idToPos, children, nodeID)
    {
      children := [];
      var nodePos := idToPos[nodeID];
      for i := 1 to MAX_CHILD + 1
        invariant |children| == i - 1
        invariant forall k :: 0 <= k < |children| ==>
                    && 2 * nodePos + k + 1 < configurationLength
                    && children[k] in idToPos && idToPos[children[k]] == 2 * nodePos + k + 1
      {
        var childPos := (MAX_CHILD * nodePos) + i;
        if IsWithInIndex(childPos) {
          children := children + [posToID[childPos]];
        } else {
          break;
        }
      }
      forall c | IsChild(idToPos, c, nodeID) ensures c in children {
        var k := idToPos[c] - 2 * nodePos - 1;
        assert 0 <= k < |children| && idToPos[children[k]] == idToPos[c];
      }
    }

    /** The levels below a replica and its own; a child is one lower than its parent. */
    method GetHeight(nodeID: ID) returns (h: nat)
      requires Valid() && nodeID in idToPos
      ensures h == height - Depth(idToPos[nodeID]) && 1 <= h <= height
      ensures Pow2(height - h) - 1 <= idToPos[nodeID] < 2 * Pow2(height - h) - 1
      ensures forall c :: IsChild(idToPos, c, nodeID) ==> height - Depth(idToPos[c]) == h - 1
    {
      var nodePos := idToPos[nodeID];
      DepthRange(nodePos);
      LevelsSuffice(nodePos, configurationLength - 1);
      if nodePos == 0 {
        return height;
      }
      var startLimit, endLimit, power: int := 0, 0, 1;
      for i := 1 to height
        invariant power == Pow2(i - 1) && startLimit == power - 1 && endLimit == 2 * power - 2
        invariant nodePos > endLimit
      {
        startLimit := startLimit + power;
        power := 2 * power;
        endLimit := endLimit + power;
        if nodePos >= startLimit && nodePos <= endLimit {
          DepthIsUnique(nodePos, i);
          return height - i;
        }
      }
      DepthRange(configurationLength - 1);
      assert false;
    }

    /** Every proper descendant of the replica, each once, in breadth-first order. */
    method GetSubTreeNodes() returns (subTreeNodes: seq<ID>)
      requires Valid()
      ensures forall id :: id in subTreeNodes <==> id in idToPos && Below(idToPos[id], idToPos[ID])
      ensures Ascending(idToPos, subTreeNodes)
    {
      var children := GetChildrenOfNode(ID);
      var queue := children;
      subTreeNodes := children;
      ghost var done := 0;
      TraverseFirst(idToPos, ID, children);
      if |children| == 0 {
        Reached(idToPos, configurationLength, ID, subTreeNodes);
        return;
      }
      while |queue| > 0
        invariant 0 <= done <= |subTreeNodes| && queue == subTreeNodes[done..]
        invariant Traversed(idToPos, ID, subTreeNodes, done)
        decreases configurationLength - done
      {
        var child := queue[0];
        queue := queue[1..];
        FitsIn(idToPos, configurationLength, subTreeNodes);
        var more := GetChildrenOfNode(child);
        TraverseNext(idToPos, ID, subTreeNodes, done, more);
        subTreeNodes := subTreeNodes + more;
        queue := queue + more;
        done := done + 1;
      }
      Reached(idToPos, configurationLength, ID, subTreeNodes);
    }
  }

  // ---------------------------------------------------------------- the breadth-first traversal

  /** Listed so far: descendants of `root` at ascending positions, among them its children and those
      of the first `done` in the list; the last is at most twice as far as the next to expand. */
  ghost predicate Traversed(ids: map<ID, nat>, root: ID, list: seq<ID>, done: nat)
    requires root in ids
  {
    && done <= |list| && Ascending(ids, list)
    && (forall k :: 0 <= k < |list| ==> Below(ids[list[k]], ids[root]))
    && (forall c :: IsChild(ids, c, root) ==> c in list)
    && (forall c, k :: 0 <= k < done && IsChild(ids, c, list[k]) ==> c in list)
    && (done < |list| ==> ids[list[|list| - 1]] <= 2 * ids[list[done]])
  }

  lemma TraverseFirst(ids: map<ID, nat>, root: ID, children: seq<ID>)
    requires root in ids && Children(ids, children, root)
    ensures Traversed(ids, root, children, 0)
  {
    forall k | 0 <= k < |children| ensures Below(ids[children[k]], ids[root]) {
      assert children[k] in children;
      assert IsChild(ids, children[k], root);
    }
  }

  lemma TraverseNext(ids: map<ID, nat>, root: ID, list: seq<ID>, done: nat, more: seq<ID>)
    requires root in ids && Traversed(ids, root, list, done) && done < |list| && Children(ids, more, list[done])
    ensures Traversed(ids, root, list + more, done + 1)
  {
    var next := list + more;
    AscendingAppend(ids, list, more, 2 * ids[list[done]]);
    forall k | 0 <= k < |next| ensures Below(ids[next[k]], ids[root]) {
      if k >= |list| {
        assert next[k] == more[k - |list|] && more[k - |list|] in more;
        assert IsChild(ids, next[k], list[done]);
      }
    }
    forall c, k | 0 <= k < done + 1 && IsChild(ids, c, next[k]) ensures c in next {
      if k < done {
        assert IsChild(ids, c, list[k]);
      }
    }
    if done + 1 < |next| {
      assert ids[next[done]] < ids[next[done + 1]];
    }
  }

  lemma AscendingAppend(ids: map<ID, nat>, a: seq<ID>, b: seq<ID>, bound: nat)
    requires a != [] && Ascending(ids, a) && Ascending(ids, b) && ids[a[|a| - 1]] <= bound
    requires forall k :: 0 <= k < |b| ==> bound < ids[b[k]]
    ensures Ascending(ids, a + b)
  {
    var c := a + b;
    forall j, k | 0 <= j < k < |c| ensures ids[c[j]] < ids[c[k]] {
      assert j < |a| - 1 ==> ids[a[j]] < ids[a[|a| - 1]];
    }
  }

  /** Ascending positions are at most as many as there are positions. */
  lemma FitsIn(ids: map<ID, nat>, n: nat, list: seq<ID>)
    requires Bijection(ids, n) && Ascending(ids, list)
    ensures |list| <= n
  {
    if list != [] {
      Climb(ids, list, |list| - 1);
    }
  }

  lemma {:induction false} Climb(ids: map<ID, nat>, list: seq<ID>, k: nat)
    requires Ascending(ids, list) && k < |list|
    ensures ids[list[k]] >= k
  {
    if k > 0 {
      Climb(ids, list, k - 1);
    }
  }

  /** Once everything listed is expanded, every descendant is listed. */
  lemma Reached(ids: map<ID, nat>, n: nat, root: ID, list: seq<ID>)
    requires Bijection(ids, n) && root in ids && Traversed(ids, root, list, |list|)
    ensures forall id :: id in list <==> id in ids && Below(ids[id], ids[root])
  {
    forall id | id in ids && Below(ids[id], ids[root]) ensures id in list {
      ReachedFrom(ids, n, root, list, id);
    }
  }

  lemma {:induction false} ReachedFrom(ids: map<ID, nat>, n: nat, root: ID, list: seq<ID>, id: ID)
    requires Bijection(ids, n) && root in ids && Traversed(ids, root, list, |list|)
    requires id in ids && Below(ids[id], ids[root])
    ensures id in list
    decreases ids[id]
  {
    if Parent(ids[id]) == ids[root] {
      assert IsChild(ids, id, root);
    } else {
      assert Taken(ids, Parent(ids[id]));
      var up :| up in ids && ids[up] == Parent(ids[id]);
      ReachedFrom(ids, n, root, list, up);
      var k :| 0 <= k < |list| && list[k] == up;
      assert IsChild(ids, id, list[k]);
    }
  }

  lemma {:induction false} LevelsSuffice(p: nat, q: nat)
    requires p <= q
    ensures Depth(p) <= Depth(q)
  {
    DepthRange(p);
    DepthRange(q);
    if Depth(q) < Depth(p) {
      Pow2Grows(Depth(q), Depth(p));
    }
  }
}
