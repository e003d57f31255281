/** Choosing the candidates for internal tree nodes from the suspicion graph. Every loop over a map
    takes its entries in an arbitrary order. */
module RoleAssignment {
  type ID = nat

  /** Adjacency: the neighbours of each node, with a weight that is always 1. */
  type Graph = map<ID, map<ID, int>>

  /** `b` becomes a neighbour of `a`. */
  function Link(g: Graph, a: ID, b: ID): (r: Graph)
    requires a in g
    ensures r.Keys == g.Keys
    ensures forall x, y :: Edge(r, x, y) <==> Edge(g, x, y) || (x == a && y == b)
    ensures forall x :: Covered(r, x) <==> Covered(g, x) || x == a
  {
    var row: map<ID, int> := map[b := 1];
    var r := g[a := g[a] + row];
    assert b in r[a];
    r
  }

  /** `b` is no longer a neighbour of `a`. */
  function Unlink(g: Graph, a: ID, b: ID): (r: Graph)
    requires a in g
    ensures r.Keys == g.Keys
    ensures forall x, y :: Edge(r, x, y) <==> Edge(g, x, y) && !(x == a && y == b)
    ensures forall x :: x != a ==> (Covered(r, x) <==> Covered(g, x))
  {
    g[a := g[a] - {b}]
  }

  predicate Edge(g: Graph, a: ID, b: ID) {
    a in g && b in g[a]
  }

  /** Suspicions are mutual, nobody suspects itself, and 0 is not a replica. */
  ghost predicate Suspicions(g: Graph) {
    && 0 !in g
    && (forall a, b :: Edge(g, a, b) ==> Edge(g, b, a))
    && (forall a :: !Edge(g, a, a))
  }

  function NodeDegree(node: ID, graph: Graph): nat {
    if node in graph then |graph[node]| else 0
  }

  predicate IsEdgeAcceptable(node: ID, neighbor: ID, graph: Graph) {
    NodeDegree(node, graph) != 1 && NodeDegree(neighbor, graph) != 1
  }

  function GetNeighbors(node: ID, suspicions: Graph): map<ID, int> {
    if node in suspicions then suspicions[node] else map[]
  }

  predicate Covered(g: Graph, a: ID) {
    a in g && g[a] != map[]
  }

  /** `mg1` has the nodes of the suspicion graph, and at these only edges of it. It may have other nodes,
      left from an earlier suspicion graph. */
  ghost predicate Within(mg1: Graph, suspicions: Graph) {
    && suspicions.Keys <= mg1.Keys
    && forall a, b :: a in suspicions && Edge(mg1, a, b) ==> Edge(suspicions, a, b)
  }

  /** No two edges at the nodes of the suspicion graph share a node. */
  ghost predicate Matching(mg1: Graph, suspicions: Graph) {
    && (forall a, b :: a in suspicions && Edge(mg1, a, b) ==> Edge(mg1, b, a))
    && (forall a, b, c :: a in suspicions && Edge(mg1, a, b) && Edge(mg1, a, c) ==> b == c)
  }

  /** The nodes that are not in the suspicion graph are as before. */
  ghost predicate StaleStay(before: Graph, after: Graph, suspicions: Graph) {
    && after.Keys == before.Keys + suspicions.Keys
    && forall a, b :: a !in suspicions ==> (Edge(after, a, b) <==> Edge(before, a, b))
  }

  /** Every suspicion has an end that `mg1` covers, so no edge can be added to a matching. */
  ghost predicate Maximal(mg1: Graph, suspicions: Graph) {
    forall a, b :: Edge(suspicions, a, b) ==> Covered(mg1, a) || Covered(mg1, b)
  }

  /** Adding any further suspicion to a maximal matching breaks it. */
  lemma MaximalMeansMaximal(mg1: Graph, suspicions: Graph, a: ID, b: ID)
    requires Suspicions(suspicions) && Within(mg1, suspicions) && Matching(mg1, suspicions) && Maximal(mg1, suspicions)
    requires Edge(suspicions, a, b) && !Edge(mg1, a, b)
    ensures !Matching(Link(Link(mg1, a, b), b, a), suspicions)
  {
    var more := Link(Link(mg1, a, b), b, a);
    assert a != b && Edge(more, a, b) && Edge(more, b, a);
    if Covered(mg1, a) {
      var c :| c in mg1[a];
      assert Edge(mg1, a, c) && Edge(more, a, c);
    } else {
      var c :| c in mg1[b];
      assert Edge(mg1, b, c) && Edge(more, b, c);
    }
  }

  lemma DegreeOne(m: map<ID, int>)
    requires forall b, c :: b in m && c in m ==> b == c
    ensures |m| == (if m == map[] then 0 else 1)
  {
    if m != map[] {
      var b :| b in m;
      assert m.Keys == {b};
      assert |m| == |m.Keys|;
    }
  }

  lemma AtMostOne(g: Graph, suspicions: Graph, a: ID)
    requires Matching(g, suspicions) && a in g && a in suspicions
    ensures NodeDegree(a, g) == if Covered(g, a) then 1 else 0
  {
    assert forall b, c :: b in g[a] && c in g[a] ==> Edge(g, a, b) && Edge(g, a, c);
    DegreeOne(g[a]);
  }

  /** Two free nodes that suspect each other can be matched. */
  lemma PairAdded(g: Graph, suspicions: Graph, a: ID, b: ID)
    requires Suspicions(suspicions) && Within(g, suspicions) && Matching(g, suspicions)
    requires Edge(suspicions, a, b) && Edge(suspicions, b, a) && !Covered(g, a) && !Covered(g, b)
    ensures var r := Link(Link(g, a, b), b, a);
            Within(r, suspicions) && Matching(r, suspicions) && StaleStay(g, r, suspicions)
  {
    var r := Link(Link(g, a, b), b, a);
    assert forall x :: !Edge(g, a, x) && !Edge(g, b, x);
    assert forall x :: x in suspicions ==> !Edge(g, x, a) && !Edge(g, x, b);
    forall x, y, z | x in suspicions && Edge(r, x, y) && Edge(r, x, z) ensures y == z {
      if x != a && x != b {
        assert Edge(g, x, y) && Edge(g, x, z);
      }
    }
  }

  /** The edge from `a` to `b` gives way to edges between `a` and `x` and between `b` and `y`, where
      `x` and `y` are suspected by nobody else. The edge from `b` to `a` stays. */
  ghost predicate Replacement(before: Graph, after: Graph, suspicions: Graph, a: ID, b: ID, x: ID, y: ID) {
    && IsLone(suspicions, a, x) && IsLone(suspicions, b, y)
    && forall c, d :: Edge(after, c, d) <==>
         || (c == a && d == x) || (c == x && d == a) || (c == b && d == y) || (c == y && d == b)
         || (Edge(before, c, d) && !(c == a && d == b))
  }

  /** The five map updates that make the replacement. */
  function Replace(g: Graph, a: ID, b: ID, x: ID, y: ID): (r: Graph)
    requires a in g && b in g && x in g && y in g
    ensures r.Keys == g.Keys
    ensures forall c, d :: Edge(r, c, d) <==> IsNew(c, d, a, b, x, y) || (Edge(g, c, d) && !(c == a && d == b))
    ensures forall c :: Covered(g, c) ==> Covered(r, c)
  {
    Link(Link(Link(Link(Unlink(g, a, b), a, x), b, y), x, a), y, b)
  }

  /** `a` suspects a node that suspects nobody else. */
  ghost predicate HasLone(suspicions: Graph, a: ID) {
    exists x :: IsLone(suspicions, a, x)
  }

  /** `x` is a neighbour of `a` that has no other neighbour. */
  ghost predicate IsLone(suspicions: Graph, a: ID, x: ID) {
    Edge(suspicions, a, x) && Only(suspicions, x, a)
  }

  /** `a` is the only neighbour of `x`. */
  ghost predicate Only(g: Graph, x: ID, a: ID) {
    Edge(g, x, a) && forall z :: Edge(g, x, z) ==> z == a
  }

  ghost predicate HasOnly(g: Graph, x: ID) {
    exists a :: Only(g, x, a)
  }

  /** The edge between `a` and `b` could give way to two: both ends have a lone neighbour, and neither
      has a single neighbour. */
  ghost predicate Improvable(suspicions: Graph, a: ID, b: ID) {
    && HasLone(suspicions, a) && HasLone(suspicions, b)
    && !HasOnly(suspicions, a) && !HasOnly(suspicions, b)
  }

  /** A node of degree one is one with a single neighbour. */
  lemma DegreeIsOne(g: Graph, x: ID)
    ensures NodeDegree(x, g) == 1 <==> HasOnly(g, x)
    ensures NodeDegree(x, g) == 0 <==> forall z :: !Edge(g, x, z)
  {
    if x in g && g[x] != map[] {
      var a :| a in g[x];
      assert Edge(g, x, a);
      var rest := g[x] - {a};
      assert g[x].Keys == rest.Keys + {a};
      assert |g[x]| == |g[x].Keys| && |rest| == |rest.Keys|;
      if rest != map[] {
        var b :| b in rest;
        assert Edge(g, x, b) && b != a;
      } else {
        assert forall z :: Edge(g, x, z) ==> z == a;
        assert Only(g, x, a);
      }
    }
  }

  /** A replacement adds only edges with a lone end, and takes away the edge it replaces. */
  lemma ReplacementImproves(before: Graph, after: Graph, suspicions: Graph, a: ID, b: ID, x: ID, y: ID)
    requires Suspicions(suspicions) && Edge(suspicions, a, b)
    requires Replacement(before, after, suspicions, a, b, x, y)
    ensures forall c, d :: Edge(after, c, d) && Improvable(suspicions, c, d) ==>
              Edge(before, c, d) && !(c == a && d == b)
  {
    forall c, d | Edge(after, c, d) && Improvable(suspicions, c, d)
      ensures Edge(before, c, d) && !(c == a && d == b)
    {
      assert HasOnly(suspicions, x) && HasOnly(suspicions, y);
      assert !IsNew(c, d, a, b, x, y);
    }
  }

  lemma ReplaceKeeps(g: Graph, suspicions: Graph, a: ID, b: ID, x: ID, y: ID)
    requires Suspicions(suspicions) && Within(g, suspicions) && Edge(g, a, b)
    requires IsLone(suspicions, a, x) && IsLone(suspicions, b, y)
    requires x in g && y in g && b in g
    ensures Within(Replace(g, a, b, x, y), suspicions) && StaleStay(g, Replace(g, a, b, x, y), suspicions)
    ensures Replacement(g, Replace(g, a, b, x, y), suspicions, a, b, x, y)
  {
    var r := Replace(g, a, b, x, y);
    assert Edge(suspicions, x, a) && Edge(suspicions, y, b);
    assert forall c, d :: IsNew(c, d, a, b, x, y) ==> Edge(suspicions, c, d);
  }

  predicate IsNew(c: ID, d: ID, a: ID, b: ID, x: ID, y: ID) {
    (c == a && d == x) || (c == x && d == a) || (c == b && d == y) || (c == y && d == b)
  }

  class OptiTree {
    var mg1: Graph

    constructor ()
      ensures mg1 == map[]
    {
      mg1 := map[];
    }

    /** Gives every suspicious node an entry without neighbours. */
    method ClearNodes(suspicions: Graph)
      modifies this
      ensures StaleStay(old(mg1), mg1, suspicions)
      ensures forall a :: a in suspicions ==> mg1[a] == map[]
    {
      var nodes := suspicions.Keys;
      while nodes != {}
        invariant nodes <= suspicions.Keys
        invariant mg1.Keys == old(mg1.Keys) + (suspicions.Keys - nodes)
        invariant forall a, b :: a !in suspicions ==> (Edge(mg1, a, b) <==> Edge(old(mg1), a, b))
        invariant forall a :: a in suspicions && a !in nodes ==> mg1[a] == map[]
        decreases nodes
      {
        var node :| node in nodes;
        nodes := nodes - {node};
        mg1 := mg1[node := map[]];
      }
    }

    /** The first loop builds a maximal matching of the suspicion graph. */
    method MatchNodes(suspicions: Graph)
      requires Suspicions(suspicions)
      requires suspicions.Keys <= mg1.Keys && forall a :: a in suspicions ==> mg1[a] == map[]
      modifies this
      ensures Within(mg1, suspicions) && Matching(mg1, suspicions) && Maximal(mg1, suspicions)
      ensures StaleStay(old(mg1), mg1, suspicions)
    {
      var nodes := suspicions.Keys;
      while nodes != {}
        invariant nodes <= suspicions.Keys
        invariant Within(mg1, suspicions) && Matching(mg1, suspicions) && StaleStay(old(mg1), mg1, suspicions)
        invariant forall a, b :: Edge(suspicions, a, b) && a !in nodes ==> Covered(mg1, a) || Covered(mg1, b)
        decreases nodes
      {
        var node :| node in nodes;
        nodes := nodes - {node};
        MatchNode(suspicions, node, nodes);
      }
    }

    method MatchNode(suspicions: Graph, node: ID, ghost later: set<ID>)
      requires Suspicions(suspicions) && node in suspicions
      requires Within(mg1, suspicions) && Matching(mg1, suspicions)
      requires forall a, b :: Edge(suspicions, a, b) && a !in later && a != node ==> Covered(mg1, a) || Covered(mg1, b)
      modifies this
      ensures Within(mg1, suspicions) && Matching(mg1, suspicions) && StaleStay(old(mg1), mg1, suspicions)
      ensures forall a, b :: Edge(suspicions, a, b) && a !in later ==> Covered(mg1, a) || Covered(mg1, b)
    {
      var neighbors := suspicions[node].Keys;
      while neighbors != {}
        invariant neighbors <= suspicions[node].Keys
        invariant Within(mg1, suspicions) && Matching(mg1, suspicions) && StaleStay(old(mg1), mg1, suspicions)
        invariant forall a, b :: Edge(suspicions, a, b) && a !in later && a != node ==>
                  Covered(mg1, a) || Covered(mg1, b)
        invariant forall b :: b in suspicions[node] && b !in neighbors ==> Covered(mg1, node) || Covered(mg1, b)
        decreases neighbors
      {
        var neighbor :| neighbor in neighbors;
        neighbors := neighbors - {neighbor};
        assert Edge(suspicions, node, neighbor) && Edge(suspicions, neighbor, node);
        AtMostOne(mg1, suspicions, node);
        AtMostOne(mg1, suspicions, neighbor);
        if IsEdgeAcceptable(node, neighbor, mg1) {
          PairAdded(mg1, suspicions, node, neighbor);
          AddPair(node, neighbor);
        }
      }
    }

    method AddPair(node: ID, neighbor: ID)
      requires node in mg1 && neighbor in mg1
      modifies this
      ensures mg1 == Link(Link(old(mg1), node, neighbor), neighbor, node)
    {
      mg1 := Link(mg1, node, neighbor);
      mg1 := Link(mg1, neighbor, node);
    }

    /** Some neighbour that is suspected by nobody else, or 0 when there is none. */
    static method LoneNeighbor(node: ID, suspicions: Graph) returns (lone: ID)
      requires Suspicions(suspicions)
      ensures lone != 0 ==> IsLone(suspicions, node, lone)
      ensures lone == 0 ==> !HasLone(suspicions, node)
    {
      lone := 0;
      var neighbors := GetNeighbors(node, suspicions).Keys;
      while neighbors != {}
        invariant neighbors <= GetNeighbors(node, suspicions).Keys
        invariant lone != 0 ==> IsLone(suspicions, node, lone)
        invariant lone == 0 ==> forall b :: IsLone(suspicions, node, b) ==> b in neighbors
        decreases neighbors
      {
        var neighbor :| neighbor in neighbors;
        neighbors := neighbors - {neighbor};
        assert Edge(suspicions, node, neighbor) && Edge(suspicions, neighbor, node);
        DegreeIsOne(suspicions, neighbor);
        if NodeDegree(neighbor, suspicions) == 1 {
          lone := neighbor;
        }
      }
    }

    /** May replace an edge by two, and never leaves a covered node uncovered. */
    method CheckForBetterEdge(node: ID, neighbor: ID, suspicions: Graph)
      requires Suspicions(suspicions) && Within(mg1, suspicions) && Edge(mg1, node, neighbor)
      modifies this
      ensures Within(mg1, suspicions) && StaleStay(old(mg1), mg1, suspicions)
      ensures forall a :: Covered(old(mg1), a) ==> Covered(mg1, a)
      ensures HasLone(suspicions, node) && HasLone(suspicions, neighbor) ==>
                exists x, y :: Replacement(old(mg1), mg1, suspicions, node, neighbor, x, y)
      ensures !(HasLone(suspicions, node) && HasLone(suspicions, neighbor)) ==> mg1 == old(mg1)
    {
      var nodeEdge := LoneNeighbor(node, suspicions);
      var neighborEdge := LoneNeighbor(neighbor, suspicions);
      if nodeEdge != 0 && neighborEdge != 0 {
        assert HasLone(suspicions, node) && HasLone(suspicions, neighbor);
        assert Edge(suspicions, node, neighbor) && Edge(suspicions, neighbor, node);
        assert Edge(suspicions, nodeEdge, node) && Edge(suspicions, neighborEdge, neighbor);
        ReplaceEdge(node, neighbor, nodeEdge, neighborEdge);
        ReplaceKeeps(old(mg1), suspicions, node, neighbor, nodeEdge, neighborEdge);
        assert Replacement(old(mg1), mg1, suspicions, node, neighbor, nodeEdge, neighborEdge);
      }
    }

    method ReplaceEdge(node: ID, neighbor: ID, nodeEdge: ID, neighborEdge: ID)
      requires node in mg1 && neighbor in mg1 && nodeEdge in mg1 && neighborEdge in mg1
      modifies this
      ensures mg1 == Replace(old(mg1), node, neighbor, nodeEdge, neighborEdge)
    {
      mg1 := Unlink(mg1, node, neighbor);
      mg1 := Link(mg1, node, nodeEdge);
      mg1 := Link(mg1, neighbor, neighborEdge);
      mg1 := Link(mg1, nodeEdge, node);
      mg1 := Link(mg1, neighborEdge, neighbor);
    }

    /** The second loop. It changes the maps it runs over: a neighbour that is there from the start
        comes up unless it is removed first, and one that is put in or back may come up as well, any
        finite number of times. It frees no node, and leaves no edge that could give way to two. */
    method ImproveEdges(suspicions: Graph)
      requires Suspicions(suspicions) && Within(mg1, suspicions)
      modifies this
      ensures Within(mg1, suspicions) && StaleStay(old(mg1), mg1, suspicions)
      ensures forall a :: Covered(old(mg1), a) ==> Covered(mg1, a)
      ensures forall a, b :: Edge(mg1, a, b) ==> !Improvable(suspicions, a, b)
    {
      var nodes := mg1.Keys;
      while nodes != {}
        invariant nodes <= mg1.Keys && Within(mg1, suspicions) && StaleStay(old(mg1), mg1, suspicions)
        invariant forall a :: Covered(old(mg1), a) ==> Covered(mg1, a)
        invariant forall a, b :: Edge(mg1, a, b) && Improvable(suspicions, a, b) ==> a in nodes
        decreases nodes
      {
        var node :| node in nodes;
        nodes := nodes - {node};
        ImproveNode(suspicions, node);
      }
    }

    method ImproveNode(suspicions: Graph, node: ID)
      requires Suspicions(suspicions) && Within(mg1, suspicions) && node in mg1
      modifies this
      ensures Within(mg1, suspicions) && StaleStay(old(mg1), mg1, suspicions)
      ensures forall a :: Covered(old(mg1), a) ==> Covered(mg1, a)
      ensures forall a, b :: Edge(mg1, a, b) && Improvable(suspicions, a, b) ==> Edge(old(mg1), a, b) && a != node
    {
      var initial, visited := mg1[node].Keys, {};
      var extra: nat := *;
      while (initial - visited) * mg1[node].Keys != {} || extra > 0
        invariant node in mg1 && Within(mg1, suspicions) && StaleStay(old(mg1), mg1, suspicions)
        invariant forall a :: Covered(old(mg1), a) ==> Covered(mg1, a)
        invariant forall a, b :: Edge(mg1, a, b) && Improvable(suspicions, a, b) ==> Edge(old(mg1), a, b)
        invariant forall b :: Edge(mg1, node, b) && Improvable(suspicions, node, b) ==> b in initial && b !in visited
        decreases initial - visited, extra
      {
        var pending := (initial - visited) * mg1[node].Keys;
        var neighbor;
        var again: bool := *;
        if pending != {} && (extra == 0 || !again) {
          neighbor :| neighbor in pending;
          visited := visited + {neighbor};
        } else {
          extra := extra - 1;
          if mg1[node] == map[] {
            continue;
          }
          neighbor :| neighbor in mg1[node];
        }
        assert Edge(mg1, node, neighbor);
        Check(suspicions, node, neighbor);
      }
    }

    /** One call of CheckForBetterEdge, as the second loop needs it. */
    method Check(suspicions: Graph, node: ID, neighbor: ID)
      requires Suspicions(suspicions) && Within(mg1, suspicions) && Edge(mg1, node, neighbor)
      modifies this
      ensures Within(mg1, suspicions) && StaleStay(old(mg1), mg1, suspicions)
      ensures forall a :: Covered(old(mg1), a) ==> Covered(mg1, a)
      ensures forall a, b :: Edge(mg1, a, b) && Improvable(suspicions, a, b) ==>
                Edge(old(mg1), a, b) && !(a == node && b == neighbor)
    {
      ghost var before := mg1;
      CheckForBetterEdge(node, neighbor, suspicions);
      if HasLone(suspicions, node) && HasLone(suspicions, neighbor) {
        ghost var x, y :| Replacement(before, mg1, suspicions, node, neighbor, x, y);
        ReplacementImproves(before, mg1, suspicions, node, neighbor, x, y);
      }
    }

    /** Nodes left from an earlier suspicion graph stay as they are. */
    method ComputeMG1(suspicions: Graph)
      requires Suspicions(suspicions)
      modifies this
      ensures Within(mg1, suspicions) && Maximal(mg1, suspicions) && StaleStay(old(mg1), mg1, suspicions)
      ensures forall a, b :: Edge(mg1, a, b) ==> !Improvable(suspicions, a, b)
    {
      ClearNodes(suspicions);
      MatchNodes(suspicions);
      ImproveEdges(suspicions);
    }

    method ComputeV2(suspicions: Graph, v0: seq<ID>) returns (v2: seq<ID>)
      ensures forall v :: v in v2 <==> v in v0 && ClosesTriangle(mg1, suspicions, v)
    {
      v2 := [];
      var nodes := mg1.Keys;
      while nodes != {}
        invariant nodes <= mg1.Keys
        invariant forall v :: v in v2 <==> v in v0 && exists a, b :: a !in nodes && Triangle(mg1, suspicions, v, a, b)
        decreases nodes
      {
        var node :| node in nodes;
        ghost var before := nodes;
        nodes := nodes - {node};
        var more := ComputeV2At(suspicions, v0, node);
        ghost var old2 := v2;
        v2 := v2 + more;
        forall v ensures v in v2 <==> v in v0 && exists a, b :: a !in nodes && Triangle(mg1, suspicions, v, a, b) {
          assert v in v2 <==> v in old2 || v in more;
          if v in v0 && exists a, b :: a !in nodes && Triangle(mg1, suspicions, v, a, b) {
            var a, b :| a !in nodes && Triangle(mg1, suspicions, v, a, b);
            assert a == node || a !in before;
          }
        }
      }
    }

    method ComputeV2At(suspicions: Graph, v0: seq<ID>, node: ID) returns (v2: seq<ID>)
      requires node in mg1
      ensures forall v :: v in v2 <==> v in v0 && exists b :: Triangle(mg1, suspicions, v, node, b)
    {
      v2 := [];
      var neighbors := mg1[node].Keys;
      while neighbors != {}
        invariant neighbors <= mg1[node].Keys
        invariant forall v :: v in v2 <==>
                    v in v0 && exists b :: b !in neighbors && Triangle(mg1, suspicions, v, node, b)
        decreases neighbors
      {
        var neighbor :| neighbor in neighbors;
        ghost var before, old2 := neighbors, v2;
        neighbors := neighbors - {neighbor};
        for i := 0 to |v0|
          invariant forall v :: v in v2 <==> v in old2 || (v in v0[..i] && Triangle(mg1, suspicions, v, node, neighbor))
        {
          var v := v0[i];
          if v in GetNeighbors(node, suspicions) && neighbor in GetNeighbors(v, suspicions) {
            v2 := v2 + [v];
          }
        }
        assert v0[..|v0|] == v0;
        forall v ensures v in v2 <==> v in v0 && exists b :: b !in neighbors && Triangle(mg1, suspicions, v, node, b) {
          if v in v0 && exists b :: b !in neighbors && Triangle(mg1, suspicions, v, node, b) {
            var b :| b !in neighbors && Triangle(mg1, suspicions, v, node, b);
            assert b == neighbor || b !in before;
          }
        }
      }
    }

    /** The candidates: the nodes that end without a partner and do not close a triangle with two
        partners. No two of them suspect each other. Among them are the nodes without a partner that are
        left from an earlier suspicion graph. */
    method GetTotalInternalNodesSet(suspicions: Graph) returns (internal: seq<ID>)
      requires Suspicions(suspicions)
      modifies this
      ensures suspicions == map[] ==> internal == [] && mg1 == old(mg1)
      ensures suspicions != map[] ==> forall v :: v in internal <==>
                && v in mg1 && (forall w :: !Edge(mg1, v, w))
                && forall a, b :: Edge(mg1, a, b) ==> !(Edge(suspicions, a, v) && Edge(suspicions, v, b))
      ensures StaleStay(old(mg1), mg1, suspicions)
      ensures forall i, j :: 0 <= i < j < |internal| ==> internal[i] != internal[j]
      ensures forall a, b :: a in internal && b in internal ==> !Edge(suspicions, a, b)
    {
      if |suspicions| != 0 {
        ComputeMG1(suspicions);
        var v0 := ZeroDegreeNodes(mg1);
        var v2 := ComputeV2(suspicions, v0);
        internal := SetMinus(v0, v2);
        FreeAndOpen(mg1, suspicions);
      } else {
        assert suspicions == map[];
        internal := [];
      }
    }
  }

  lemma FreeAndOpen(mg1: Graph, suspicions: Graph)
    ensures forall v :: v in mg1 ==> (mg1[v] == map[] <==> forall w :: !Edge(mg1, v, w))
    ensures forall v :: v in mg1 ==> (Covered(mg1, v) <==> mg1[v] != map[])
    ensures forall v :: ClosesTriangle(mg1, suspicions, v) <==>
              exists a, b :: Edge(mg1, a, b) && Edge(suspicions, a, v) && Edge(suspicions, v, b)
  {
    forall v | v in mg1 && mg1[v] != map[] ensures exists w :: Edge(mg1, v, w) {
      var w :| w in mg1[v];
      assert Edge(mg1, v, w);
    }
    forall v | exists a, b :: Edge(mg1, a, b) && Edge(suspicions, a, v) && Edge(suspicions, v, b)
      ensures ClosesTriangle(mg1, suspicions, v)
    {
      var a, b :| Edge(mg1, a, b) && Edge(suspicions, a, v) && Edge(suspicions, v, b);
      assert Triangle(mg1, suspicions, v, a, b);
    }
  }

  ghost predicate Triangle(mg1: Graph, suspicions: Graph, v: ID, a: ID, b: ID) {
    Edge(mg1, a, b) && Edge(suspicions, a, v) && Edge(suspicions, v, b)
  }

  ghost predicate ClosesTriangle(mg1: Graph, suspicions: Graph, v: ID) {
    exists a, b :: Triangle(mg1, suspicions, v, a, b)
  }

  method ZeroDegreeNodes(graph: Graph) returns (zero: seq<ID>)
    ensures forall v :: v in zero <==> v in graph && graph[v] == map[]
    ensures forall i, j :: 0 <= i < j < |zero| ==> zero[i] != zero[j]
  {
    zero := [];
    var nodes := graph.Keys;
    while nodes != {}
      invariant nodes <= graph.Keys
      invariant forall v :: v in zero <==> v in graph && v !in nodes && graph[v] == map[]
      invariant forall i, j :: 0 <= i < j < |zero| ==> zero[i] != zero[j]
      decreases nodes
    {
      var node :| node in nodes;
      nodes := nodes - {node};
      if |graph[node]| == 0 {
        assert graph[node] == map[];
        zero := zero + [node];
      }
    }
  }

  method SetMinus(a: seq<ID>, b: seq<ID>) returns (result: seq<ID>)
    ensures forall v :: v in result <==> v in a && v !in b
    ensures (forall i, j :: 0 <= i < j < |a| ==> a[i] != a[j]) ==>
              forall i, j :: 0 <= i < j < |result| ==> result[i] != result[j]
  {
    result := [];
    for i := 0 to |a|
      invariant forall v :: v in result <==> v in a[..i] && v !in b
      invariant (forall i, j :: 0 <= i < j < |a| ==> a[i] != a[j]) ==>
                  forall i, j :: 0 <= i < j < |result| ==> result[i] != result[j]
    {
      if a[i] !in b {
        assert (forall i, j :: 0 <= i < j < |a| ==> a[i] != a[j]) ==> a[i] !in a[..i];
        result := result + [a[i]];
      }
    }
    assert a[..|a|] == a;
  }
}
