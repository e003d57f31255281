/** The concurrent search for the tree with the lowest quorum latency: one worker a root, all of them
    sharing one optimum under a mutex. Evaluating a tree touches the shared optimum only inside one
    critical section, so an interleaving is an order in which the workers take their next tree. */
module OptimalTree {
  import Quorum
  import opened UniqueTrees
  import opened TreeCount
  import opened Score
  import opened TreePasses
  import opened Symmetry
  import opened PathTimes
  import opened Evaluation

  const BOUND: int := 10000000

  /** The smallest size of which any two sets of nodes share more than the faulty ones. */
  function QuorumSize(n: nat): (q: nat)
    ensures 2 * q - n > Quorum.NumFaulty(n) && 2 * (q - 1) - n <= Quorum.NumFaulty(n)
  {
    (n + Quorum.NumFaulty(n) + 2) / 2 // (n + f + 1) / 2 rounded up
  }

  /** `base` without its element at `index`. */
  function Without(base: seq<int>, index: nat): seq<int>
    requires index < |base|
  {
    base[..index] + base[index + 1..]
  }

  method NewSubtree(root: int, baseTree: seq<int>, ghost index: nat) returns (tree: seq<int>)
    requires StrictlySorted(baseTree) && index < |baseTree| && baseTree[index] == root
    ensures tree == Without(baseTree, index)
    ensures StrictlySorted(tree) && forall x :: x in tree <==> x in baseTree && x != root
  {
    var i := 0;
    while baseTree[i] != root
      invariant i <= index
      decreases index - i
    {
      i := i + 1;
    }
    return baseTree[..i] + baseTree[i + 1..];
  }

  method NewNodes(root: int, tree: seq<int>) returns (nodes: array<Node>)
    ensures fresh(nodes) && Reset(nodes[..], tree) && nodes[0].id == root
  {
    nodes := new Node[|tree| + 1](_ => Node(root, 1, 0, 0, 0));
    for i := 0 to |tree|
      invariant nodes[0] == Node(root, 1, 0, 0, 0)
      invariant forall k :: 0 < k <= i ==> nodes[k] == Node(tree[k - 1], 1, 0, 0, 0)
    {
      nodes[i + 1] := Node(tree[i], 1, 0, 0, 0);
    }
  }

  /** The result shared by the workers. */
  class Optimum {
    var latency: int
    var nodes: seq<Node>

    constructor ()
      ensures latency == BOUND
    {
      latency := BOUND;
      nodes := [];
    }
  }

  /** The nodes spell out a root and an arrangement of the others with quorum latency `latency`. */
  ghost predicate Attains(lat: Latencies, quorum: int, bf: nat, base: seq<int>, nodes: seq<Node>, latency: int) {
    exists index :: AttainsAt(lat, quorum, bf, base, nodes, latency, index)
  }

  ghost predicate AttainsAt(lat: Latencies, quorum: int, bf: nat, base: seq<int>, nodes: seq<Node>, latency: int,
          index: nat) {
    && index < |base| && |nodes| == |base| && nodes[0].id == base[index]
    && Arrangement(Without(base, index), Ids(nodes)[1..])
    && FullTree(bf, Ids(nodes)[1..])
    && QcTime(lat, quorum, bf, base[index], Ids(nodes)[1..], latency)
  }

  class Worker {
    const root: int
    const nodes: array<Node>
    var bestLatency: int

    constructor (root: int, nodes: array<Node>)
      ensures this.root == root && this.nodes == nodes && bestLatency == BOUND
    {
      this.root, this.nodes := root, nodes;
      bestLatency := BOUND;
    }

    /** What the worker does with one enumerated tree; `t` is that tree's quorum latency. */
    method Eval(lat: Latencies, qs: int, bf: nat, tree: seq<int>, optimal: Optimum) returns (ghost t: int)
      requires FullTree(bf, tree) && Distinct(tree) && NonNegative(lat)
      requires nodes.Length == |tree| + 1 && nodes[0].id == root
      modifies this, nodes, optimal
      ensures nodes[0].id == root && QcTime(lat, qs, bf, root, tree, t)
      ensures t < old(bestLatency) && t < old(optimal.latency) ==>
                && bestLatency == optimal.latency == t
                && |optimal.nodes| == nodes.Length && optimal.nodes[0].id == root
                && Realises(lat, bf, tree, optimal.nodes)
                && QcTime(lat, qs, bf, root, Ids(optimal.nodes)[1..], t)
      ensures !(t < old(bestLatency) && t < old(optimal.latency)) ==>
                && optimal.latency == old(optimal.latency) && optimal.nodes == old(optimal.nodes)
                && bestLatency == if t < old(bestLatency) then optimal.latency else old(bestLatency)
    {
      ResetNodes(nodes, tree);
      var latency := QcLatency(lat, qs, bf, nodes, false, tree);
      t := latency;
      TimesAgree(lat, qs, bf, root, tree, t);
      TimesAgree(lat, qs, bf, root, Ids(nodes[..])[1..], t);
      if latency < bestLatency {
        // mutex.Lock()
        var optLat := optimal.latency;
        if latency < optLat {
          optimal.latency := latency;
          optimal.nodes := nodes[..];
          // mutex.Unlock()
          bestLatency := latency;
        } else {
          // mutex.Unlock()
          bestLatency := optLat;
        }
      }
    }
  }

  // ---------------------------------------------------------------- progress

  ghost function Left(calls: seq<seq<seq<int>>>, next: seq<nat>): nat
    requires |calls| == |next| && forall w :: 0 <= w < |next| ==> next[w] <= |calls[w]|
  {
    if next == [] then 0 else |calls[0]| - next[0] + Left(calls[1..], next[1..])
  }

  lemma {:induction false} StepLeaves(calls: seq<seq<seq<int>>>, next: seq<nat>, w: nat)
    requires |calls| == |next| && forall w :: 0 <= w < |next| ==> next[w] <= |calls[w]|
    requires w < |next| && next[w] < |calls[w]|
    ensures Left(calls, next[w := next[w] + 1]) < Left(calls, next)
  {
    if w > 0 {
      StepLeaves(calls[1..], next[1..], w - 1);
      assert next[w := next[w] + 1][1..] == next[1..][w - 1 := next[w] + 1];
    } else {
      assert next[w := next[w] + 1][1..] == next[1..];
    }
  }

  // ---------------------------------------------------------------- the search

  /** No tree that worker `w` has evaluated beats `latency`. */
  ghost predicate Unbeaten(lat: Latencies, qs: int, bf: nat, root: int, calls: seq<seq<int>>, done: nat, latency: int)
    requires done <= |calls|
  {
    forall k, t :: 0 <= k < done && FullTree(bf, calls[k]) && QcTime(lat, qs, bf, root, calls[k], t) ==> latency <= t
  }

  lemma EnumeratedTrees(base: seq<int>, bf: nat, index: nat, calls: seq<seq<int>>)
    requires bf > 0 && StrictlySorted(base) && |base| == TreeSize(bf) && index < |base|
    requires calls == Calls(Without(base, index), bf, [])
    ensures StrictlySorted(Without(base, index)) && FullTree(bf, Without(base, index))
    ensures forall k :: 0 <= k < |calls| ==>
              FullTree(bf, calls[k]) && Distinct(calls[k]) && Arrangement(Without(base, index), calls[k])
  {
    var tree := Without(base, index);
    assert StrictlySorted(tree) && FullTree(bf, tree);
    EnumerationIsExact(tree, bf);
    forall k | 0 <= k < |calls| ensures FullTree(bf, calls[k]) && Distinct(calls[k]) && Arrangement(tree, calls[k]) {
      assert calls[k] in calls;
      CallIsTree(bf, tree, calls[k]);
    }
  }

  lemma CallIsTree(bf: nat, tree: seq<int>, call: seq<int>)
    requires bf > 0 && StrictlySorted(tree) && FullTree(bf, tree) && Arrangement(tree, call)
    ensures FullTree(bf, call) && Distinct(call)
  {
    ArrangementIsDistinct(tree, call);
    assert |multiset(call)| == |multiset(tree)|;
  }

  /** Every root, with every arrangement of the other nodes, takes at least `latency`. */
  ghost predicate NoneBelow(lat: Latencies, qs: int, bf: nat, base: seq<int>, latency: int) {
    forall index, tree, t | 0 <= index < |base| && Arrangement(Without(base, index), tree) && FullTree(bf, tree) ::
      QcTime(lat, qs, bf, base[index], tree, t) ==> latency <= t
  }

  /** The worker of the root at `index`, and the trees its enumeration calls it with. */
  ghost predicate Started(w: Worker, base: seq<int>, bf: nat, index: nat, calls: seq<seq<int>>)
    requires bf > 0
    reads w, w.nodes
  {
    && index < |base| && w.root == base[index]
    && w.nodes.Length == |base| && w.nodes[0].id == w.root
    && Enumerated(base, bf, index, calls)
  }

  ghost predicate Enumerated(base: seq<int>, bf: nat, index: nat, calls: seq<seq<int>>)
    requires bf > 0 && index < |base|
  {
    && calls == Calls(Without(base, index), bf, [])
    && forall k :: 0 <= k < |calls| ==>
              FullTree(bf, calls[k]) && Distinct(calls[k]) && Arrangement(Without(base, index), calls[k])
  }

  ghost predicate Ready(base: seq<int>, bf: nat, workers: seq<Worker>, calls: seq<seq<seq<int>>>)
    requires bf > 0
    reads workers, set w | w in workers :: w.nodes
  {
    && |workers| == |calls| <= |base|
    && (forall w :: 0 <= w < |workers| ==> workers[w] in workers && Started(workers[w], base, bf, w, calls[w]))
    && (forall v, w :: 0 <= v < w < |workers| ==> workers[v] != workers[w] && workers[v].nodes != workers[w].nodes)
  }

  method StartWorker(bf: nat, baseTree: seq<int>, i: nat) returns (worker: Worker, calls: seq<seq<int>>)
    requires bf > 0 && StrictlySorted(baseTree) && |baseTree| == TreeSize(bf) && i < |baseTree|
    ensures Started(worker, baseTree, bf, i, calls) && worker.bestLatency == BOUND
    ensures fresh(worker) && fresh(worker.nodes)
  {
    var root := baseTree[i];
    var tree := NewSubtree(root, baseTree, i);
    var nodes := NewNodes(root, tree);
    worker := new Worker(root, nodes);
    EnumeratedTrees(baseTree, bf, i, Calls(tree, bf, []));
    var recorder := new Recorder();
    UniqueTrees.UniqueTrees(tree, bf, recorder);
    calls := recorder.calls;
  }

  method StartWorkers(bf: nat, baseTree: seq<int>) returns (workers: seq<Worker>, calls: seq<seq<seq<int>>>)
    requires bf > 0 && StrictlySorted(baseTree) && |baseTree| == TreeSize(bf)
    ensures |workers| == |baseTree| && Ready(baseTree, bf, workers, calls)
    ensures forall w :: w in workers ==> fresh(w) && fresh(w.nodes) && w.bestLatency == BOUND
  {
    workers, calls := [], [];
    for i := 0 to |baseTree|
      invariant |workers| == i && Ready(baseTree, bf, workers, calls)
      invariant forall w :: w in workers ==> fresh(w) && fresh(w.nodes) && w.bestLatency == BOUND
    {
      var worker, trees := StartWorker(bf, baseTree, i);
      workers, calls := workers + [worker], calls + [trees];
    }
  }

  /** What holds of the shared optimum between any two turns. */
  ghost predicate Progress(lat: Latencies, qs: int, bf: nat, base: seq<int>, calls: seq<seq<seq<int>>>, next: seq<nat>,
                           latency: int, nodes: seq<Node>)
  {
    && |next| == |calls| <= |base|
    && latency <= BOUND && (latency < BOUND ==> Attains(lat, qs, bf, base, nodes, latency))
    && forall w :: 0 <= w < |next| ==>
         next[w] <= |calls[w]| && Unbeaten(lat, qs, bf, base[w], calls[w], next[w], latency)
  }

  /** A turn of worker `w`: it evaluates its next tree. */
  method Turn(lat: Latencies, qs: int, bf: nat, base: seq<int>, workers: seq<Worker>, calls: seq<seq<seq<int>>>,
              next: seq<nat>, w: nat, optimal: Optimum)
    requires bf > 0 && NonNegative(lat) && Ready(base, bf, workers, calls)
    requires Progress(lat, qs, bf, base, calls, next, optimal.latency, optimal.nodes)
    requires w < |next| && next[w] < |calls[w]|
    requires forall v :: v in workers ==> optimal.latency <= v.bestLatency
    modifies workers[w], workers[w].nodes, optimal
    ensures Ready(base, bf, workers, calls)
    ensures Progress(lat, qs, bf, base, calls, next[w := next[w] + 1], optimal.latency, optimal.nodes)
    ensures forall v :: v in workers ==> optimal.latency <= v.bestLatency
  {
    ghost var was, nodes := optimal.latency, optimal.nodes;
    var worker := workers[w];
    ghost var t := worker.Eval(lat, qs, bf, calls[w][next[w]], optimal);
    if optimal.latency < was {
      assert AttainsAt(lat, qs, bf, base, optimal.nodes, optimal.latency, w);
    }
    Progressed(lat, qs, bf, base, calls, next, w, was, nodes, t, optimal.latency, optimal.nodes);
  }

  lemma Progressed(lat: Latencies, qs: int, bf: nat, base: seq<int>, calls: seq<seq<seq<int>>>, next: seq<nat>, w: nat,
                   was: int, nodes: seq<Node>, t: int, now: int, nodes': seq<Node>)
    requires Progress(lat, qs, bf, base, calls, next, was, nodes) && w < |next| && next[w] < |calls[w]|
    requires FullTree(bf, calls[w][next[w]]) && QcTime(lat, qs, bf, base[w], calls[w][next[w]], t)
    requires now <= was && now <= t
    requires now < was ==> Attains(lat, qs, bf, base, nodes', now)
    requires now == was ==> nodes' == nodes
    ensures Progress(lat, qs, bf, base, calls, next[w := next[w] + 1], now, nodes')
  {
    forall v | 0 <= v < |next| ensures Unbeaten(lat, qs, bf, base[v], calls[v], next[w := next[w] + 1][v], now) {
      if v == w {
        Evaluated(lat, qs, bf, base, w, calls[w], next[w], was, t, now);
      }
    }
  }

  /** `tree` is a full tree below `root`, and together they are the nodes of `base`, in any order. */
  ghost predicate IsTree(bf: nat, base: seq<int>, root: int, tree: seq<int>) {
    FullTree(bf, tree) && multiset([root] + tree) == multiset(base)
  }

  lemma TreeHasIndex(bf: nat, base: seq<int>, root: int, tree: seq<int>) returns (index: nat)
    requires IsTree(bf, base, root, tree) && |base| == |tree| + 1
    ensures index < |base| && base[index] == root && Arrangement(Without(base, index), tree)
  {
    index := RootIsThere(base, root, tree);
    WithoutOne(base, index);
    assert multiset([root] + tree) == multiset{root} + multiset(tree);
    assert multiset(tree) == multiset(base) - multiset{root};
  }

  lemma RootIsThere(base: seq<int>, root: int, tree: seq<int>) returns (index: nat)
    requires multiset([root] + tree) == multiset(base)
    ensures index < |base| && base[index] == root
  {
    assert ([root] + tree)[0] == root;
    assert root in multiset(base);
    assert root in base;
    index :| 0 <= index < |base| && base[index] == root;
  }

  lemma WithoutOne(base: seq<int>, index: nat)
    requires index < |base|
    ensures |Without(base, index)| == |base| - 1
    ensures multiset(base) == multiset(Without(base, index)) + multiset{base[index]}
    ensures multiset(Without(base, index)) == multiset(base) - multiset{base[index]}
  {
    assert base == base[..index] + [base[index]] + base[index + 1..];
  }

  lemma IndexHasTree(bf: nat, base: seq<int>, index: nat, tree: seq<int>)
    requires index < |base| && FullTree(bf, tree) && Arrangement(Without(base, index), tree)
    ensures IsTree(bf, base, base[index], tree)
  {
    WithoutOne(base, index);
    assert multiset([base[index]] + tree) == multiset{base[index]} + multiset(tree);
  }

  /** What no worker beats, no tree beats. */
  lemma NoTreeIsFaster(lat: Latencies, qs: int, bf: nat, base: seq<int>, latency: int)
    requires bf > 0 && NonNegative(lat) && |base| == TreeSize(bf) && NoneBelow(lat, qs, bf, base, latency)
    ensures forall root, tree, t ::
              IsTree(bf, base, root, tree) && LeastTime(lat, qs, bf, root, tree, t) ==> latency <= t
  {
    forall root, tree, t | IsTree(bf, base, root, tree) && LeastTime(lat, qs, bf, root, tree, t) ensures latency <= t {
      var index := TreeHasIndex(bf, base, root, tree);
      TimesAgree(lat, qs, bf, root, tree, t);
    }
  }

  lemma StoredIsTree(lat: Latencies, qs: int, bf: nat, base: seq<int>, nodes: seq<Node>, latency: int)
    requires NonNegative(lat) && Attains(lat, qs, bf, base, nodes, latency)
    ensures nodes != [] && IsTree(bf, base, nodes[0].id, Ids(nodes)[1..])
    ensures LeastTime(lat, qs, bf, nodes[0].id, Ids(nodes)[1..], latency)
  {
    var index :| AttainsAt(lat, qs, bf, base, nodes, latency, index);
    IndexHasTree(bf, base, index, Ids(nodes)[1..]);
    TimesAgree(lat, qs, bf, nodes[0].id, Ids(nodes)[1..], latency);
  }

  /** Some tree is fast where no latency reaches a quarter of the limit. */
  lemma SomeTreeIsFast(lat: Latencies, qs: int, bf: nat, base: seq<int>, latency: int)
    requires bf > 0 && NonNegative(lat) && |base| == TreeSize(bf) && forall a, b :: 4 * lat(a, b) < BOUND
    requires forall root, tree, t ::
              IsTree(bf, base, root, tree) && LeastTime(lat, qs, bf, root, tree, t) ==> latency <= t
    ensures latency < BOUND
  {
    var tree := base[1..];
    assert base == [base[0]] + tree;
    assert IsTree(bf, base, base[0], tree);
    var t := LeastExists(lat, qs, bf, base[0], tree);
    SmallLatencies(lat, qs, bf, base[0], tree, BOUND - 1, t);
  }

  /** The search ends, whatever the interleaving, with a latency that no tree of the nodes undercuts,
      whatever its root and order; when it is below the starting bound the stored nodes are such a tree and
      attain it. It is below the bound when every latency is below a quarter of it. */
  method QCOptimalTreeMutex(lat: Latencies, bf: nat, baseTree: seq<int>) returns (optimal: Optimum)
    requires bf > 0 && StrictlySorted(baseTree) && |baseTree| == TreeSize(bf) && NonNegative(lat)
    ensures optimal.latency <= 10000000
    ensures forall root, tree, t ::
              IsTree(bf, baseTree, root, tree) && LeastTime(lat, QuorumSize(|baseTree|), bf, root, tree, t) ==>
                optimal.latency <= t
    ensures optimal.latency < 10000000 ==>
              && optimal.nodes != []
              && var root, tree := optimal.nodes[0].id, Ids(optimal.nodes)[1..];
                 && IsTree(bf, baseTree, root, tree)
                 && LeastTime(lat, QuorumSize(|baseTree|), bf, root, tree, optimal.latency)
    ensures (forall a, b :: 4 * lat(a, b) < 10000000) ==> optimal.latency < 10000000
  {
    var treeSize := |baseTree|;
    var qs := QuorumSize(treeSize);
    var workers, calls := StartWorkers(bf, baseTree);
    optimal := new Optimum();
    var next: seq<nat> := seq(treeSize, _ => 0);
    while exists w :: 0 <= w < treeSize && next[w] < |calls[w]|
      invariant Ready(baseTree, bf, workers, calls) && fresh(optimal)
      invariant forall w :: w in workers ==> fresh(w) && fresh(w.nodes) && optimal.latency <= w.bestLatency
      invariant Progress(lat, qs, bf, baseTree, calls, next, optimal.latency, optimal.nodes)
      decreases Left(calls, next)
    {
      var w :| 0 <= w < treeSize && next[w] < |calls[w]|;
      StepLeaves(calls, next, w);
      Turn(lat, qs, bf, baseTree, workers, calls, next, w, optimal);
      next := next[w := next[w] + 1];
    }
    NothingLeft(lat, qs, bf, baseTree, calls, next, optimal.latency, optimal.nodes);
    Concluded(lat, qs, bf, baseTree, optimal.latency, optimal.nodes);
  }

  lemma Concluded(lat: Latencies, qs: int, bf: nat, base: seq<int>, latency: int, nodes: seq<Node>)
    requires bf > 0 && NonNegative(lat) && |base| == TreeSize(bf) && NoneBelow(lat, qs, bf, base, latency)
    requires latency < BOUND ==> Attains(lat, qs, bf, base, nodes, latency)
    ensures forall root, tree, t ::
              IsTree(bf, base, root, tree) && LeastTime(lat, qs, bf, root, tree, t) ==> latency <= t
    ensures latency < BOUND ==>
              && nodes != [] && IsTree(bf, base, nodes[0].id, Ids(nodes)[1..])
              && LeastTime(lat, qs, bf, nodes[0].id, Ids(nodes)[1..], latency)
    ensures (forall a, b :: 4 * lat(a, b) < BOUND) ==> latency < BOUND
  {
    NoTreeIsFaster(lat, qs, bf, base, latency);
    if latency < BOUND {
      StoredIsTree(lat, qs, bf, base, nodes, latency);
    }
    if forall a, b :: 4 * lat(a, b) < BOUND {
      SomeTreeIsFast(lat, qs, bf, base, latency);
    }
  }

  lemma NothingLeft(lat: Latencies, qs: int, bf: nat, base: seq<int>, calls: seq<seq<seq<int>>>, next: seq<nat>,
          latency: int, nodes: seq<Node>)
    requires bf > 0 && StrictlySorted(base) && |base| == TreeSize(bf) == |calls|
    requires Progress(lat, qs, bf, base, calls, next, latency, nodes)
    requires forall w :: 0 <= w < |calls| ==> Enumerated(base, bf, w, calls[w]) && next[w] >= |calls[w]|
    ensures NoneBelow(lat, qs, bf, base, latency)
  {
    forall index, tree, t | 0 <= index < |base| && Arrangement(Without(base, index), tree) && FullTree(bf, tree)
      ensures QcTime(lat, qs, bf, base[index], tree, t) ==> latency <= t
    {
      assert Unbeaten(lat, qs, bf, base[index], calls[index], next[index], latency);
      Covered(lat, qs, bf, base, index, calls[index], tree, t, latency);
    }
  }

  lemma Evaluated(lat: Latencies, qs: int, bf: nat, base: seq<int>, index: nat, calls: seq<seq<int>>, k: nat,
          was: int, t: int, now: int)
    requires index < |base| && k < |calls| && FullTree(bf, calls[k])
    requires Unbeaten(lat, qs, bf, base[index], calls, k, was) && QcTime(lat, qs, bf, base[index], calls[k], t)
    requires now <= was && now <= t
    ensures Unbeaten(lat, qs, bf, base[index], calls, k + 1, now)
  {
    forall u | QcTime(lat, qs, bf, base[index], calls[k], u) ensures u == t {
      EarliestIsUnique(qs, Internals(lat, base[index], Branches(bf, calls[k])), t, u);
    }
  }

  lemma Covered(lat: Latencies, qs: int, bf: nat, base: seq<int>, index: nat, calls: seq<seq<int>>, tree: seq<int>,
          t: int, latency: int)
    requires bf > 0 && StrictlySorted(base) && |base| == TreeSize(bf) && index < |base|
    requires Enumerated(base, bf, index, calls)
    requires Unbeaten(lat, qs, bf, base[index], calls, |calls|, latency)
    requires Arrangement(Without(base, index), tree) && FullTree(bf, tree)
    ensures QcTime(lat, qs, bf, base[index], tree, t) ==> latency <= t
  {
    EnumeratedTrees(base, bf, index, calls);
    EnumerationLosesNothing(lat, qs, bf, base[index], Without(base, index), tree, t);
    var k :| 0 <= k < |calls| && calls[k] == Canonical(bf, tree);
  }
}
