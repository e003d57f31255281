/** Storing blocks, walking them, and pruning the index by view. */
module BlockChain {
  import opened HotStuff

  /** Following parent links from `block` down to `target`'s view leads to `target`. */
  predicate Extends(chain: Chain, block: Block, target: Block)
    requires WellHashed(chain) && HashLinked(block)
    decreases block.hash
  {
    if block.view > target.view then
      block.parent in chain && Extends(chain, chain[block.parent], target)
    else
      block.hash == target.hash
  }

  method WalkToTarget(chain: Chain, block: Block, target: Block) returns (r: bool)
    requires WellHashed(chain) && HashLinked(block)
    ensures r == Extends(chain, block, target)
  {
    var current := block;
    var ok := true;
    while ok && current.view > target.view
      invariant HashLinked(current)
      invariant Extends(chain, block, target) == (ok && Extends(chain, current, target))
      decreases ok, current.hash
    {
      var parent := Get(chain, current.parent);
      ok := parent.Some?;
      if ok {
        current := parent.value;
      }
    }
    return ok && current.hash == target.hash;
  }

  // ---------------------------------------------------------------- landing

  /** The block that the walk along parent links from `block` down to `view` ends in, if all the
      blocks on the way are found. */
  function Landing(chain: Chain, view: View, block: Block): Option<Hash>
    requires WellHashed(chain) && HashLinked(block)
    decreases block.hash
  {
    if block.view <= view then Some(block.hash)
    else if block.parent !in chain then None
    else Landing(chain, view, chain[block.parent])
  }

  /** The walk from `block` down to `target`'s view misses a block, or ends in `target`. */
  predicate Lands(chain: Chain, target: Block, block: Block)
    requires WellHashed(chain) && HashLinked(block)
  {
    var end := Landing(chain, target.view, block);
    end.Some? ==> end.value == target.hash
  }

  /** Extends says that the walk misses no block and ends in the target. */
  lemma {:induction false} ExtendsIsLanding(chain: Chain, block: Block, target: Block)
    requires WellHashed(chain) && HashLinked(block)
    ensures Extends(chain, block, target) <==> Landing(chain, target.view, block) == Some(target.hash)
    decreases block.hash
  {
    if block.view > target.view && block.parent in chain {
      ExtendsIsLanding(chain, chain[block.parent], target);
    }
  }

  /** Finding more blocks does not change where a walk ends. */
  lemma {:induction false} LandingStays(chain: Chain, more: Chain, view: View, block: Block)
    requires WellHashed(chain) && WellHashed(more) && HashLinked(block)
    requires forall h :: h in chain ==> h in more && more[h] == chain[h]
    ensures Landing(chain, view, block).Some? ==> Landing(more, view, block) == Landing(chain, view, block)
    decreases block.hash
  {
    if block.view > view && block.parent in chain {
      LandingStays(chain, more, view, chain[block.parent]);
    }
  }

  /** A walk can be taken in two parts. */
  lemma {:induction false} LandingThrough(chain: Chain, middle: View, view: View, block: Block)
    requires WellHashed(chain) && Stored(chain, block) && view <= middle
    ensures match Landing(chain, middle, block)
            case None => Landing(chain, view, block) == None
            case Some(w) =>
              w in chain && chain[w].view <= middle && Landing(chain, view, block) == Landing(chain, view, chain[w])
    decreases block.hash
  {
    if block.view > middle && block.parent in chain {
      LandingThrough(chain, middle, view, chain[block.parent]);
    }
  }

  /** A block that lands on one that lands on a third lands on the third. */
  lemma LandsOn(chain: Chain, target: Block, between: Block, block: Block)
    requires WellHashed(chain) && Stored(chain, block) && Stored(chain, between)
    requires target.view <= between.view && Lands(chain, target, between) && Lands(chain, between, block)
    ensures Lands(chain, target, block)
  {
    LandingThrough(chain, between.view, target.view, block);
  }

  // ---------------------------------------------------------------- branches

  /** `block` with its stored ancestors, by parent links. */
  ghost function Branch(blocks: Chain, block: Block): set<Block>
    requires WellHashed(blocks) && HashLinked(block)
    decreases block.hash
  {
    {block} + if block.parent in blocks then Branch(blocks, blocks[block.parent]) else {}
  }

  /** A stored block's stored parent has a smaller view. */
  ghost predicate ViewsDescend(blocks: Chain) {
    forall h :: h in blocks && blocks[h].parent in blocks ==> blocks[blocks[h].parent].view < blocks[h].view
  }

  ghost predicate OnePerView(blocks: Chain) {
    forall g, h :: g in blocks && h in blocks && blocks[g].view == blocks[h].view ==> g == h
  }

  ghost predicate Stored(blocks: Chain, b: Block) {
    b.hash in blocks && blocks[b.hash] == b
  }

  lemma {:induction false} BranchDescends(blocks: Chain, block: Block)
    requires WellHashed(blocks) && ViewsDescend(blocks) && Stored(blocks, block)
    ensures forall b :: b in Branch(blocks, block) ==> Stored(blocks, b) && b.view <= block.view
    decreases block.hash
  {
    if block.parent in blocks {
      BranchDescends(blocks, blocks[block.parent]);
    }
  }

  /** Extends says that the target is on the branch, for stored blocks of descending views. */
  lemma {:induction false} ExtendsIsOnBranch(blocks: Chain, block: Block, target: Block)
    requires WellHashed(blocks) && ViewsDescend(blocks) && Stored(blocks, block) && Stored(blocks, target)
    ensures Extends(blocks, block, target) <==> target in Branch(blocks, block)
    decreases block.hash
  {
    BranchDescends(blocks, block);
    if block.view > target.view {
      if block.parent in blocks {
        ExtendsIsOnBranch(blocks, blocks[block.parent], target);
      }
    } else if block.parent in blocks {
      BranchDescends(blocks, blocks[block.parent]);
    }
  }

  // ---------------------------------------------------------------- the index

  /** The stored blocks, the block indexed for each view, and the view up to which the index was pruned. */
  datatype Contents = Contents(blocks: Chain, index: map<View, Block>, pruneHeight: View) {
    ghost predicate Valid() {
      WellHashed(blocks) && forall v :: v in index ==> index[v].view == v && Stored(blocks, index[v])
    }

    /** Above the pruned height every stored block is in the index. */
    ghost predicate Indexed() {
      forall h :: h in blocks && blocks[h].view > pruneHeight ==>
                    blocks[h].view in index && index[blocks[h].view] == blocks[h]
    }

    /** The contents with one block more. */
    function With(block: Block): Contents {
      Contents(blocks[block.hash := block], index[block.view := block], pruneHeight)
    }

    /** The contents after pruning up to `height`. */
    function Pruned(height: View): Contents {
      Contents(blocks, map v | v in index && !(pruneHeight < v <= height) :: index[v], height)
    }

    /** Where the walk along the committed branch goes from view `h`. */
    function Next(h: View): Option<View> {
      if h >= pruneHeight && h in index && index[h].parent in blocks && blocks[index[h].parent].view >= pruneHeight
      then Some(blocks[index[h].parent].view)
      else None
    }

    /** Where it is after `n` steps, if it has not ended. */
    function Walk(h: View, n: nat): Option<View>
      decreases n
    {
      if n == 0 then Some(h)
      else
        match Next(h)
        case None => None
        case Some(v) => Walk(v, n - 1)
    }

    /** The walk from `h` ends without coming to a view of `seen`, or to a view twice. */
    predicate Ends(seen: set<View>, h: View)
      decreases index.Keys - seen
    {
      && h !in seen
      && match Next(h)
         case None => true
         case Some(v) => Smaller(seen, h); Ends(seen + {h}, v)
    }

    /** The views that the walk from `h` comes by before it comes to a view of `seen`. */
    function Marked(seen: set<View>, h: View): set<View>
      decreases index.Keys - seen
    {
      if h in seen then {}
      else
        {h} +
        match Next(h)
        case None => {}
        case Some(v) => Smaller(seen, h); Marked(seen + {h}, v)
    }

    lemma Smaller(seen: set<View>, h: View)
      requires h !in seen && Next(h).Some?
      ensures index.Keys - (seen + {h}) < index.Keys - seen
    {
      assert h in index.Keys - seen;
    }

    /** The indexed blocks of the views up to `top` and above the pruned height that are not marked. */
    function Unmarked(marked: set<View>, top: View): seq<Block>
      decreases top
    {
      if top <= pruneHeight then []
      else (if top !in marked && top in index then [index[top]] else []) + Unmarked(marked, top - 1)
    }

    /** What pruning up to `height` reports when the last committed block is of view `committedHeight`. */
    function Forked(height: View, committedHeight: View): seq<Block> {
      Unmarked(Marked({}, committedHeight), height)
    }
  }

  // ---------------------------------------------------------------- the walk ends

  lemma {:induction false} WalkOn(s: Contents, h: View, n: nat, m: nat)
    ensures s.Walk(h, n + m) ==
            match s.Walk(h, n)
            case None => None
            case Some(v) => s.Walk(v, m)
    decreases n
  {
    if n > 0 && s.Next(h).Some? {
      WalkOn(s, s.Next(h).value, n - 1, m);
    }
  }

  /** A walk that comes back never ends. */
  lemma {:induction false} CycleGoesOn(s: Contents, h: View, k: nat, n: nat)
    requires k > 0 && s.Walk(h, k) == Some(h)
    ensures s.Walk(h, n).Some?
    decreases n
  {
    if n < k {
      WalkOn(s, h, n, k - n);
    } else {
      CycleGoesOn(s, h, k, n - k);
      WalkOn(s, h, k, n - k);
    }
  }

  lemma {:induction false} EndsAfter(s: Contents, seen: set<View>, h: View) returns (n: nat)
    requires s.Ends(seen, h)
    ensures s.Walk(h, n) == None
    decreases s.index.Keys - seen
  {
    n := 1;
    if s.Next(h).Some? {
      s.Smaller(seen, h);
      n := EndsAfter(s, seen + {h}, s.Next(h).value);
      n := n + 1;
    }
  }

  ghost predicate Reaches(s: Contents, x: View, h: View) {
    exists k: nat :: k > 0 && s.Walk(x, k) == Some(h)
  }

  lemma {:induction false} GoesOn(s: Contents, seen: set<View>, h: View, n: nat)
    requires !s.Ends(seen, h) && forall x :: x in seen ==> Reaches(s, x, h)
    ensures s.Walk(h, n).Some?
    decreases s.index.Keys - seen
  {
    if h in seen {
      var k: nat :| k > 0 && s.Walk(h, k) == Some(h);
      CycleGoesOn(s, h, k, n);
    } else if n > 0 {
      var v := s.Next(h).value;
      s.Smaller(seen, h);
      forall x | x in seen + {h} ensures Reaches(s, x, v) {
        assert s.Walk(h, 1) == Some(v) by {
          assert s.Walk(v, 0) == Some(v);
        }
        if x != h {
          var k: nat :| k > 0 && s.Walk(x, k) == Some(h);
          WalkOn(s, x, k, 1);
          assert s.Walk(x, k + 1) == Some(v);
        }
      }
      GoesOn(s, seen + {h}, v, n - 1);
    }
  }

  /** The walk that PruneToHeight takes ends exactly when it comes to no view twice. */
  lemma EndsExactly(s: Contents, h: View)
    ensures s.Ends({}, h) <==> exists n: nat :: s.Walk(h, n) == None
  {
    if s.Ends({}, h) {
      var n := EndsAfter(s, {}, h);
    } else {
      forall n: nat ensures s.Walk(h, n).Some? {
        GoesOn(s, {}, h, n);
      }
    }
  }

  /** It ends when views descend along parent links. */
  lemma {:induction false} DescendingEnds(s: Contents, seen: set<View>, h: View)
    requires s.Valid() && ViewsDescend(s.blocks) && forall x :: x in seen ==> x > h
    ensures s.Ends(seen, h)
    decreases h
  {
    if s.Next(h).Some? {
      assert Stored(s.blocks, s.index[h]);
      DescendingEnds(s, seen + {h}, s.Next(h).value);
    }
  }

  /** It ends when no two stored blocks share a view, because hashes descend. */
  lemma {:induction false} OnePerViewEnds(s: Contents, seen: set<View>, h: View)
    requires s.Valid() && OnePerView(s.blocks)
    requires forall x :: x in seen ==> x in s.index && (h in s.index ==> s.index[x].hash > s.index[h].hash)
    ensures s.Ends(seen, h)
    decreases s.index.Keys - seen
  {
    if s.Next(h).Some? {
      s.Smaller(seen, h);
      var b, v := s.index[h], s.Next(h).value;
      assert HashLinked(s.blocks[b.hash]) && s.blocks[b.parent].view == v;
      OnePerViewEnds(s, seen + {h}, v);
    }
  }

  /** It need not end when a block is stored over its own parent's view. */
  lemma WalkNeedNotEnd(view: View)
    requires view > 0
    ensures var b2, b3 := Block(2, 1, GENESIS.cert, view, 0, ""), Block(3, 2, GENESIS.cert, view, 0, "");
            var s := Contents(map[GENESIS_HASH := GENESIS], map[0 := GENESIS], 0).With(b2).With(b3);
            s.Valid() && !s.Indexed() && !s.Ends({}, view) && forall n: nat :: s.Walk(view, n).Some?
  {
    var b2, b3 := Block(2, 1, GENESIS.cert, view, 0, ""), Block(3, 2, GENESIS.cert, view, 0, "");
    var s := Contents(map[GENESIS_HASH := GENESIS], map[0 := GENESIS], 0).With(b2).With(b3);
    assert s.blocks[2] == b2 && s.index[view] == b3;
    assert s.Next(view) == Some(view);
    assert !s.Ends({view}, view);
    EndsExactly(s, view);
  }

  // ---------------------------------------------------------------- the store

  class BlockStore {
    var pruneHeight: View
    var blocks: Chain
    var blockAtHeight: map<View, Block>

    ghost function State(): Contents
      reads this
    {
      Contents(blocks, blockAtHeight, pruneHeight)
    }

    ghost predicate Valid()
      reads this
    {
      State().Valid()
    }

    constructor ()
      ensures Valid() && State().Indexed()
      ensures State() == Contents(map[GENESIS_HASH := GENESIS], map[0 := GENESIS], 0)
    {
      pruneHeight := 0;
      blocks := map[GENESIS_HASH := GENESIS];
      blockAtHeight := map[0 := GENESIS];
    }

    /** The index stays complete as long as no two stored blocks have the same view. */
    method Store(block: Block)
      requires Valid() && HashLinked(block) && (block.hash in blocks ==> blocks[block.hash] == block)
      modifies this
      ensures Valid() && State() == old(State()).With(block)
      ensures blocks == old(blocks)[block.hash := block] && blockAtHeight == old(blockAtHeight)[block.view := block]
      ensures pruneHeight == old(pruneHeight)
      ensures old(State()).Indexed() && OnePerView(blocks) ==> State().Indexed()
    {
      blocks := blocks[block.hash := block];
      blockAtHeight := blockAtHeight[block.view := block];
      StaysIndexed(old(State()), block);
    }

    /** Returns the indexed blocks above the old pruned height, up to `height`, whose views the walk
        down from the committed block does not mark; all of that range leaves the index. The walk has
        to end. */
    method PruneToHeight(height: View, committedHeight: View) returns (forked: seq<Block>)
      requires Valid() && State().Ends({}, committedHeight)
      modifies this
      ensures Valid() && State() == old(State()).Pruned(height)
      ensures blocks == old(blocks) && pruneHeight == height
      ensures forall v :: v in blockAtHeight <==> v in old(blockAtHeight) && !(old(pruneHeight) < v <= height)
      ensures forall v :: v in blockAtHeight ==> blockAtHeight[v] == old(blockAtHeight)[v]
      ensures forked == old(State()).Forked(height, committedHeight)
      ensures old(State()).Indexed() && height >= old(pruneHeight) ==> State().Indexed()
    {
      var committedViews := MarkCommitted(committedHeight);
      forked := CollectForked(height, committedViews);
      pruneHeight := height;
    }

    /** The loop from `height` down. */
    method CollectForked(height: View, committedViews: set<View>) returns (forked: seq<Block>)
      modifies this`blockAtHeight
      ensures forked == old(State()).Unmarked(committedViews, height)
      ensures blockAtHeight == old(State()).Pruned(height).index
    {
      forked := [];
      var h: nat := height;
      ghost var s := State();
      while h > pruneHeight
        invariant forked + s.Unmarked(committedViews, h) == s.Unmarked(committedViews, height)
        invariant h <= height && (h < height ==> h >= pruneHeight)
        invariant forall v :: v in blockAtHeight <==> v in s.index && !(h < v <= height)
        invariant forall v :: v in blockAtHeight ==> blockAtHeight[v] == s.index[v]
        decreases h
      {
        ghost var before := forked;
        if h !in committedViews {
          if h in blockAtHeight {
            forked := forked + [blockAtHeight[h]];
          }
        }
        UnmarkedStep(s, committedViews, h, before, forked);
        blockAtHeight := blockAtHeight - {h};
        h := h - 1;
      }
    }

    method MarkCommitted(committedHeight: View) returns (committedViews: set<View>)
      requires Valid() && State().Ends({}, committedHeight)
      ensures committedViews == State().Marked({}, committedHeight)
    {
      committedViews := {committedHeight};
      var h: View := committedHeight;
      ghost var seen: set<View> := {};
      while h >= pruneHeight
        invariant State().Ends(seen, h) && h in committedViews
        invariant committedViews + State().Marked(seen, h) == State().Marked({}, committedHeight)
        decreases blockAtHeight.Keys - seen
      {
        if h !in blockAtHeight {
          break;
        }
        var block := blockAtHeight[h];
        if block.parent !in blocks || blocks[block.parent].view < pruneHeight {
          break;
        }
        State().Smaller(seen, h);
        seen := seen + {h};
        h := blocks[block.parent].view;
        committedViews := committedViews + {h};
      }
    }
  }

  lemma StaysIndexed(s: Contents, block: Block)
    requires s.Valid() && HashLinked(block) && (block.hash in s.blocks ==> s.blocks[block.hash] == block)
    ensures s.With(block).Valid()
    ensures s.Indexed() && OnePerView(s.With(block).blocks) ==> s.With(block).Indexed()
  {
    var more := s.With(block).blocks;
    if s.Indexed() && OnePerView(more) {
      forall h | h in more && more[h].view > s.pruneHeight
        ensures more[h].view in s.With(block).index && s.With(block).index[more[h].view] == more[h]
      {
        assert block.hash in more && more[block.hash] == block;
        assert more[h].view == more[block.hash].view ==> h == block.hash;
      }
    }
  }

  lemma UnmarkedStep(s: Contents, marked: set<View>, h: View, before: seq<Block>, after: seq<Block>)
    requires h > s.pruneHeight
    requires after == if h !in marked && h in s.index then before + [s.index[h]] else before
    ensures after + s.Unmarked(marked, h - 1) == before + s.Unmarked(marked, h)
  {
  }

  /** From view `u` the walk goes on to view `v`: that of the parent of the block indexed at `u`, if both
      are found and neither view has been pruned. */
  ghost predicate Leads(s: Contents, u: View, v: View) {
    && u >= s.pruneHeight && u in s.index && s.index[u].parent in s.blocks
    && v == s.blocks[s.index[u].parent].view && v >= s.pruneHeight
  }

  /** The marked views are the one that the walk starts from and those it leads to. */
  lemma {:induction false} MarkedAreLedTo(s: Contents, seen: set<View>, h: View)
    requires s.Ends(seen, h)
    ensures h in s.Marked(seen, h) && s.Marked(seen, h) !! seen
    ensures forall u, v :: u in s.Marked(seen, h) && Leads(s, u, v) ==> v in s.Marked(seen, h)
    ensures forall v :: v in s.Marked(seen, h) && v != h ==> exists u :: u in s.Marked(seen, h) && Leads(s, u, v)
    decreases s.index.Keys - seen
  {
    if s.Next(h).Some? {
      var next := s.Next(h).value;
      s.Smaller(seen, h);
      MarkedAreLedTo(s, seen + {h}, next);
      assert Leads(s, h, next);
      forall v | v in s.Marked(seen, h) && v != h ensures exists u :: u in s.Marked(seen, h) && Leads(s, u, v) {
        if v != next {
          var u :| u in s.Marked(seen + {h}, next) && Leads(s, u, v);
        }
      }
    }
  }

  // ---------------------------------------------------------------- what pruning reports

  /** The marked views above the pruned height are those of the committed branch, when it is indexed
      there. */
  lemma {:induction false} MarkedAreBranchViews(s: Contents, seen: set<View>, committed: Block, v: View)
    requires s.Valid() && ViewsDescend(s.blocks) && Stored(s.blocks, committed) && v > s.pruneHeight
    requires forall x :: x in seen ==> x > committed.view
    requires forall b :: b in Branch(s.blocks, committed) && b.view > s.pruneHeight ==>
              b.view in s.index && s.index[b.view] == b
    ensures v in s.Marked(seen, committed.view) <==> exists b :: b in Branch(s.blocks, committed) && b.view == v
    decreases committed.hash
  {
    BranchDescends(s.blocks, committed);
    if committed.view <= s.pruneHeight {
      MarkedAtMost(s, seen, committed.view, v);
    } else {
      assert committed in Branch(s.blocks, committed) && s.index[committed.view] == committed;
      if committed.parent in s.blocks {
        var p := s.blocks[committed.parent];
        assert s.blocks[committed.hash] == committed;
        MarkedAreBranchViews(s, seen + {committed.view}, p, v);
        BranchDescends(s.blocks, p);
        assert Branch(s.blocks, committed) == {committed} + Branch(s.blocks, p);
      } else {
        assert Branch(s.blocks, committed) == {committed};
      }
    }
  }

  lemma {:induction false} MarkedAtMost(s: Contents, seen: set<View>, h: View, v: View)
    requires s.Valid() && ViewsDescend(s.blocks)
    ensures v in s.Marked(seen, h) ==> v <= h
    decreases h
  {
    if h !in seen && s.Next(h).Some? {
      assert Stored(s.blocks, s.index[h]);
      MarkedAtMost(s, seen + {h}, s.Next(h).value, v);
    }
  }

  lemma {:induction false} UnmarkedAre(s: Contents, marked: set<View>, top: View, b: Block)
    requires s.Valid()
    ensures b in s.Unmarked(marked, top) <==>
              s.pruneHeight < b.view <= top && b.view !in marked && b.view in s.index && s.index[b.view] == b
    decreases top
  {
    if top > s.pruneHeight {
      UnmarkedAre(s, marked, top - 1, b);
      var first := if top !in marked && top in s.index then [s.index[top]] else [];
      assert s.Unmarked(marked, top) == first + s.Unmarked(marked, top - 1);
    }
  }

  lemma {:induction false} UnmarkedDescend(s: Contents, marked: set<View>, top: View)
    requires s.Valid()
    ensures Descends(s.Unmarked(marked, top))
    decreases top
  {
    if top > s.pruneHeight {
      var rest := s.Unmarked(marked, top - 1);
      UnmarkedDescend(s, marked, top - 1);
      if top !in marked && top in s.index {
        assert s.Unmarked(marked, top) == [s.index[top]] + rest;
        forall b | b in rest ensures b.view < top {
          UnmarkedAre(s, marked, top - 1, b);
        }
        OneHigher(s.index[top], rest);
      }
    }
  }

  ghost predicate Descends(blocks: seq<Block>) {
    forall j, k :: 0 <= j < k < |blocks| ==> blocks[j].view > blocks[k].view
  }

  lemma OneHigher(b: Block, rest: seq<Block>)
    requires Descends(rest) && forall x :: x in rest ==> x.view < b.view
    ensures Descends([b] + rest)
  {
  }

  /** Pruning separates forks: with one stored block per view, descending views and the stored blocks
      indexed above the pruned height, the blocks returned are exactly the stored ones of the pruned
      range off the committed branch, each once. */
  lemma PruningSeparatesForks(s: Contents, height: View, committed: Block)
    requires s.Valid() && s.Indexed() && ViewsDescend(s.blocks) && OnePerView(s.blocks) && Stored(s.blocks, committed)
    ensures var forked := s.Forked(height, committed.view);
            && s.Ends({}, committed.view)
            && (forall b :: b in forked <==>
                  Stored(s.blocks, b) && s.pruneHeight < b.view <= height && b !in Branch(s.blocks, committed))
            && Descends(forked)
  {
    var marked := s.Marked({}, committed.view);
    var forked := s.Forked(height, committed.view);
    DescendingEnds(s, {}, committed.view);
    forall b
      ensures b in forked <==>
                Stored(s.blocks, b) && s.pruneHeight < b.view <= height && b !in Branch(s.blocks, committed)
    {
      UnmarkedAre(s, marked, height, b);
      if b.view > s.pruneHeight {
        MarkedIsOnBranch(s, committed, b);
      }
    }
    UnmarkedDescend(s, marked, height);
  }

  lemma MarkedIsOnBranch(s: Contents, committed: Block, b: Block)
    requires s.Valid() && s.Indexed() && ViewsDescend(s.blocks) && OnePerView(s.blocks) && Stored(s.blocks, committed)
    requires b.view > s.pruneHeight
    ensures Stored(s.blocks, b) ==> (b.view in s.Marked({}, committed.view) <==> b in Branch(s.blocks, committed))
  {
    BranchDescends(s.blocks, committed);
    MarkedAreBranchViews(s, {}, committed, b.view);
    if Stored(s.blocks, b) && b.view in s.Marked({}, committed.view) {
      var a :| a in Branch(s.blocks, committed) && a.view == b.view;
      assert Stored(s.blocks, a) && s.blocks[a.hash].view == s.blocks[b.hash].view;
    }
  }
}
