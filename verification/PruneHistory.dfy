/** What pruning reports over a whole history of storing blocks and committing. */
module PruneHistory {
  import opened HotStuff
  import opened BlockChain

  /** A block is stored, or a block is committed and the index pruned up to it. */
  datatype Op = StoreBlock(block: Block) | Commit(block: Block)

  /** The contents, all blocks reported as forked so far, the last committed block, and the blocks that
      were first stored when their views had been pruned already. */
  datatype History = History(store: Contents, reported: seq<Block>, committed: Block, late: set<Block>)

  function Start(): History {
    History(Contents(map[GENESIS_HASH := GENESIS], map[0 := GENESIS], 0), [], GENESIS, {})
  }

  function Apply(h: History, op: Op): History {
    match op
    case StoreBlock(b) =>
      var isLate := b.hash !in h.store.blocks && b.view <= h.store.pruneHeight;
      h.(store := h.store.With(b), late := if isLate then h.late + {b} else h.late)
    case Commit(b) =>
      h.(store := h.store.Pruned(b.view), reported := h.reported + h.store.Forked(b.view, b.view), committed := b)
  }

  function After(ops: seq<Op>): History {
    if ops == [] then Start() else Apply(After(ops[..|ops| - 1]), ops[|ops| - 1])
  }

  /** A stored block does not take another's hash. A committed block is stored with all its branch, which
      the block committed before is on. */
  ghost predicate Allowed(h: History, op: Op)
    requires WellHashed(h.store.blocks)
  {
    match op
    case StoreBlock(b) => HashLinked(b) && (b.hash in h.store.blocks ==> h.store.blocks[b.hash] == b)
    case Commit(b) => Stored(h.store.blocks, b) && Rooted(h.store.blocks, b) && h.committed in Branch(h.store.blocks, b)
  }

  ghost predicate IsHistory(ops: seq<Op>)
    decreases |ops|
  {
    ops == [] ||
    var before := ops[..|ops| - 1];
    IsHistory(before) && WellHashed(After(before).store.blocks) && Allowed(After(before), ops[|ops| - 1])
  }

  /** Views descend along parent links, and no two blocks share a view. */
  ghost predicate Smooth(h: History) {
    ViewsDescend(h.store.blocks) && OnePerView(h.store.blocks)
  }

  /** No block of the branch is missing. */
  ghost predicate Rooted(blocks: Chain, b: Block)
    requires WellHashed(blocks) && HashLinked(b)
  {
    Landing(blocks, 0, b) == Some(GENESIS_HASH)
  }

  /** The blocks of the pruned range off the committed branch that were there in time. */
  ghost predicate IsFork(h: History, b: Block)
    requires WellHashed(h.store.blocks) && HashLinked(h.committed)
  {
    && Stored(h.store.blocks, b) && 0 < b.view <= h.store.pruneHeight
    && b !in Branch(h.store.blocks, h.committed) && b !in h.late
  }

  ghost predicate Inv(h: History) {
    && h.store.Valid() && h.store.Indexed() && Smooth(h)
    && Stored(h.store.blocks, h.committed) && Rooted(h.store.blocks, h.committed)
    && h.committed.view == h.store.pruneHeight
    && LateIsOld(h) && Reports(h) && Distinct(h.reported)
  }

  ghost predicate LateIsOld(h: History) {
    forall b :: b in h.late ==> Stored(h.store.blocks, b) && b.view <= h.store.pruneHeight
  }

  /** Exactly the forks are reported. */
  ghost predicate Reports(h: History)
    requires WellHashed(h.store.blocks) && HashLinked(h.committed)
  {
    forall b :: b in h.reported <==> IsFork(h, b)
  }

  ghost predicate Distinct(blocks: seq<Block>) {
    forall j, k :: 0 <= j < k < |blocks| ==> blocks[j] != blocks[k]
  }

  // ---------------------------------------------------------------- branches

  /** A complete branch stays as it is. */
  lemma {:induction false} BranchStays(blocks: Chain, more: Chain, b: Block)
    requires WellHashed(blocks) && WellHashed(more) && HashLinked(b) && Rooted(blocks, b)
    requires forall h :: h in blocks ==> h in more && more[h] == blocks[h]
    requires b.view == 0 ==> b == GENESIS
    ensures Branch(more, b) == Branch(blocks, b) && Rooted(more, b)
    decreases b.hash
  {
    if b.view > 0 {
      var p := blocks[b.parent];
      assert Rooted(blocks, p);
      BranchStays(blocks, more, p);
    }
  }

  /** The older blocks of a branch are the branch of any older block on it. */
  lemma {:induction false} BranchBelow(blocks: Chain, top: Block, middle: Block, b: Block)
    requires WellHashed(blocks) && ViewsDescend(blocks) && Stored(blocks, top) && Stored(blocks, middle)
    requires middle in Branch(blocks, top) && b.view <= middle.view
    ensures b in Branch(blocks, top) <==> b in Branch(blocks, middle)
    decreases top.hash
  {
    if middle != top {
      var p := blocks[top.parent];
      BranchDescends(blocks, p);
      BranchBelow(blocks, p, middle, b);
    }
  }

  // ---------------------------------------------------------------- preservation

  lemma SmoothBefore(h: History, op: Op)
    requires WellHashed(h.store.blocks) && Allowed(h, op) && Smooth(Apply(h, op))
    ensures Smooth(h)
  {
    var blocks, more := h.store.blocks, Apply(h, op).store.blocks;
    assert forall x :: x in blocks ==> x in more && more[x] == blocks[x];
  }

  lemma StoreKeepsBranch(h: History, b: Block)
    requires Inv(h) && Allowed(h, StoreBlock(b))
    ensures var more := h.store.With(b).blocks;
            && WellHashed(more) && HashLinked(h.committed) && Rooted(more, h.committed)
            && Branch(more, h.committed) == Branch(h.store.blocks, h.committed)
  {
    assert Stored(h.store.blocks, GENESIS);
    assert HashLinked(h.store.blocks[h.committed.hash]);
    BranchStays(h.store.blocks, h.store.With(b).blocks, h.committed);
  }

  lemma StoreKeeps(h: History, b: Block)
    requires Inv(h) && Allowed(h, StoreBlock(b)) && Smooth(Apply(h, StoreBlock(b)))
    ensures Inv(Apply(h, StoreBlock(b)))
  {
    StaysIndexed(h.store, b);
    StoreKeepsBranch(h, b);
    StoreKeepsReports(h, b);
  }

  lemma StoreKeepsReports(h: History, b: Block)
    requires Inv(h) && Allowed(h, StoreBlock(b)) && WellHashed(h.store.With(b).blocks)
    requires Branch(h.store.With(b).blocks, h.committed) == Branch(h.store.blocks, h.committed)
    ensures LateIsOld(Apply(h, StoreBlock(b))) && Reports(Apply(h, StoreBlock(b)))
  {
    var h' := Apply(h, StoreBlock(b));
    forall x ensures x in h'.reported <==> IsFork(h', x) {
      StoreKeepsForks(h, b, x);
    }
  }

  lemma StoreKeepsForks(h: History, b: Block, x: Block)
    requires WellHashed(h.store.blocks) && HashLinked(h.committed) && Reports(h)
    requires Allowed(h, StoreBlock(b)) && WellHashed(h.store.With(b).blocks)
    requires Branch(h.store.With(b).blocks, h.committed) == Branch(h.store.blocks, h.committed)
    ensures x in h.reported <==> IsFork(Apply(h, StoreBlock(b)), x)
  {
    assert x in h.reported <==> IsFork(h, x);
  }

  lemma CommitKeeps(h: History, c: Block)
    requires Inv(h) && Allowed(h, Commit(c))
    ensures Inv(Apply(h, Commit(c)))
  {
    var h' := Apply(h, Commit(c));
    var forked := h.store.Forked(c.view, c.view);
    BranchDescends(h.store.blocks, c);
    PruningSeparatesForks(h.store, c.view, c);
    forall x ensures x in h'.reported <==> IsFork(h', x) {
      CommitKeepsForks(h, c, x);
    }
    Disjoint(h.reported, forked);
  }

  lemma CommitKeepsForks(h: History, c: Block, x: Block)
    requires Inv(h) && Allowed(h, Commit(c)) && c.view >= h.committed.view
    ensures var h' := Apply(h, Commit(c)); HashLinked(h'.committed) && (x in h'.reported <==> IsFork(h', x))
  {
    PruningSeparatesForks(h.store, c.view, c);
    assert x in h.reported <==> IsFork(h, x);
    if x.view <= h.committed.view {
      BranchBelow(h.store.blocks, c, h.committed, x);
    }
  }

  lemma OpKeeps(h: History, op: Op)
    requires Inv(h) && Allowed(h, op) && Smooth(Apply(h, op))
    ensures Inv(Apply(h, op))
  {
    match op
    case StoreBlock(b) => StoreKeeps(h, b);
    case Commit(c) => CommitKeeps(h, c);
  }

  lemma Disjoint(a: seq<Block>, b: seq<Block>)
    requires Distinct(a) && Distinct(b) && forall x :: x in a ==> x !in b
    ensures Distinct(a + b)
  {
    forall j, k | 0 <= j < k < |a + b| ensures (a + b)[j] != (a + b)[k] {
      if j < |a| <= k {
        assert a[j] in a && b[k - |a|] in b;
      }
    }
  }

  lemma {:induction false} HistoryKeeps(ops: seq<Op>)
    requires IsHistory(ops) && Smooth(After(ops))
    ensures Inv(After(ops))
    decreases |ops|
  {
    if ops == [] {
      assert Branch(Start().store.blocks, GENESIS) == {GENESIS};
    } else {
      var before, last := ops[..|ops| - 1], ops[|ops| - 1];
      SmoothBefore(After(before), last);
      HistoryKeeps(before);
      OpKeeps(After(before), last);
    }
  }

  /** Over any history of storing and committing along one branch, with one block a view and descending
      views: every stored block of the pruned range off the committed branch is reported exactly once,
      unless it came too late, and nothing else is reported. */
  lemma ForksAreReportedOnce(ops: seq<Op>)
    requires IsHistory(ops) && Smooth(After(ops))
    ensures var h := After(ops);
            && WellHashed(h.store.blocks) && HashLinked(h.committed)
            && (forall b :: b in h.reported <==> IsFork(h, b))
            && Distinct(h.reported)
  {
    HistoryKeeps(ops);
  }

  /** A store goes through the history. */
  method Replay(ops: seq<Op>) returns (store: BlockStore, reported: seq<Block>)
    requires IsHistory(ops) && Smooth(After(ops))
    ensures store.State() == After(ops).store && reported == After(ops).reported
  {
    store := new BlockStore();
    reported := [];
    for i := 0 to |ops|
      invariant fresh(store) && store.Valid()
      invariant store.State() == After(ops[..i]).store && reported == After(ops[..i]).reported
    {
      ReadyAt(ops, i);
      match ops[i]
      case StoreBlock(b) => store.Store(b);
      case Commit(c) =>
        var forked := store.PruneToHeight(c.view, c.view);
        reported := reported + forked;
    }
    assert ops[..|ops|] == ops;
  }

  lemma ReadyAt(ops: seq<Op>, i: nat)
    requires IsHistory(ops) && i < |ops| && Smooth(After(ops))
    ensures var h := After(ops[..i]);
            && After(ops[..i + 1]) == Apply(h, ops[i]) && h.store.Valid() && Allowed(h, ops[i])
            && (ops[i].Commit? ==> h.store.Ends({}, ops[i].block.view))
  {
    var h := After(ops[..i]);
    Prefix(ops, i);
    Prefix(ops, i + 1);
    HistoryKeeps(ops[..i]);
    assert ops[..i + 1][..i] == ops[..i];
    if ops[i].Commit? {
      PruningSeparatesForks(h.store, ops[i].block.view, ops[i].block);
    }
  }

  lemma {:induction false} Prefix(ops: seq<Op>, i: nat)
    requires IsHistory(ops) && i <= |ops|
    ensures IsHistory(ops[..i])
    ensures Smooth(After(ops)) ==> Smooth(After(ops[..i]))
    decreases |ops|
  {
    if i < |ops| {
      var before := ops[..|ops| - 1];
      Prefix(before, i);
      assert before[..i] == ops[..i];
      if Smooth(After(ops)) {
        SmoothBefore(After(before), ops[|ops| - 1]);
      }
    } else {
      assert ops[..i] == ops;
    }
  }
}
