/** Handel's partitioning of the replicas by recursive halving. */
module Handel {
  import opened Arithmetic

  /** Rounded up to the next power of two: the levels needed to halve `n` down to one. */
  function CeilLog2(n: nat): nat
    requires n >= 1
  {
    if n == 1 then 0 else 1 + CeilLog2((n + 1) / 2)
  }

  /** It is the exponent of the smallest power of two that is at least `n`. */
  lemma {:induction false} CeilLog2IsCeiling(n: nat)
    requires n >= 1
    ensures n <= Pow2(CeilLog2(n)) && (n > 1 ==> Pow2(CeilLog2(n) - 1) < n)
  {
    if n > 1 {
      CeilLog2IsCeiling((n + 1) / 2);
    }
  }

  /** The indices min .. max, both included; none when max is below min. */
  datatype Interval = Interval(min: int, max: int) {
    predicate Has(k: int) {
      min <= k <= max
    }
  }

  /** The half of `own` that contains `self`, and the other half. */
  function Keep(own: Interval, self: int): Interval {
    var mid := (own.min + own.max) / 2;
    if self > mid then Interval(mid + 1, own.max) else Interval(own.min, mid)
  }

  function Drop(own: Interval, self: int): Interval {
    var mid := (own.min + own.max) / 2;
    if self > mid then Interval(own.min, mid) else Interval(mid + 1, own.max)
  }

  /** What is left around `self` when the levels above `level` have been split off. */
  function Own(n: nat, self: nat, level: nat): Interval
    requires n >= 1
    decreases CeilLog2(n) - level
  {
    if level >= CeilLog2(n) then Interval(0, n - 1) else Keep(Own(n, self, level + 1), self)
  }

  /** The range of a level: the half that is split off there. */
  function Range(n: nat, self: nat, level: nat): Interval
    requires n >= 1
  {
    Drop(Own(n, self, level), self)
  }

  datatype Partitioner = Partitioner(ids: seq<nat>, selfIndex: nat) {
    ghost predicate Valid() {
      selfIndex < |ids|
    }

    method RangeLevel(level: nat) returns (min: int, max: int)
      requires Valid() && level <= CeilLog2(|ids|)
      ensures Interval(min, max) == Range(|ids|, selfIndex, level)
      ensures 0 <= min <= max + 1 <= |ids|
    {
      var maxLevel := CeilLog2(|ids|);
      min, max := 0, |ids| - 1;
      var curLevel: int := maxLevel;
      while curLevel >= level
        invariant level - 1 <= curLevel <= maxLevel
        invariant curLevel >= level ==> Interval(min, max) == Own(|ids|, selfIndex, curLevel)
        invariant curLevel < level ==> Interval(min, max) == Range(|ids|, selfIndex, level)
        decreases curLevel
      {
        Halves(|ids|, selfIndex, curLevel);
        var mid := (min + max) / 2;
        if curLevel == level {
          if selfIndex > mid {
            max := mid;
          } else {
            min := mid + 1;
          }
        } else {
          if selfIndex > mid {
            min := mid + 1;
          } else {
            max := mid;
          }
        }
        curLevel := curLevel - 1;
      }
      OwnHoldsSelf(|ids|, selfIndex, level);
    }

    /** The identifiers of a level. */
    method Partition(level: nat) returns (part: seq<nat>)
      requires Valid() && level <= CeilLog2(|ids|)
      ensures forall id :: id in part <==>
                exists k :: 0 <= k < |ids| && Range(|ids|, selfIndex, level).Has(k) && ids[k] == id
      ensures var r := Range(|ids|, selfIndex, level); |part| == r.max - r.min + 1
    {
      var min, max := RangeLevel(level);
      part := ids[min..max + 1];
      forall id
        ensures id in part <==>
                  exists k :: 0 <= k < |ids| && Range(|ids|, selfIndex, level).Has(k) && ids[k] == id
      {
        if id in part {
          var j :| 0 <= j < |part| && part[j] == id;
          assert ids[min + j] == id && Range(|ids|, selfIndex, level).Has(min + j);
        }
        forall k | 0 <= k < |ids| && Range(|ids|, selfIndex, level).Has(k) && ids[k] == id ensures id in part {
          assert part[k - min] == id;
        }
      }
    }

    method Size(level: nat) returns (size: int)
      requires Valid() && level <= CeilLog2(|ids|)
      ensures var r := Range(|ids|, selfIndex, level); size == |set k | 0 <= k < |ids| && r.Has(k)|
    {
      var min, max := RangeLevel(level);
      size := (max - min) + 1;
      IntervalSize(min, max, |ids|);
    }
  }

  lemma {:induction false} IntervalSize(min: int, max: int, n: nat)
    requires 0 <= min <= max + 1 <= n
    ensures |set k | 0 <= k < n && Interval(min, max).Has(k)| == max - min + 1
    decreases max - min + 1
  {
    var s := set k | 0 <= k < n && Interval(min, max).Has(k);
    if max < min {
      assert s == {};
    } else {
      IntervalSize(min, max - 1, n);
      var shorter := Interval(min, max - 1);
      assert s == (set k | 0 <= k < n && shorter.Has(k)) + {max};
    }
  }

  /** What is left around self holds self and is at most two to the level wide. */
  lemma {:induction false} OwnHoldsSelf(n: nat, self: nat, level: nat)
    requires self < n
    ensures Own(n, self, level).Has(self)
    ensures 0 <= Own(n, self, level).min && Own(n, self, level).max < n
    ensures level <= CeilLog2(n) ==> Own(n, self, level).max - Own(n, self, level).min + 1 <= Pow2(level)
    decreases CeilLog2(n) - level
  {
    if level >= CeilLog2(n) {
      CeilLog2IsCeiling(n);
    } else {
      OwnHoldsSelf(n, self, level + 1);
    }
  }

  lemma Halves(n: nat, self: nat, level: nat)
    requires self < n && level <= CeilLog2(n)
    ensures Range(n, self, level) == Drop(Own(n, self, level), self)
    ensures level > 0 ==> Own(n, self, level - 1) == Keep(Own(n, self, level), self)
  {
  }

  /** What is left is cut in two: the lower half, with the middle one if their number is odd, and the
      upper half. The range of the level is the half without self, the other half is left. */
  lemma LowerHalfIsLarger(n: nat, self: nat, level: nat, k: int)
    requires self < n && 1 <= level <= CeilLog2(n)
    ensures var own := Own(n, self, level);
            var lower := own.min + (own.max - own.min + 2) / 2;
            && 0 <= own.min <= self <= own.max < n
            && (Range(n, self, level).Has(k) <==>
                  own.min <= k <= own.max && (if self < lower then k >= lower else k < lower))
            && (Own(n, self, level - 1).Has(k) <==>
                  own.min <= k <= own.max && (if self < lower then k < lower else k >= lower))
  {
    OwnHoldsSelf(n, self, level);
    Halves(n, self, level);
  }

  /** At the highest level nothing has been split off. */
  lemma AllIsLeft(n: nat, self: nat)
    requires self < n
    ensures Own(n, self, CeilLog2(n)) == Interval(0, n - 1)
  {
  }

  /** Below level 1 only self is left. */
  lemma OnlySelfIsLeft(n: nat, self: nat)
    requires self < n
    ensures Own(n, self, 0) == Interval(self, self)
  {
    OwnHoldsSelf(n, self, 0);
  }

  /** What is left at a level is self together with the ranges of the levels from it down. */
  lemma {:induction false} OwnIsSelfAndRanges(n: nat, self: nat, level: nat, k: int)
    requires self < n && level <= CeilLog2(n)
    ensures Own(n, self, level).Has(k) <==> k == self || exists l :: 1 <= l <= level && Range(n, self, l).Has(k)
  {
    if level == 0 {
      OnlySelfIsLeft(n, self);
    } else {
      OwnIsSelfAndRanges(n, self, level - 1, k);
      OwnHoldsSelf(n, self, level);
      assert Own(n, self, level - 1) == Keep(Own(n, self, level), self);
      if Range(n, self, level).Has(k) {
        assert 1 <= level <= level;
      } else {
        assert Own(n, self, level).Has(k) <==> Own(n, self, level - 1).Has(k);
        assert forall l :: 1 <= l <= level && Range(n, self, l).Has(k) ==> l <= level - 1;
        assert forall l :: 1 <= l <= level - 1 && Range(n, self, l).Has(k) ==> l <= level;
      }
    }
  }

  lemma {:induction false} OwnShrinks(n: nat, self: nat, low: nat, high: nat, k: int)
    requires self < n && low <= high
    ensures Own(n, self, low).Has(k) ==> Own(n, self, high).Has(k)
    decreases CeilLog2(n) - low
  {
    if low < high && low < CeilLog2(n) {
      OwnShrinks(n, self, low + 1, high, k);
      OwnHoldsSelf(n, self, low + 1);
    }
  }

  /** The ranges of levels 1 .. maxLevel exclude self, are pairwise disjoint, and with self make up
      all indices. */
  lemma RangesPartition(n: nat, self: nat, k: int)
    requires self < n
    ensures 0 <= k < n <==> k == self || exists l :: 1 <= l <= CeilLog2(n) && Range(n, self, l).Has(k)
    ensures forall l :: 0 <= l <= CeilLog2(n) ==> !Range(n, self, l).Has(self)
    ensures forall l, m :: 1 <= l < m <= CeilLog2(n) ==> !(Range(n, self, l).Has(k) && Range(n, self, m).Has(k))
  {
    OwnIsSelfAndRanges(n, self, CeilLog2(n), k);
    forall l | 0 <= l <= CeilLog2(n) ensures !Range(n, self, l).Has(self) {
      OwnHoldsSelf(n, self, l);
    }
    forall l, m | 1 <= l < m <= CeilLog2(n) ensures !(Range(n, self, l).Has(k) && Range(n, self, m).Has(k)) {
      RangesDisjoint(n, self, l, m, k);
    }
  }

  lemma RangesDisjoint(n: nat, self: nat, l: nat, m: nat, k: int)
    requires self < n && l < m <= CeilLog2(n)
    ensures !(Range(n, self, l).Has(k) && Range(n, self, m).Has(k))
  {
    OwnHoldsSelf(n, self, l);
    OwnHoldsSelf(n, self, m);
    Halves(n, self, m);
    OwnShrinks(n, self, l, m - 1, k);
    assert Range(n, self, l).Has(k) ==> Own(n, self, l).Has(k);
  }

  /** Level 0 is empty: nothing is split off when only self is left. */
  lemma LevelZeroIsEmpty(n: nat, self: nat, k: int)
    requires self < n
    ensures !Range(n, self, 0).Has(k)
  {
    OnlySelfIsLeft(n, self);
  }

  /** Everything still around `i` has the same surroundings as `i`. */
  lemma {:induction false} SameSurroundings(n: nat, i: nat, j: nat, level: nat)
    requires i < n && j < n && Own(n, i, level).Has(j)
    ensures Own(n, j, level) == Own(n, i, level)
    decreases CeilLog2(n) - level
  {
    if level < CeilLog2(n) {
      OwnShrinks(n, i, level, level + 1, j);
      SameSurroundings(n, i, j, level + 1);
      OwnHoldsSelf(n, i, level + 1);
    }
  }

  /** Reciprocity: `j` is in `i`'s range of a level exactly when `i` is in `j`'s, and then `i`'s range
      is `j` together with all of `j`'s ranges below that level. */
  lemma RangesAreReciprocal(n: nat, i: nat, j: nat, level: nat)
    requires i < n && j < n && 1 <= level <= CeilLog2(n)
    ensures Range(n, i, level).Has(j) <==> Range(n, j, level).Has(i)
    ensures Range(n, i, level).Has(j) ==>
              forall k :: Range(n, i, level).Has(k) <==> k == j || exists l :: 1 <= l < level && Range(n, j, l).Has(k)
  {
    if Range(n, i, level).Has(j) {
      InOthersRange(n, i, j, level);
      forall k ensures Range(n, i, level).Has(k) <==> k == j || exists l :: 1 <= l < level && Range(n, j, l).Has(k) {
        OwnIsSelfAndRanges(n, j, level - 1, k);
      }
    }
    if Range(n, j, level).Has(i) {
      InOthersRange(n, j, i, level);
    }
  }

  lemma InOthersRange(n: nat, i: nat, j: nat, level: nat)
    requires i < n && j < n && 1 <= level <= CeilLog2(n) && Range(n, i, level).Has(j)
    ensures Range(n, j, level).Has(i) && Range(n, i, level) == Own(n, j, level - 1)
  {
    OwnHoldsSelf(n, i, level);
    SameSurroundings(n, i, j, level);
  }
}
