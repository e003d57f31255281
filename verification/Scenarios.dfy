/** Enumerating the twins scenarios: one choice among the leader-and-partitions pairs for every view. */
module Scenarios {
  import opened Arithmetic

  datatype Result<+T> = Ok(value: T) | EndOfFile

  ghost predicate InBase(s: seq<nat>, base: nat) {
    forall i :: 0 <= i < |s| ==> s[i] < base
  }

  /** The number that the digits write, the most significant first. */
  function Value(digits: seq<nat>, base: nat): nat {
    if digits == [] then 0 else Value(digits[..|digits| - 1], base) * base + digits[|digits| - 1]
  }

  /** The choice made for each view: the digit shifted by that view's offset, wrapped around. */
  function Choices(digits: seq<nat>, offsets: seq<nat>, base: nat): (c: seq<int>)
    requires |digits| == |offsets|
    ensures |c| == |digits|
  {
    seq(|digits|, i requires 0 <= i < |digits| =>
          if digits[i] + offsets[i] >= base then digits[i] + offsets[i] - base else digits[i] + offsets[i])
  }

  lemma Shifted(digit: nat, offset: nat, base: nat)
    requires digit < base && offset < base
    ensures (digit + offset) % base == if digit + offset >= base then digit + offset - base else digit + offset
  {
    if digit + offset >= base {
      ModOf(1, base, digit + offset - base);
    } else {
      ModOf(0, base, digit + offset);
    }
  }

  /** The choice for each view is its digit plus its offset, modulo the base. */
  lemma ChoicesAreShifted(digits: seq<nat>, offsets: seq<nat>, base: nat)
    requires base > 0 && |digits| == |offsets| && InBase(digits, base) && InBase(offsets, base)
    ensures forall i :: 0 <= i < |digits| ==> Choices(digits, offsets, base)[i] == (digits[i] + offsets[i]) % base
  {
    forall i | 0 <= i < |digits| ensures Choices(digits, offsets, base)[i] == (digits[i] + offsets[i]) % base {
      Shifted(digits[i], offsets[i], base);
    }
  }

  class Generator<View> {
    var remaining: int
    var indices: seq<nat>
    const offsets: seq<nat>
    const leadersPartitions: seq<View>
    const views: nat

    ghost const base: nat := |leadersPartitions|

    /** Before the end of file. */
    ghost predicate Valid()
      reads this
    {
      && (views > 0 ==> base > 0)
      && |indices| == |offsets| == views
      && InBase(indices, base) && InBase(offsets, base)
      && (views > 0 ==> remaining + Value(indices, base) == Pow(base, views))
    }

    constructor (leadersPartitions: seq<View>, views: nat, offsets: seq<nat>)
      requires views > 0 ==> |leadersPartitions| > 0
      requires |offsets| == views && InBase(offsets, |leadersPartitions|)
      ensures Valid() && remaining == Pow(|leadersPartitions|, views) && Value(indices, base) == 0
      ensures this.leadersPartitions == leadersPartitions && this.views == views && this.offsets == offsets
    {
      this.leadersPartitions, this.views, this.offsets := leadersPartitions, views, offsets;
      indices := seq(views, _ => 0);
      remaining := Pow(|leadersPartitions|, views);
      new;
      ZeroValue(views, base);
    }

    /** The scenario of the current indices. */
    method Current() returns (p: seq<View>)
      requires Valid()
      ensures |p| == views
      ensures forall i :: 0 <= i < views ==> p[i] == leadersPartitions[(indices[i] + offsets[i]) % base]
    {
      p := [];
      for i := 0 to views
        invariant |p| == i
        invariant forall k :: 0 <= k < i ==> p[k] == leadersPartitions[(indices[k] + offsets[k]) % base]
      {
        var index := indices[i] + offsets[i];
        if index >= |leadersPartitions| {
          index := index - |leadersPartitions|;
        }
        Shifted(indices[i], offsets[i], base);
        p := p + [leadersPartitions[index]];
      }
    }

    /** Returns the scenario of the current indices and moves on to the next number, or reports the
        end of file when there is none; the scenario of the last number is not returned. */
    method NextScenario() returns (s: Result<seq<View>>)
      requires Valid()
      modifies this
      ensures views > 0 && old(Value(indices, base)) + 1 < Pow(base, views) ==>
                && Valid() && Value(indices, base) == old(Value(indices, base)) + 1 && remaining == old(remaining) - 1
                && s.Ok? && |s.value| == views
                && forall i :: 0 <= i < views ==>
                     s.value[i] == leadersPartitions[(old(indices)[i] + offsets[i]) % base]
      ensures views > 0 && old(Value(indices, base)) + 1 >= Pow(base, views) ==>
                s == EndOfFile && indices == [] && remaining == old(remaining) == 1
      ensures views == 0 ==> Valid() && s == Ok([]) && remaining == old(remaining) - 1
    {
      ValueBelow(indices, base);
      var p := Current();
      var ended := Advance();
      if ended {
        return EndOfFile;
      }
      remaining := remaining - 1;
      return Ok(p);
    }

    /** Moves on to the next number, or, after the last one, has no indices left. */
    method Advance() returns (ended: bool)
      requires Valid()
      modifies this`indices
      ensures ended <==> views > 0 && old(Value(indices, base)) + 1 == Pow(base, views)
      ensures ended ==> indices == []
      ensures !ended ==> |indices| == views && InBase(indices, base)
      ensures !ended && views > 0 ==> Value(indices, base) == old(Value(indices, base)) + 1 < Pow(base, views)
    {
      ghost var before := indices;
      var i: int := views - 1;
      while i >= 0
        invariant -1 <= i < views && (views > 0 ==> i >= 0)
        invariant |indices| == views && InBase(indices, base)
        invariant forall k :: 0 <= k < views ==> indices[k] == if k <= i then before[k] else 0
        invariant forall k :: i < k < views ==> before[k] == base - 1
        decreases i
      {
        indices := indices[i := indices[i] + 1];
        if indices[i] < |leadersPartitions| {
          Carry(before, indices, base, i);
          ValueBelow(indices, base);
          break;
        }
        indices := indices[i := 0];
        if i <= 0 {
          LastNumber(before, base);
          indices := [];
          return true;
        }
        i := i - 1;
      }
      return false;
    }
  }

  lemma {:induction false} ZeroValue(n: nat, base: nat)
    ensures Value(seq(n, _ => 0), base) == 0
  {
    if n > 0 {
      assert seq(n, _ => 0)[..n - 1] == seq(n - 1, _ => 0);
      ZeroValue(n - 1, base);
    }
  }

  lemma {:induction false} ValueBelow(digits: seq<nat>, base: nat)
    requires InBase(digits, base)
    ensures Value(digits, base) < Pow(base, |digits|)
  {
    if digits != [] {
      var rest := digits[..|digits| - 1];
      ValueBelow(rest, base);
      Room(Value(rest, base), Pow(base, |rest|), base, digits[|digits| - 1]);
    }
  }

  lemma Room(v: nat, p: nat, base: nat, d: nat)
    requires v < p && d < base
    ensures v * base + d < base * p
  {
    assert (v + 1) * base <= p * base;
  }

  /** Digit `i` goes up by one and the largest digits behind it go back to zero: the next number. */
  lemma {:induction false} Carry(before: seq<nat>, after: seq<nat>, base: nat, i: nat)
    requires |before| == |after| && i < |before| && base > 0
    requires (forall k :: 0 <= k < i ==> before[k] == after[k]) && after[i] == before[i] + 1
    requires forall k :: i < k < |before| ==> before[k] == base - 1 && after[k] == 0
    ensures Value(after, base) == Value(before, base) + 1
  {
    var n := |before| - 1;
    if i == n {
      assert before[..n] == after[..n];
    } else {
      Carry(before[..n], after[..n], base, i);
      OneMoreTimes(Value(before[..n], base), base);
    }
  }

  lemma OneMoreTimes(v: nat, base: nat)
    ensures (v + 1) * base == v * base + base
  {
  }

  /** Numbers are in the order of their digits, the first being the most significant. */
  lemma {:induction false} ValueIsLexicographic(a: seq<nat>, b: seq<nat>, base: nat, k: nat)
    requires |a| == |b| && k < |a| && InBase(a, base) && InBase(b, base)
    requires (forall i :: 0 <= i < k ==> a[i] == b[i]) && a[k] < b[k]
    ensures Value(a, base) < Value(b, base)
  {
    var n := |a| - 1;
    if k == n {
      assert a[..n] == b[..n];
    } else {
      ValueIsLexicographic(a[..n], b[..n], base, k);
      Gap(Value(a[..n], base), Value(b[..n], base), base);
    }
  }

  /** All digits at their largest write the last number. */
  lemma {:induction false} LastNumber(digits: seq<nat>, base: nat)
    requires base > 0 && forall k :: 0 <= k < |digits| ==> digits[k] == base - 1
    ensures Value(digits, base) + 1 == Pow(base, |digits|)
  {
    if digits != [] {
      LastNumber(digits[..|digits| - 1], base);
      OneMoreTimes(Value(digits[..|digits| - 1], base), base);
    }
  }

  /** Different numbers are written with different digits, and the other way round. */
  lemma {:induction false} ValueIsInjective(a: seq<nat>, b: seq<nat>, base: nat)
    requires |a| == |b| && InBase(a, base) && InBase(b, base) && Value(a, base) == Value(b, base)
    ensures a == b
  {
    if a != [] {
      var n := |a| - 1;
      var u, v, x, y := Value(a[..n], base), Value(b[..n], base), a[n], b[n];
      Quotients(u, v, x, y, base);
      ValueIsInjective(a[..n], b[..n], base);
      assert a == a[..n] + [x] && b == b[..n] + [y];
    }
  }

  lemma Quotients(u: nat, v: nat, x: nat, y: nat, base: nat)
    requires x < base && y < base && u * base + x == v * base + y
    ensures u == v && x == y
  {
    Gap(u, v, base);
    Gap(v, u, base);
  }

  /** With any offsets in range, different indices make different choices. */
  lemma ChoicesAreInjective(a: seq<nat>, b: seq<nat>, offsets: seq<nat>, base: nat)
    requires |a| == |b| == |offsets| && InBase(a, base) && InBase(b, base) && InBase(offsets, base) && a != b
    ensures Choices(a, offsets, base) != Choices(b, offsets, base)
  {
    var i :| 0 <= i < |a| && a[i] != b[i];
    assert Choices(a, offsets, base)[i] != Choices(b, offsets, base)[i];
  }

  /** The choices behind a returned scenario. */
  ghost predicate Spells<View>(s: seq<View>, choices: seq<int>, all: seq<View>) {
    && |s| == |choices|
    && forall i :: 0 <= i < |s| ==> 0 <= choices[i] < |all| && s[i] == all[choices[i]]
  }

  /** Without views there is no end: `remaining` promises one scenario, but every call returns an empty
      one, however often it is asked. */
  method EndlessScenarios<View>(leadersPartitions: seq<View>, calls: nat) returns (g: Generator<View>, empty: nat)
    ensures g.remaining == 1 - calls && empty == calls
  {
    g := new Generator(leadersPartitions, 0, []);
    empty := 0;
    for k := 0 to calls
      invariant fresh(g) && g.Valid() && g.views == 0 && g.remaining == 1 - k && empty == k
    {
      var s := g.NextScenario();
      if s == Ok([]) {
        empty := empty + 1;
      }
    }
  }

  /** Asks for scenarios until the end of file, which comes only if there are views. There are
      base ^ views - 1 of them, all from different choices: one less than `remaining` promised. */
  method AllScenarios<View>(leadersPartitions: seq<View>, views: nat, offsets: seq<nat>)
      returns (scenarios: seq<seq<View>>, choices: seq<seq<int>>)
    requires views > 0 && |leadersPartitions| > 0
    requires |offsets| == views && InBase(offsets, |leadersPartitions|)
    ensures |scenarios| == |choices| == Pow(|leadersPartitions|, views) - 1
    ensures forall k :: 0 <= k < |scenarios| ==> Spells(scenarios[k], choices[k], leadersPartitions)
    ensures forall j, k :: 0 <= j < k < |choices| ==> choices[j] != choices[k]
  {
    var g := new Generator(leadersPartitions, views, offsets);
    scenarios, choices := [], [];
    ghost var tuples: seq<seq<nat>> := [];
    var base := |leadersPartitions|;
    ghost var total := Pow(base, views);
    ValueBelow(g.indices, base);
    while true
      invariant fresh(g) && g.Valid()
      invariant g.offsets == offsets && g.leadersPartitions == leadersPartitions && g.views == views
      invariant |scenarios| == |choices| == |tuples| == Value(g.indices, base) && |scenarios| < total
      invariant forall k :: 0 <= k < |tuples| ==>
                  && |tuples[k]| == views && InBase(tuples[k], base) && Value(tuples[k], base) == k
                  && choices[k] == Choices(tuples[k], offsets, base)
      invariant forall k :: 0 <= k < |scenarios| ==> Spells(scenarios[k], choices[k], leadersPartitions)
      decreases total - |scenarios|
    {
      var now := g.indices;
      var s := g.NextScenario();
      if s.EndOfFile? {
        break;
      }
      ValueBelow(g.indices, base);
      ChoicesAreShifted(now, offsets, base);
      scenarios, choices := scenarios + [s.value], choices + [Choices(now, offsets, base)];
      tuples := tuples + [now];
    }
    forall j, k | 0 <= j < k < |choices| ensures choices[j] != choices[k] {
      ChoicesAreInjective(tuples[j], tuples[k], offsets, base);
    }
  }
}
