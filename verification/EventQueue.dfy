/** The event loop's queue: a bounded circular buffer that drops its oldest entry when full. */
module EventQueue {
  /** The queue as the entries it holds, oldest first. */
  function Pushed<T>(contents: seq<T>, capacity: nat, entry: T): seq<T>
    requires capacity >= 1
  {
    (if |contents| == capacity then contents[1..] else contents) + [entry]
  }

  /** What the entries from `head` to `tail` hold, around the end of the array; nothing when there is
      no head. */
  function Held<T>(entries: seq<T>, head: int, tail: int): seq<T>
    requires head == -1 || (0 <= head < |entries| && 0 <= tail < |entries|)
  {
    if head == -1 then []
    else if head <= tail then entries[head..tail + 1]
    else entries[head..] + entries[..tail + 1]
  }

  /** The index after `i`, around the end. */
  function After(i: int, length: int): int {
    if i + 1 == length then 0 else i + 1
  }

  lemma HeldWithoutHead<T>(entries: seq<T>, head: int, tail: int)
    requires 0 <= head < |entries| && 0 <= tail < |entries|
    ensures head != tail ==>
              Held(entries, head, tail) == [entries[head]] + Held(entries, After(head, |entries|), tail)
    ensures head == tail ==> Held(entries, head, tail) == [entries[head]]
  {
  }

  lemma HeldLength<T>(entries: seq<T>, head: int, tail: int)
    requires 0 <= head < |entries| && 0 <= tail < |entries|
    ensures 0 < |Held(entries, head, tail)| <= |entries|
    ensures |Held(entries, head, tail)| == |entries| <==> After(tail, |entries|) == head
  {
  }

  /** Writing an entry after the tail of a queue that is not full. */
  lemma HeldWithMore<T>(entries: seq<T>, head: int, tail: int, entry: T)
    requires 0 <= head < |entries| && 0 <= tail < |entries| && After(tail, |entries|) != head
    ensures var pos := After(tail, |entries|);
            Held(entries[pos := entry], head, pos) == Held(entries, head, tail) + [entry]
  {
    var pos := After(tail, |entries|);
    var more := entries[pos := entry];
    if head <= tail && pos > 0 {
      assert more[head..pos + 1] == entries[head..tail + 1] + [entry];
    } else if head <= tail {
      assert more[head..] == entries[head..] == entries[head..tail + 1];
      assert more[..1] == [entry];
    } else {
      assert more[head..] == entries[head..];
      assert more[..pos + 1] == entries[..tail + 1] + [entry];
    }
  }

  /** Writing an entry over the head of a full queue. */
  lemma HeldOver<T>(entries: seq<T>, tail: int, entry: T)
    requires 0 <= tail < |entries|
    ensures var pos := After(tail, |entries|);
            Held(entries[pos := entry], After(pos, |entries|), pos) == Held(entries, pos, tail)[1..] + [entry]
  {
    var pos := After(tail, |entries|);
    if |entries| > 1 {
      HeldWithoutHead(entries, pos, tail);
      HeldWithMore(entries, After(pos, |entries|), tail, entry);
    }
  }

  class Queue<T> {
    const entries: array<T>
    var head: int
    var tail: int

    ghost predicate Valid()
      reads this, entries
    {
      && entries.Length >= 1
      && ((head == -1 && tail == -1) || (0 <= head < entries.Length && 0 <= tail < entries.Length))
    }

    ghost function Contents(): seq<T>
      requires Valid()
      reads this, entries
    {
      Held(entries[..], head, tail)
    }

    constructor (capacity: nat, nothing: T)
      requires capacity >= 1
      ensures Valid() && Contents() == [] && fresh(entries) && entries.Length == capacity
    {
      entries := new T[capacity](_ => nothing);
      head := -1;
      tail := -1;
    }

    method Push(entry: T)
      requires Valid()
      modifies this, entries
      ensures Valid() && Contents() == Pushed(old(Contents()), entries.Length, entry)
      ensures |Contents()| <= entries.Length
      ensures old(|Contents()|) < entries.Length ==> Contents() == old(Contents()) + [entry]
      ensures old(|Contents()|) == entries.Length ==> Contents() == old(Contents())[1..] + [entry]
    {
      if head != -1 {
        HeldLength(entries[..], head, tail);
        HeldOver(entries[..], tail, entry);
        if After(tail, entries.Length) != head {
          HeldWithMore(entries[..], head, tail, entry);
        }
      }
      ghost var was := entries[..];
      var pos := tail + 1;
      if pos == entries.Length {
        pos := 0;
      }
      if pos == head {
        head := head + 1;
        if head == entries.Length {
          head := 0;
        }
      }
      entries[pos] := entry;
      assert entries[..] == was[pos := entry];
      tail := pos;
      if head == -1 {
        head := pos;
      }
      HeldLength(entries[..], head, tail);
    }

    method Pop() returns (entry: T, ok: bool)
      requires Valid()
      modifies this
      ensures Valid()
      ensures ok <==> old(Contents()) != []
      ensures ok ==> old(Contents()) == [entry] + Contents()
      ensures !ok ==> Contents() == []
    {
      if head == -1 {
        entry := entries[0];
        return entry, false;
      }
      entry := entries[head];
      HeldWithoutHead(entries[..], head, tail);
      if head == tail {
        head := -1;
        tail := -1;
      } else {
        head := head + 1;
        if head == entries.Length {
          head := 0;
        }
      }
      return entry, true;
    }

    method Len() returns (n: int)
      requires Valid()
      ensures n == |Contents()| && n <= entries.Length
    {
      if head == -1 {
        return 0;
      }
      HeldLength(entries[..], head, tail);
      if head <= tail {
        return tail - head + 1;
      }
      return entries.Length - head + tail + 1;
    }
  }

  // ---------------------------------------------------------------- runs

  datatype Operation<T> = Push(entry: T) | Pop

  /** The contents after some operations on an empty queue. */
  function AfterAll<T>(ops: seq<Operation<T>>, capacity: nat): seq<T>
    requires capacity >= 1
  {
    if ops == [] then []
    else
      var before := AfterAll(ops[..|ops| - 1], capacity);
      match ops[|ops| - 1]
      case Push(entry) => Pushed(before, capacity, entry)
      case Pop => if before == [] then [] else before[1..]
  }

  /** Everything pushed, in order. */
  function AllPushed<T>(ops: seq<Operation<T>>): seq<T> {
    if ops == [] then []
    else AllPushed(ops[..|ops| - 1]) + if ops[|ops| - 1].Push? then [ops[|ops| - 1].entry] else []
  }

  /** After any operations the queue holds at most its capacity, and always the entries pushed last,
      in the order they were pushed: entries leave from the front only. */
  lemma {:induction false} HoldsLatest<T>(ops: seq<Operation<T>>, capacity: nat)
    requires capacity >= 1
    ensures var q, all := AfterAll(ops, capacity), AllPushed(ops);
            |q| <= capacity && |q| <= |all| && q == all[|all| - |q|..]
  {
    if ops != [] {
      HoldsLatest(ops[..|ops| - 1], capacity);
    }
  }

  /** Everything that was popped, in order. */
  function AllPopped<T>(ops: seq<Operation<T>>, capacity: nat): seq<T>
    requires capacity >= 1
  {
    if ops == [] then []
    else
      var before := AfterAll(ops[..|ops| - 1], capacity);
      AllPopped(ops[..|ops| - 1], capacity) + if ops[|ops| - 1].Pop? && before != [] then [before[0]] else []
  }

  /** Nothing is pushed while the queue is full. */
  ghost predicate NeverOverrun<T>(ops: seq<Operation<T>>, capacity: nat)
    requires capacity >= 1
  {
    ops == [] || (&& NeverOverrun(ops[..|ops| - 1], capacity)
                  && (ops[|ops| - 1].Push? ==> |AfterAll(ops[..|ops| - 1], capacity)| < capacity))
  }

  /** First in, first out: what was popped and what is left are what was pushed, in that order, exactly
      when the queue was never overrun. */
  lemma {:induction false} NothingLost<T>(ops: seq<Operation<T>>, capacity: nat)
    requires capacity >= 1
    ensures |AllPopped(ops, capacity)| + |AfterAll(ops, capacity)| <= |AllPushed(ops)|
    ensures NeverOverrun(ops, capacity) <==> AllPopped(ops, capacity) + AfterAll(ops, capacity) == AllPushed(ops)
  {
    if ops != [] {
      var before, last := ops[..|ops| - 1], ops[|ops| - 1];
      NothingLost(before, capacity);
      HoldsLatest(before, capacity);
      var popped, q, all := AllPopped(before, capacity), AfterAll(before, capacity), AllPushed(before);
      match last {
        case Push(entry) =>
          assert AllPopped(ops, capacity) == popped && AllPushed(ops) == all + [entry];
          if |q| < capacity {
            assert AfterAll(ops, capacity) == q + [entry];
            SameLast(popped, q, all, entry);
          } else {
            assert |AfterAll(ops, capacity)| == |q|;
          }
        case Pop =>
          assert AllPushed(ops) == all;
          if q != [] {
            assert AllPopped(ops, capacity) == popped + [q[0]] && AfterAll(ops, capacity) == q[1..];
            assert (popped + [q[0]]) + q[1..] == popped + q;
          } else {
            assert AllPopped(ops, capacity) == popped && AfterAll(ops, capacity) == q;
          }
      }
    }
  }

  lemma SameLast<T>(popped: seq<T>, q: seq<T>, all: seq<T>, entry: T)
    ensures popped + (q + [entry]) == all + [entry] <==> popped + q == all
  {
    assert popped + (q + [entry]) == (popped + q) + [entry];
    if (popped + q) + [entry] == all + [entry] {
      assert popped + q == ((popped + q) + [entry])[..|popped + q|];
      assert all == (all + [entry])[..|all|];
    }
  }

  /** Runs the operations on a circular buffer. */
  method Run<T>(ops: seq<Operation<T>>, capacity: nat, nothing: T) returns (q: Queue<T>)
    requires capacity >= 1
    ensures q.Valid() && q.Contents() == AfterAll(ops, capacity)
  {
    q := new Queue(capacity, nothing);
    assert ops[..0] == [];
    for i := 0 to |ops|
      invariant fresh(q) && fresh(q.entries) && q.Valid() && q.entries.Length == capacity
      invariant q.Contents() == AfterAll(ops[..i], capacity)
    {
      assert ops[..i + 1][..i] == ops[..i];
      match ops[i] {
        case Push(entry) => q.Push(entry);
        case Pop => var entry, ok := q.Pop();
      }
    }
    assert ops[..|ops|] == ops;
  }
}
