/**
 Runs of queue_add, queue_out and queue_del on one queue (src/lib/include/queue.h:73-220): which
 element is next, told from the calls alone.
 */
module QueueRuns {
  import opened Marks
  import opened QueueSpec

  datatype Op<T> = Add(x: T) | Out | Del(k: nat)

  /** The queue after one call. */
  function Applied<T>(s: seq<T>, op: Op<T>, key: T -> int): seq<T> {
    match op
    case Add(x) => Inserted(s, key, x)
    case Out => if s == [] then s else s[..|s| - 1]
    case Del(k) => if k < |s| then s[..k] + s[k + 1..] else s
  }

  /** The queue after a run, from the empty one. */
  function After<T>(ops: seq<Op<T>>, key: T -> int): seq<T> {
    if ops == [] then [] else Applied(After(ops[..|ops| - 1], key), ops[|ops| - 1], key)
  }

  /** An element and the number of the call that added it. */
  datatype Entry<T> = Entry(x: T, call: nat)

  function ByKey<T>(key: T -> int): Entry<T> -> int {
    (e: Entry<T>) => key(e.x)
  }

  function ByCall<T>(): Entry<T> -> int {
    (e: Entry<T>) => e.call
  }

  function Marked<T>(op: Op<T>, call: nat): Op<Entry<T>> {
    match op
    case Add(x) => Add(Entry(x, call))
    case Out => Out
    case Del(k) => Del(k)
  }

  /** The same run, in which every element carries the number of its call. */
  function Entries<T>(ops: seq<Op<T>>, key: T -> int): seq<Entry<T>> {
    if ops == [] then []
    else Applied(Entries(ops[..|ops| - 1], key), Marked(ops[|ops| - 1], |ops| - 1), ByKey(key))
  }

  /** The numbers are only added: s is u without them. */
  ghost predicate Same<T(!new)>(s: seq<T>, u: seq<Entry<T>>) {
    |s| == |u| && forall i :: 0 <= i < |s| ==> s[i] == u[i].x
  }

  lemma SameInserted<T(!new)>(s: seq<T>, u: seq<Entry<T>>, e: Entry<T>, key: T -> int)
    requires Same(s, u)
    ensures Same(Inserted(s, key, e.x), Inserted(u, ByKey(key), e))
  {
    SlotUnique(s, key, key(e.x), Slot(u, ByKey(key), ByKey(key)(e)));
  }

  lemma SameApplied<T(!new)>(s: seq<T>, u: seq<Entry<T>>, op: Op<T>, call: nat, key: T -> int)
    requires Same(s, u)
    ensures Same(Applied(s, op, key), Applied(u, Marked(op, call), ByKey(key)))
  {
    if op.Add? {
      SameInserted(s, u, Entry(op.x, call), key);
    }
  }

  /** Every element was added by the call whose number it carries. */
  ghost predicate Added<T(!new)>(ops: seq<Op<T>>, u: seq<Entry<T>>) {
    forall i {:trigger u[i]} :: 0 <= i < |u| ==> u[i].call < |ops| && ops[u[i].call] == Add(u[i].x)
  }

  lemma AddedApplied<T(!new)>(ops: seq<Op<T>>, op: Op<T>, u: seq<Entry<T>>, key: T -> int)
    requires Added(ops, u)
    ensures Added(ops + [op], Applied(u, Marked(op, |ops|), ByKey(key)))
  {
    var u' := Applied(u, Marked(op, |ops|), ByKey(key));
    forall i | 0 <= i < |u'| ensures u'[i].call < |ops| + 1 && (ops + [op])[u'[i].call] == Add(u'[i].x) {
      if op.Add? {
        var at := Slot(u, ByKey(key), key(op.x));
        assert i != at ==> u'[i] == u[if i < at then i else i - 1];
      } else {
        assert u'[i] == u[i] || u'[i] == u[i + 1];
      }
    }
  }

  lemma OrderedApplied<T(!new)>(ops: seq<Op<T>>, op: Op<T>, u: seq<Entry<T>>, key: T -> int)
    requires Added(ops, u) && Ordered(u, ByKey(key), ByCall())
    ensures Ordered(Applied(u, Marked(op, |ops|), ByKey(key)), ByKey(key), ByCall())
  {
    match op
    case Add(x) => InsertedOrdered(u, ByKey(key), ByCall(), Entry(x, |ops|));
    case Out =>
      if u != [] {
        RemovedOrdered(u, ByKey(key), ByCall(), |u| - 1);
        assert u[..|u| - 1] + u[|u|..] == u[..|u| - 1];
      }
    case Del(k) =>
      if k < |u| {
        RemovedOrdered(u, ByKey(key), ByCall(), k);
      }
  }

  /** Over every run, the queue goes by descending key from its end, and by the order of the calls among equals. */
  lemma {:induction false} RunOrdered<T(!new)>(ops: seq<Op<T>>, key: T -> int)
    ensures Traced(ops, After(ops, key), Entries(ops, key), key)
  {
    if ops != [] {
      var before, op := ops[..|ops| - 1], ops[|ops| - 1];
      RunOrdered(before, key);
      AppliedTraced(before, op, After(before, key), Entries(before, key), key);
      assert before + [op] == ops;
    }
  }

  /** s is u without the numbers, which tell the call that added each element; u is in order. */
  ghost predicate Traced<T(!new)>(ops: seq<Op<T>>, s: seq<T>, u: seq<Entry<T>>, key: T -> int) {
    Same(s, u) && Added(ops, u) && Ordered(u, ByKey(key), ByCall())
  }

  lemma AppliedTraced<T(!new)>(ops: seq<Op<T>>, op: Op<T>, s: seq<T>, u: seq<Entry<T>>, key: T -> int)
    requires Traced(ops, s, u, key)
    ensures Traced(ops + [op], Applied(s, op, key), Applied(u, Marked(op, |ops|), ByKey(key)), key)
  {
    SameApplied(s, u, op, |ops|, key);
    AddedApplied(ops, op, u, key);
    OrderedApplied(ops, op, u, key);
  }

  /**
   The next element out, after any run: none that is queued has a higher key, and those with the same
   key were added later.
   */
  lemma NextIsOldestOfHighest<T(!new)>(ops: seq<Op<T>>, key: T -> int, i: nat)
    requires i < |After(ops, key)| - 1
    ensures var s, u := After(ops, key), Entries(ops, key);
      && |u| == |s| && u[i].x == s[i] && u[|s| - 1].x == s[|s| - 1]
      && (key(s[|s| - 1]) > key(s[i]) || (key(s[|s| - 1]) == key(s[i]) && u[|s| - 1].call < u[i].call))
  {
    RunOrdered(ops, key);
    assert Pair(i, |After(ops, key)| - 1);
  }
}
