/**
 The intrusive circular list of src/lib/include/queue.h:44-220. A queue is a head link whose prev and
 next close the ring; an element is queued exactly when its own two pointers are set.
 */
module Queue {
  import opened Marks
  import opened QueueSpec

  class Link {
    var prev: Link?
    var next: Link?
    constructor ()
      ensures prev == null && next == null
    {
      prev, next := null, null;
    }
  }

  /** Position i of the ring: the head at both ends, the elements in between. */
  function At(head: Link, s: seq<Link>, i: nat): Link
    requires i <= |s| + 1
  {
    if i == 0 || i == |s| + 1 then head else s[i - 1]
  }

  ghost predicate Chained(head: Link, s: seq<Link>, i: nat)
    requires i <= |s|
    reads head, s
  {
    At(head, s, i).next == At(head, s, i + 1) && At(head, s, i + 1).prev == At(head, s, i)
  }

  ghost predicate Ring(head: Link, s: seq<Link>)
    reads head, s
  {
    (forall i: nat :: i <= |s| ==> Chained(head, s, i)) && Distinct(head, s)
  }

  ghost predicate Distinct(head: Link, s: seq<Link>) {
    && head !in s
    && (forall i, j {:trigger Pair(i, j)} :: Pair(i, j) && 0 <= i < j < |s| ==> s[i] != s[j])
  }

  /** Only one element comes before position k + 1, only one comes after position k. */
  lemma Around(head: Link, s: seq<Link>, k: nat, j: nat)
    requires Distinct(head, s) && k <= |s| && j <= |s| && j != k
    ensures At(head, s, j) != At(head, s, k) && At(head, s, j + 1) != At(head, s, k + 1)
  {
    assert Pair(j - 1, k - 1) && Pair(k - 1, j - 1) && Pair(j, k) && Pair(k, j);
  }

  /** An element is queued if its pointers are set. */
  lemma Unqueued(head: Link, s: seq<Link>, elem: Link)
    requires Ring(head, s) && elem.next == null
    ensures elem != head && elem !in s
  {
    assert Chained(head, s, 0);
    forall i | 0 <= i < |s| ensures s[i] != elem {
      assert Chained(head, s, i + 1);
    }
  }

  /** INIT_LIST_HEAD */
  method Init(head: Link)
    modifies head
    ensures Ring(head, [])
  {
    head.next, head.prev := head, head;
  }

  /** queue_empty */
  method IsEmpty(head: Link, ghost s: seq<Link>) returns (empty: bool)
    requires Ring(head, s)
    ensures empty <==> s == []
  {
    assert Chained(head, s, 0);
    empty := head.next == head;
  }

  /** queue_add: the loop looks for the first element that is not lower; the new one goes in front of it. */
  method Add(head: Link, ghost s: seq<Link>, elem: Link, key: Link -> int) returns (ghost u: seq<Link>)
    requires Ring(head, s) && elem.prev == null && elem.next == null
    modifies head, s, elem
    ensures u == Inserted(s, key, elem) && Ring(head, u)
  {
    assert Chained(head, s, 0);
    ghost var k: nat := 1;
    var cur := head.next;
    while cur != head && key(cur) < key(elem)
      invariant 1 <= k <= |s| + 1 && cur == At(head, s, k)
      invariant forall i :: 0 <= i < k - 1 ==> key(s[i]) < key(elem)
      decreases |s| + 1 - k
    {
      assert Chained(head, s, k);
      cur := cur.next;
      k := k + 1;
    }
    SlotUnique(s, key, key(elem), k - 1);
    u := Inserted(s, key, elem);
    Splice(head, s, elem, cur, k - 1, u);
  }

  /** The new element goes in front of cur, which is at position k + 1 of the ring. */
  method Splice(head: Link, ghost s: seq<Link>, elem: Link, cur: Link, ghost k: nat, ghost u: seq<Link>)
    requires Ring(head, s) && elem.prev == null && elem.next == null
    requires k <= |s| && cur == At(head, s, k + 1) && u == s[..k] + [elem] + s[k..]
    modifies head, s, elem
    ensures Ring(head, u)
  {
    assert Chained(head, s, k);
    Unqueued(head, s, elem);
    elem.next := cur;
    elem.prev := cur.prev;
    cur.prev.next := elem;
    cur.prev := elem;
    forall i: nat | i <= |u| ensures Chained(head, u, i) {
      var j := if i <= k then i else i - 1;
      assert old(Chained(head, s, j));
      if j != k {
        Around(head, s, k, j);
      }
    }
    forall i, j | 0 <= i < j < |u| ensures u[i] != u[j] {
      assert Pair(if i < k then i else i - 1, if j < k then j else j - 1);
    }
  }

  /** __queue_top: the last element, or none. */
  method Top(head: Link, ghost s: seq<Link>) returns (r: Link?)
    requires Ring(head, s)
    ensures r == if s == [] then null else s[|s| - 1]
  {
    assert Chained(head, s, 0) && Chained(head, s, |s|);
    var last := head.prev;
    if head.next == head {
      return null;
    }
    r := last;
  }

  /** __queue_out: takes the last element off. */
  method Out(head: Link, ghost s: seq<Link>) returns (r: Link?, ghost u: seq<Link>)
    requires Ring(head, s)
    modifies head, s
    ensures s == [] ==> r == null && u == []
    ensures s != [] ==> r == s[|s| - 1] && u == s[..|s| - 1] && r.prev == null && r.next == null
    ensures Ring(head, u)
  {
    assert Chained(head, s, 0) && Chained(head, s, |s|);
    var last := head.prev;
    if head.next == head {
      return null, [];
    }
    assert Chained(head, s, |s| - 1);
    u := s[..|s| - 1];
    head.prev := head.prev.prev;
    head.prev.next := head;
    last.prev := null;
    last.next := null;
    r := last;
    forall i: nat | i <= |u| ensures Chained(head, u, i) {
      Around(head, s, |u|, |s|);
      assert old(Chained(head, s, i));
      if i != |u| {
        Around(head, s, |u|, i);
        Around(head, s, |s|, i);
      }
    }
    forall i, j | 0 <= i < j < |u| ensures u[i] != u[j] {
      assert Pair(i, j);
    }
  }

  /** queue_del: takes elem, at position k, off. */
  method Del(head: Link, ghost s: seq<Link>, elem: Link, ghost k: nat) returns (ghost u: seq<Link>)
    requires Ring(head, s) && k < |s| && s[k] == elem
    modifies head, s
    ensures u == s[..k] + s[k + 1..] && Ring(head, u)
    ensures elem.prev == null && elem.next == null
  {
    assert Chained(head, s, k) && Chained(head, s, k + 1);
    u := s[..k] + s[k + 1..];
    elem.prev.next := elem.next;
    elem.next.prev := elem.prev;
    elem.next := null;
    elem.prev := null;
    forall i: nat | i <= |u| ensures Chained(head, u, i) {
      var j := if i <= k then i else i + 1;
      assert old(Chained(head, s, j));
      if i != k {
        Around(head, s, k, j);
        Around(head, s, k + 1, j);
      } else {
        Around(head, s, k, k + 1);
      }
    }
    forall i, j | 0 <= i < j < |u| ensures u[i] != u[j] {
      assert Pair(if i < k then i else i + 1, if j < k then j else j + 1);
    }
  }

  /** queue_for_each, as queue_length uses it. */
  method Length(head: Link, ghost s: seq<Link>) returns (len: nat)
    requires Ring(head, s)
    ensures len == |s|
  {
    assert Chained(head, s, 0);
    len := 0;
    var it := head.next;
    while it != head
      invariant len <= |s| && it == At(head, s, len + 1)
      decreases |s| - len
    {
      assert Chained(head, s, len + 1);
      it := it.next;
      len := len + 1;
    }
  }
}
