/**
 What the queues of src/lib/include/queue.h:73-220 keep: a sequence, lowest priority first, in which
 a new element goes in front of those of equal priority. The last element is the next one out.
 */
module QueueSpec {
  import opened Marks

  /** Where an element of priority p goes: in front of the first one that is not lower. */
  function Slot<T>(s: seq<T>, key: T -> int, p: int): (i: nat)
    ensures i <= |s|
    ensures forall k :: 0 <= k < i ==> key(s[k]) < p
    ensures i < |s| ==> key(s[i]) >= p
  {
    if s == [] || key(s[0]) >= p then 0 else 1 + Slot(s[1..], key, p)
  }

  function Inserted<T>(s: seq<T>, key: T -> int, x: T): (u: seq<T>)
    ensures |u| == |s| + 1
  {
    var i := Slot(s, key, key(x));
    s[..i] + [x] + s[i..]
  }

  ghost predicate Sorted<T(!new)>(s: seq<T>, key: T -> int) {
    forall i, j :: 0 <= i < j < |s| ==> key(s[i]) <= key(s[j])
  }

  /** Read from its end, the queue goes by descending priority, and by age among equals. */
  ghost predicate Ordered<T(!new)>(s: seq<T>, key: T -> int, age: T -> int) {
    forall i, j {:trigger Pair(i, j)} :: Pair(i, j) && 0 <= i < j < |s| ==> Before(s[j], s[i], key, age)
  }

  ghost predicate Before<T>(x: T, y: T, key: T -> int, age: T -> int) {
    key(x) > key(y) || (key(x) == key(y) && age(x) < age(y))
  }

  /** The slot is the only place where x can go. */
  lemma SlotUnique<T>(s: seq<T>, key: T -> int, p: int, i: nat)
    requires i <= |s| && (forall k :: 0 <= k < i ==> key(s[k]) < p) && (i < |s| ==> key(s[i]) >= p)
    ensures Slot(s, key, p) == i
  {
    var j := Slot(s, key, p);
  }

  /** A newcomer queues up behind all its equals. */
  lemma InsertedOrdered<T(!new)>(s: seq<T>, key: T -> int, age: T -> int, x: T)
    requires Ordered(s, key, age) && forall i :: 0 <= i < |s| ==> age(s[i]) < age(x)
    ensures Ordered(Inserted(s, key, x), key, age)
  {
    var u, at := Inserted(s, key, x), Slot(s, key, key(x));
    forall i, j | 0 <= i < j < |u| ensures Before(u[j], u[i], key, age) {
      var i', j' := if i < at then i else i - 1, if j < at then j else j - 1;
      assert i != at ==> u[i] == s[i'];
      assert j != at ==> u[j] == s[j'];
      assert Pair(i', j') && Pair(at, j');
    }
  }

  /** Leaving - at the end or anywhere else - changes nothing for the others. */
  lemma RemovedOrdered<T(!new)>(s: seq<T>, key: T -> int, age: T -> int, k: nat)
    requires Ordered(s, key, age) && k < |s|
    ensures Ordered(s[..k] + s[k + 1..], key, age)
  {
    var u := s[..k] + s[k + 1..];
    forall i, j | 0 <= i < j < |u| ensures Before(u[j], u[i], key, age) {
      assert Pair(if i < k then i else i + 1, if j < k then j else j + 1);
    }
  }

  lemma InsertedMembers<T>(s: seq<T>, key: T -> int, x: T)
    ensures multiset(Inserted(s, key, x)) == multiset(s) + multiset{x}
    ensures forall y :: y in Inserted(s, key, x) <==> y in s || y == x
  {
    var i := Slot(s, key, key(x));
    assert s == s[..i] + s[i..];
  }

  lemma InsertedSorted<T(!new)>(s: seq<T>, key: T -> int, x: T)
    requires Sorted(s, key)
    ensures Sorted(Inserted(s, key, x), key)
  {
  }
}
