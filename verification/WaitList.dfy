/**
 The list of the processes that wait for a semaphore (src/kernel/sync/semaphore_api.c:21-106, 159-236):
 singly linked records with a pointer to the first and one to the last.
 */
module WaitList {
  import opened Marks
  import opened Semaphores

  /** blocked_process_semaphore_t */
  class Waiter {
    const pid: nat
    var next_block_struct: Waiter?

    constructor (p: nat)
      ensures pid == p && next_block_struct == null
    {
      pid, next_block_struct := p, null;
    }
  }

  function Pids(list: seq<Waiter>): (w: seq<nat>)
    ensures |w| == |list| && forall i :: 0 <= i < |w| ==> w[i] == list[i].pid
  {
    seq(|list|, i requires 0 <= i < |list| => list[i].pid)
  }

  ghost predicate Linked(list: seq<Waiter>, i: nat)
    requires i < |list|
    reads list`next_block_struct
  {
    list[i].next_block_struct == if i + 1 < |list| then list[i + 1] else null
  }

  ghost predicate Chain(list: seq<Waiter>)
    reads list`next_block_struct
  {
    && (forall i: nat {:trigger Linked(list, i)} :: i < |list| ==> Linked(list, i))
    && forall i, j {:trigger Pair(i, j)} :: Pair(i, j) && 0 <= i < j < |list| ==> list[i] != list[j]
  }

  function With(l: seq<Waiter>, k: nat, b: Waiter): (u: seq<Waiter>)
    requires k <= |l|
    ensures |u| == |l| + 1
  {
    l[..k] + [b] + l[k..]
  }

  ghost predicate NobodyTwice(w: seq<nat>) {
    forall i, j {:trigger Pair(i, j)} :: Pair(i, j) && 0 <= i < j < |w| ==> w[i] != w[j]
  }

  /** The list is w without the process. */
  ghost predicate Without(w: seq<nat>, pid: nat, u: seq<nat>) {
    exists k {:trigger w[k]} :: 0 <= k < |w| && w[k] == pid && u == w[..k] + w[k + 1..]
  }

  class WaitList {
    var head_blocked: Waiter?
    var tail_blocked: Waiter?
    ghost var list: seq<Waiter>

    ghost predicate Valid()
      reads this, list`next_block_struct
    {
      && head_blocked == (if list == [] then null else list[0])
      && tail_blocked == (if list == [] then null else list[|list| - 1])
      && Chain(list)
    }

    constructor ()
      ensures Valid() && list == []
    {
      head_blocked, tail_blocked, list := null, null, [];
    }

    /** The walk in wait: the first waiter that is less important, and the one before it. */
    method Walk(prio: nat -> int, p: nat) returns (iter: Waiter?, prev: Waiter?, ghost k: nat)
      requires Valid()
      ensures k == Place(Pids(list), prio, p) && iter == (if k < |list| then list[k] else null)
      ensures k > 0 ==> prev == list[k - 1]
    {
      iter, prev, k := head_blocked, head_blocked, 0;
      while iter != null && prio(p) <= prio(iter.pid)
        invariant k <= |list| && iter == (if k < |list| then list[k] else null)
        invariant k > 0 ==> prev == list[k - 1]
        invariant forall i :: 0 <= i < k ==> prio(Pids(list)[i]) >= prio(p)
        decreases |list| - k
      {
        assert Linked(list, k);
        prev := iter;
        iter := iter.next_block_struct;
        k := k + 1;
      }
      PlaceIs(Pids(list), prio, p, k);
    }

    /** wait: the process takes its place. */
    method Enter(prio: nat -> int, p: nat)
      requires Valid()
      modifies this, list`next_block_struct
      ensures Valid() && Pids(list) == Joined(Pids(old(list)), prio, p)
      ensures forall i :: 0 <= i < |list| ==> list[i] in old(list) || fresh(list[i])
    {
      var b := new Waiter(p);
      ghost var l := list;
      assert b !in l;
      Insert(prio, b);
      PidsWith(l, Place(Pids(l), prio, p), b);
    }

    method Insert(prio: nat -> int, b: Waiter)
      requires Valid() && b !in list && b.next_block_struct == null
      modifies this, b, list`next_block_struct
      ensures Valid() && list == With(old(list), Place(Pids(old(list)), prio, b.pid), b)
    {
      if head_blocked == null && tail_blocked == null {
        head_blocked, tail_blocked, list := b, b, [b];
      } else {
        var iter, prev;
        ghost var k;
        iter, prev, k := Walk(prio, b.pid);
        Link(b, iter, prev, k);
      }
    }

    /** The pointers around the new waiter, who gets position k. */
    method Link(b: Waiter, iter: Waiter?, prev: Waiter?, ghost k: nat)
      requires Valid() && list != [] && k <= |list| && b !in list && b.next_block_struct == null
      requires iter == (if k < |list| then list[k] else null) && (k > 0 ==> prev == list[k - 1])
      modifies this, b, list`next_block_struct
      ensures Valid() && list == With(old(list), k, b)
    {
      ghost var l := list;
      assert Pair(0, k) && l[0] in l && l[|l| - 1] in l;
      if iter != null {
        b.next_block_struct := iter;
        if iter == head_blocked {
          head_blocked := b;
        } else {
          assert l[k - 1] in l;
          prev.next_block_struct := b;
        }
      } else {
        tail_blocked.next_block_struct := b;
        tail_blocked := b;
      }
      list := With(l, k, b);
      forall i: nat | i < |list| ensures Linked(list, i) {
        if i < k {
          assert old(Linked(l, i)) && Pair(i, k - 1);
        } else if i > k {
          assert old(Linked(l, i - 1)) && Pair(k - 1, i - 1);
        }
      }
      forall i, j | 0 <= i < j < |list| ensures list[i] != list[j] {
        assert Pair(if i < k then i else i - 1, if j < k then j else j - 1);
      }
    }

    /** unblock_process_sem: the first waiter leaves, and his record is freed. */
    method TakeFirst() returns (rc: int, gone: Waiter?)
      requires Valid()
      modifies this
      ensures Valid() && rc == if old(list) == [] then 1 else 0
      ensures rc == 1 ==> gone == null && list == []
      ensures rc == 0 ==> gone == old(list)[0] && list == old(list)[1..] && gone !in list
    {
      if head_blocked == null {
        return 1, null;
      }
      gone := head_blocked;
      if head_blocked == tail_blocked {
        OnlyOne();
        head_blocked, tail_blocked := null, null;
      } else {
        assert Linked(list, 0);
        head_blocked := head_blocked.next_block_struct;
      }
      SuffixChain(list);
      list := list[1..];
      rc := 0;
    }

    lemma OnlyOne()
      requires Valid() && list != [] && head_blocked == tail_blocked
      ensures |list| == 1
    {
      assert Pair(0, |list| - 1);
    }

    /**
     remove_proc_queue, for a process that is killed while it waits: what becomes of the list and whose
     record is freed. Unless there is at most one waiter, or the process is the first or the last one, it is
     not the process's: the first one's is freed, and stays in the list.
     */
    method Remove(pid: nat) returns (rc: int, gone: Waiter?)
      requires Valid() && NobodyTwice(Pids(list))
      modifies this, list`next_block_struct
      ensures Valid() && rc == if old(list) == [] then 1 else if |old(list)| == 1 && old(list)[0].pid != pid then -1 else 0
      ensures rc != 0 ==> gone == null && list == old(list)
      ensures rc == 0 ==> gone != null && if !AtAnEnd(Pids(old(list)), pid) then gone == old(list)[0] && list == old(list)
        else gone.pid == pid && gone !in list && Without(Pids(old(list)), pid, Pids(list))
      ensures TakenOut(Pids(old(list)), pid, Pids(list), if gone == null then [] else [gone.pid])
         <==> |old(list)| <= 1 || AtAnEnd(Pids(old(list)), pid)
    {
      if head_blocked == null {
        return 1, null;
      }
      if head_blocked == tail_blocked {
        OnlyOne();
        if head_blocked.pid != pid {
          return -1, null;
        }
        gone := head_blocked;
        head_blocked, tail_blocked, list := null, null, [];
        assert Without(Pids(old(list)), pid, []) by {
          assert Pids(old(list))[0] == pid;
        }
      } else if head_blocked.pid == pid {
        gone := TakeHead();
      } else if tail_blocked.pid == pid {
        gone := TakeTail();
      } else {
        gone := TakeOther(pid);
        if gone == null {
          return -1, null;
        }
      }
      rc := 0;
    }

    method TakeHead() returns (gone: Waiter)
      requires Valid() && |list| > 1
      modifies this
      ensures Valid() && gone == old(list)[0] && list == old(list)[1..] && gone !in list
      ensures Without(Pids(old(list)), gone.pid, Pids(list))
    {
      gone := head_blocked;
      assert Linked(list, 0);
      head_blocked := gone.next_block_struct;
      SuffixChain(list);
      WithoutAt(list, 0);
      list := list[1..];
    }

    method TakeTail() returns (gone: Waiter)
      requires Valid() && |list| > 1
      modifies this, list`next_block_struct
      ensures Valid() && gone == old(list)[|old(list)| - 1] && list == old(list)[..|old(list)| - 1] && gone !in list
      ensures Without(Pids(old(list)), gone.pid, Pids(list))
    {
      ghost var l := list;
      gone := tail_blocked;
      var iter := head_blocked;
      ghost var k := 0;
      assert Linked(l, 0);
      while iter.next_block_struct != tail_blocked
        invariant k < |l| - 1 && iter == l[k] && Linked(l, k)
        decreases |l| - k
      {
        assert Pair(k + 1, |l| - 1) && Linked(l, k + 1);
        iter := iter.next_block_struct;
        k := k + 1;
      }
      assert k == |l| - 2 by {
        assert Pair(k + 1, |l| - 1);
      }
      assert l[k] in l;
      iter.next_block_struct := null;
      tail_blocked := iter;
      WithoutAt(l, |l| - 1);
      list := l[..|l| - 1];
      forall i: nat | i < |list| ensures Linked(list, i) && list[i] != gone {
        assert old(Linked(l, i)) && Pair(i, k) && Pair(i, |l| - 1);
      }
    }

    /** The last branch: the loop takes the first waiter who is not the process. */
    method TakeOther(pid: nat) returns (gone: Waiter?)
      requires Valid() && |list| > 1
      modifies list`next_block_struct
      ensures list[0].pid != pid ==> Valid() && gone == list[0]
    {
      gone := null;
      var iter, prev := head_blocked, head_blocked;
      ghost var k := 0;
      while iter != null && gone == null
        invariant k <= |list| && prev != null && prev in list
        invariant gone == null ==> Valid() && iter == (if k < |list| then list[k] else null)
        invariant k == 0 && gone == null ==> prev == list[0]
        invariant k > 0 ==> list[0].pid == pid
        invariant list[0].pid != pid && gone != null ==> Valid() && gone == list[0]
        decreases |list| - k, if gone == null then 1 else 0
      {
        assert list[k] in list && Linked(list, k);
        if iter.pid != pid {
          prev.next_block_struct := iter.next_block_struct;
          gone := iter;
        } else {
          prev := iter;
          iter := iter.next_block_struct;
          k := k + 1;
        }
      }
    }
  }

  /** Processes 1 to n, as important as one another, have come to wait in this order. */
  method Waiting(n: nat) returns (l: WaitList)
    ensures fresh(l) && l.Valid() && Pids(l.list) == FirstPids(n) && forall i :: 0 <= i < |l.list| ==> fresh(l.list[i])
  {
    l := new WaitList();
    var p := 0;
    while p < n
      invariant p <= n && fresh(l) && l.Valid() && forall i :: 0 <= i < |l.list| ==> fresh(l.list[i])
      invariant Pids(l.list) == FirstPids(p)
    {
      p := p + 1;
      JoinedLast(Pids(l.list), Alike, p);
      l.Enter(Alike, p);
    }
  }

  /** Process 2 of three is killed: the record of process 1 is freed, and stays in the list. */
  method MiddleExample() returns (l: WaitList, gone: Waiter?)
    ensures Pids(l.list) == FirstPids(3) && gone != null && gone.pid == 1 && gone in l.list
  {
    l := Waiting(3);
    var rc;
    rc, gone := l.Remove(2);
  }

  function Alike(p: nat): int {
    0
  }

  function FirstPids(n: nat): seq<nat> {
    seq(n, i => i + 1)
  }

  /** The process is the only one, the first or the last in the list. */
  predicate AtAnEnd(w: seq<nat>, pid: nat) {
    w != [] && (w[0] == pid || w[|w| - 1] == pid)
  }

  /** What remove_proc_queue is for: the process is taken out if it is there, and nobody else. */
  ghost predicate TakenOut(w: seq<nat>, pid: nat, u: seq<nat>, gone: seq<nat>) {
    if pid in w then gone == [pid] && Without(w, pid, u) else gone == [] && u == w
  }

  lemma PidsWith(l: seq<Waiter>, k: nat, b: Waiter)
    requires k <= |l|
    ensures Pids(With(l, k, b)) == Pids(l)[..k] + [b.pid] + Pids(l)[k..]
    ensures forall i :: 0 <= i <= |l| ==> With(l, k, b)[i] in l || With(l, k, b)[i] == b
  {
  }

  /** A newcomer who is no more important than anybody goes to the end. */
  lemma JoinedLast(w: seq<nat>, prio: nat -> int, p: nat)
    requires forall i :: 0 <= i < |w| ==> prio(w[i]) >= prio(p)
    ensures Joined(w, prio, p) == w + [p]
  {
    PlaceIs(w, prio, p, |w|);
  }

  lemma PlaceIs(w: seq<nat>, prio: nat -> int, p: nat, k: nat)
    requires k <= |w| && (forall i :: 0 <= i < k ==> prio(w[i]) >= prio(p)) && (k < |w| ==> prio(w[k]) < prio(p))
    ensures Place(w, prio, p) == k
  {
  }

  lemma SuffixChain(l: seq<Waiter>)
    requires l != [] && Chain(l)
    ensures Chain(l[1..]) && l[0] !in l[1..]
  {
    forall i: nat | i < |l| - 1 ensures Linked(l[1..], i) && l[1..][i] != l[0] {
      assert Linked(l, i + 1) && Pair(0, i + 1);
    }
    forall i, j | 0 <= i < j < |l| - 1 ensures l[1..][i] != l[1..][j] {
      assert Pair(i + 1, j + 1);
    }
  }

  lemma WithoutAt(l: seq<Waiter>, k: nat)
    requires k < |l|
    ensures Without(Pids(l), l[k].pid, Pids(l[..k] + l[k + 1..]))
  {
    var w := Pids(l);
    assert w[k] == l[k].pid;
    assert Pids(l[..k] + l[k + 1..]) == w[..k] + w[k + 1..];
  }
}
