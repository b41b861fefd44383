/**
 In which order the processes blocked on a message queue are served (src/kernel/sync/msgqueue.c:65-203):
 the two lists are changed by queue_add and queue_out only, so the order can be told from the calls.
 */
module MsgQueueOrder {
  import opened QueueRuns
  import opened Scheduler
  import M = MsgQueues
  import R = MsgQueueRuns

  /** What has been done to the lists of blocked consumers and producers since the queue was created or reset. */
  datatype History = History(cons: seq<Op<nat>>, prod: seq<Op<nat>>)

  function ConsOps(q: M.MQ, c: M.Call): seq<Op<nat>>
    requires q.cpu.pid >= 0
  {
    if c.Send? && q.buffer == [] && q.cons != [] then [Out]
    else if c.Receive? && q.buffer == [] && q.prod == [] then [Add(q.cpu.pid)]
    else []
  }

  function ProdOps(q: M.MQ, c: M.Call): seq<Op<nat>>
    requires q.cpu.pid >= 0
  {
    if M.Blocks(q, c) && c.Send? then [Add(q.cpu.pid)]
    else if c.Receive? && q.prod != [] && (q.buffer == [] || |q.buffer| == q.size) then [Out]
    else []
  }

  function Recorded(q: M.MQ, h: History, c: M.Call): History
    requires q.cpu.pid >= 0
  {
    if c.Reset? then History([], []) else History(h.cons + ConsOps(q, c), h.prod + ProdOps(q, c))
  }

  /** The lists are what the history makes of them. */
  ghost predicate Follows(q: M.MQ, h: History, prio: nat -> int) {
    q.cons == After(h.cons, prio) && q.prod == After(h.prod, prio)
  }

  /** A list after one call, which does at most one thing to it. */
  function Moved(s: seq<nat>, ops: seq<Op<nat>>, prio: nat -> int): seq<nat> {
    if ops == [] then s else Applied(s, ops[0], prio)
  }

  lemma MovedFollows(ops: seq<Op<nat>>, more: seq<Op<nat>>, prio: nat -> int)
    requires |more| <= 1
    ensures After(ops + more, prio) == Moved(After(ops, prio), more, prio)
  {
    if more == [] {
      assert ops + more == ops;
    } else {
      assert (ops + more)[..|ops|] == ops;
    }
  }

  ghost predicate Moves(q: M.MQ, c: M.Call, q': M.MQ, prio: nat -> int)
    requires q.cpu.pid >= 0
  {
    q'.cons == Moved(q.cons, ConsOps(q, c), prio) && q'.prod == Moved(q.prod, ProdOps(q, c), prio)
  }

  lemma SendMoves(q: M.MQ, m: int, prio: nat -> int)
    requires q.cpu.pid >= 0
    ensures Moves(q, M.Send(m), M.Do(q, M.Send(m), prio), prio)
  {
  }

  lemma ReceiveMoves(q: M.MQ, prio: nat -> int)
    requires q.cpu.pid >= 0
    ensures Moves(q, M.Receive, M.Do(q, M.Receive, prio), prio)
  {
  }

  lemma TickMoves(q: M.MQ, ticks: nat, prio: nat -> int)
    requires q.cpu.pid >= 0
    ensures Moves(q, M.Tick(ticks), M.Do(q, M.Tick(ticks), prio), prio)
  {
  }

  lemma ResetEmpties(q: M.MQ, prio: nat -> int)
    requires q.cpu.pid >= 0
    ensures M.Do(q, M.Reset, prio).cons == [] && M.Do(q, M.Reset, prio).prod == []
  {
    R.ConsFreedBoxes(q.(buffer := []), prio, 0);
    R.ProdFreedBoxes(M.ConsFreed(q.(buffer := []), prio), prio, 0);
  }

  lemma CallFollows(q: M.MQ, h: History, c: M.Call, prio: nat -> int)
    requires q.cpu.pid >= 0 && Follows(q, h, prio)
    ensures Follows(M.Do(q, c, prio), Recorded(q, h, c), prio)
  {
    match c {
      case Send(m) => SendMoves(q, m, prio);
      case Receive => ReceiveMoves(q, prio);
      case Tick(ticks) => TickMoves(q, ticks, prio);
      case Reset => ResetEmpties(q, prio);
    }
    MovedFollows(h.cons, ConsOps(q, c), prio);
    MovedFollows(h.prod, ProdOps(q, c), prio);
  }

  ghost function RunHistory(q: M.MQ, h: History, cs: seq<M.Call>, prio: nat -> int): History
    requires q.cpu.pid >= 0 && R.CanRun(q, cs, prio)
    decreases |cs|
  {
    if cs == [] then h else RunHistory(M.Do(q, cs[0], prio), Recorded(q, h, cs[0]), cs[1..], prio)
  }

  lemma {:induction false} RunFollows(q: M.MQ, h: History, cs: seq<M.Call>, prio: nat -> int)
    requires q.cpu.pid >= 0 && R.CanRun(q, cs, prio) && Follows(q, h, prio)
    ensures Follows(R.Run(q, cs, prio), RunHistory(q, h, cs, prio), prio)
    decreases |cs|
  {
    if cs != [] {
      CallFollows(q, h, cs[0], prio);
      RunFollows(M.Do(q, cs[0], prio), Recorded(q, h, cs[0]), cs[1..], prio);
    }
  }

  /** The next element out is more important than element i, or as important and added by an earlier call. */
  ghost predicate ServedFirst(ops: seq<Op<nat>>, prio: nat -> int, i: nat) {
    var s, u := After(ops, prio), Entries(ops, prio);
    && i < |s| == |u| && u[|s| - 1].x == Last(s) && u[i].x == s[i]
    && (prio(Last(s)) > prio(s[i]) || (prio(Last(s)) == prio(s[i]) && u[|s| - 1].call < u[i].call))
  }

  /** The next process out of a list, whatever its history. */
  lemma FirstServed(ops: seq<Op<nat>>, prio: nat -> int)
    ensures forall i: nat {:trigger ServedFirst(ops, prio, i)} :: i < |After(ops, prio)| - 1 ==> ServedFirst(ops, prio, i)
    ensures Added(ops, Entries(ops, prio))
  {
    RunOrdered(ops, prio);
    forall i: nat | i < |After(ops, prio)| - 1 ensures ServedFirst(ops, prio, i) {
      NextIsOldestOfHighest(ops, prio, i);
    }
  }

  /** The next process out of the list is the most important one in it, and the oldest of those. */
  ghost predicate BestNext(s: seq<nat>, ops: seq<Op<nat>>, prio: nat -> int) {
    && s == After(ops, prio) && Added(ops, Entries(ops, prio))
    && forall i: nat {:trigger ServedFirst(ops, prio, i)} :: i < |s| - 1 ==> ServedFirst(ops, prio, i)
  }

  /**
   After every run of calls on a new queue, the process that psend or preceive wakes up next is the
   most important of those blocked, and among equals the one that blocked first.
   */
  lemma NextWokenFirst(q: M.MQ, cs: seq<M.Call>, prio: nat -> int)
    requires q.cpu.pid >= 0 && R.CanRun(q, cs, prio) && q.cons == [] && q.prod == []
    ensures BestNext(R.Run(q, cs, prio).cons, RunHistory(q, History([], []), cs, prio).cons, prio)
    ensures BestNext(R.Run(q, cs, prio).prod, RunHistory(q, History([], []), cs, prio).prod, prio)
  {
    var h := RunHistory(q, History([], []), cs, prio);
    RunFollows(q, History([], []), cs, prio);
    FirstServed(h.cons, prio);
    FirstServed(h.prod, prio);
  }
}
