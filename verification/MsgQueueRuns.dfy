/**
 Where the messages of a message queue go (src/kernel/sync/msgqueue.c:65-167), and what its blocked
 callers return.
 */
module MsgQueueRuns {
  import opened QueueSpec
  import opened Scheduler
  import opened SchedulerRuns
  import opened MsgQueues

  /** Since the queue was created or reset: the messages sent, those taken in, those given out, and how many were asked for. */
  datatype Log = Log(sent: seq<int>, accepted: seq<int>, delivered: seq<int>, receives: nat)

  /** The messages that blocked producers hold. */
  function Pending(s: seq<nat>, boxes: map<nat, Box>): (v: seq<int>)
    ensures |v| == |s| && forall i :: 0 <= i < |s| ==> v[i] == BoxOf(boxes, s[i]).value
  {
    seq(|s|, i requires 0 <= i < |s| => BoxOf(boxes, s[i]).value)
  }

  function Sends(c: Call): seq<int> {
    match c
    case Send(m) => [m]
    case _ => []
  }

  /** The messages that the call takes in. */
  function Accepts(q: MQ, c: Call): seq<int> {
    match c
    case Send(m) => if Blocks(q, c) then [] else [m]
    case Receive =>
      if q.prod != [] && (q.buffer == [] || |q.buffer| == q.size) then [BoxOf(q.boxes, Last(q.prod)).value] else []
    case _ => []
  }

  /** The messages that the call gives to a receiver. */
  function Delivers(q: MQ, c: Call): seq<int> {
    match c
    case Send(m) => if q.buffer == [] && q.cons != [] then [m] else []
    case Receive =>
      if q.buffer != [] then [q.buffer[0]]
      else if q.prod != [] then [BoxOf(q.boxes, Last(q.prod)).value]
      else []
    case _ => []
  }

  function Record(q: MQ, log: Log, c: Call): Log {
    if c.Reset? then Log([], [], [], 0)
    else Log(log.sent + Sends(c), log.accepted + Accepts(q, c), log.delivered + Delivers(q, c),
             log.receives + if c.Receive? then 1 else 0)
  }

  /** pcount */
  function Count(q: MQ): int {
    if q.cons != [] then -|q.cons| else |q.buffer| + |q.prod|
  }

  /**
   Messages go out in the order in which they were taken in, what is in between is the buffer; every
   message sent was taken in or is held by a blocked producer; and pcount is the difference between the
   calls of psend and of preceive.
   */
  ghost predicate Accounted(q: MQ, log: Log) {
    && log.accepted == log.delivered + q.buffer
    && multiset(log.sent) == multiset(log.accepted) + multiset(Pending(q.prod, q.boxes))
    && Count(q) == |log.sent| - log.receives
  }

  lemma PendingJoin(s: seq<nat>, boxes: map<nat, Box>, prio: nat -> int, p: nat, b: Box)
    requires p !in s
    ensures multiset(Pending(Inserted(s, prio, p), boxes[p := b])) == multiset(Pending(s, boxes)) + multiset{b.value}
  {
    var i := Slot(s, prio, prio(p));
    var v := Pending(s, boxes);
    assert Pending(Inserted(s, prio, p), boxes[p := b]) == v[..i] + [b.value] + v[i..];
    assert v == v[..i] + v[i..];
  }

  lemma PendingLeave(s: seq<nat>, boxes: map<nat, Box>, b: Box)
    requires s != [] && Last(s) !in ButLast(s)
    ensures multiset(Pending(s, boxes)) == multiset(Pending(ButLast(s), boxes[Last(s) := b])) + multiset{BoxOf(boxes, Last(s)).value}
  {
    assert Pending(s, boxes) == Pending(ButLast(s), boxes[Last(s) := b]) + [BoxOf(boxes, Last(s)).value];
  }

  lemma LastOnce(q: MQ)
    requires forall p :: All(q)[p] <= 1
    ensures q.prod != [] ==> Last(q.prod) !in ButLast(q.prod)
    ensures q.cons != [] ==> Last(q.cons) !in ButLast(q.cons)
  {
    if q.prod != [] {
      SplitLast(q.prod);
      assert All(q)[Last(q.prod)] <= 1;
    }
    if q.cons != [] {
      SplitLast(q.cons);
      assert All(q)[Last(q.cons)] <= 1;
    }
  }

  lemma PidNotIn(q: MQ)
    requires Runs(q.cpu) && forall p :: All(q)[p] <= 1
    ensures q.cpu.pid !in q.prod && q.cpu.pid !in q.cons
  {
    assert All(q)[q.cpu.pid] <= 1;
  }

  /** How buffer, blocked producers and count change, in terms of what the call sends, accepts and delivers. */
  ghost predicate Moves(q: MQ, q': MQ, c: Call) {
    && q.buffer + Accepts(q, c) == Delivers(q, c) + q'.buffer
    && multiset(Pending(q'.prod, q'.boxes)) + multiset(Accepts(q, c)) == multiset(Pending(q.prod, q.boxes)) + multiset(Sends(c))
    && Count(q') == Count(q) + |Sends(c)| - if c.Receive? then 1 else 0
  }

  lemma MovesAccounted(q: MQ, q': MQ, log: Log, c: Call)
    requires Accounted(q, log) && !c.Reset? && Moves(q, q', c)
    ensures Accounted(q', Record(q, log, c))
  {
    assert log.delivered + q.buffer + Accepts(q, c) == log.delivered + (q.buffer + Accepts(q, c));
    assert log.delivered + (Delivers(q, c) + q'.buffer) == log.delivered + Delivers(q, c) + q'.buffer;
    Shuffle(log.sent, log.accepted, multiset(Pending(q.prod, q.boxes)), Sends(c), Accepts(q, c), multiset(Pending(q'.prod, q'.boxes)));
  }

  lemma Shuffle(s: seq<int>, a: seq<int>, p: multiset<int>, s1: seq<int>, a1: seq<int>, p': multiset<int>)
    requires multiset(s) == multiset(a) + p && p' + multiset(a1) == p + multiset(s1)
    ensures multiset(s + s1) == multiset(a + a1) + p'
  {
    assert multiset(s + s1) == multiset(a) + (p + multiset(s1));
  }

  lemma SendMoves(q: MQ, m: int, prio: nat -> int)
    requires MqOk(q, prio)
    ensures Moves(q, Effect(q, Send(m), prio), Send(m))
  {
    PidNotIn(q);
    if Blocks(q, Send(m)) {
      SenderMoves(q, m, prio);
    } else if q.buffer == [] && q.cons != [] {
      assert Pending(q.prod, q.boxes) == [];
    }
  }

  lemma SenderMoves(q: MQ, m: int, prio: nat -> int)
    requires MqOk(q, prio) && Blocks(q, Send(m)) && q.cpu.pid !in q.prod
    ensures Moves(q, SenderBlocked(q, prio, m), Send(m))
  {
    PendingJoin(q.prod, q.boxes, prio, q.cpu.pid, Box(m, BoxOf(q.boxes, q.cpu.pid).status));
  }

  lemma ReceiveMoves(q: MQ, prio: nat -> int)
    requires MqOk(q, prio)
    ensures Moves(q, Effect(q, Receive, prio), Receive)
  {
    LastOnce(q);
    if q.buffer == [] && q.prod != [] {
      TakenOverMoves(q, prio);
    } else if q.buffer == [] {
    } else if |q.buffer| == q.size && q.prod != [] {
      RefilledMoves(q, prio);
    } else {
      assert q.buffer == [q.buffer[0]] + q.buffer[1..];
    }
  }

  lemma TakenOverMoves(q: MQ, prio: nat -> int)
    requires Balanced(q) && q.buffer == [] && q.prod != [] && Last(q.prod) !in ButLast(q.prod)
    ensures Moves(q, TakenOver(q, prio), Receive)
  {
    PendingLeave(q.prod, q.boxes, Box(BoxOf(q.boxes, Last(q.prod)).value, SENT));
  }

  lemma RefilledMoves(q: MQ, prio: nat -> int)
    requires Balanced(q) && q.buffer != [] && |q.buffer| == q.size && q.prod != [] && Last(q.prod) !in ButLast(q.prod)
    ensures Moves(q, Refilled(q, prio), Receive)
  {
    PendingLeave(q.prod, q.boxes, Box(BoxOf(q.boxes, Last(q.prod)).value, SENT));
    assert q.buffer == [q.buffer[0]] + q.buffer[1..];
  }

  lemma ResetAccounted(q: MQ, log: Log, prio: nat -> int)
    requires MqOk(q, prio)
    ensures Accounted(Effect(q, Reset, prio), Record(q, log, Reset))
  {
    ResetKeeps(q, prio);
  }

  lemma EffectAccounted(q: MQ, log: Log, c: Call, prio: nat -> int)
    requires MqOk(q, prio) && Accounted(q, log)
    ensures Accounted(Effect(q, c, prio), Record(q, log, c))
  {
    match c
    case Send(m) =>
      SendMoves(q, m, prio);
      MovesAccounted(q, Effect(q, c, prio), log, c);
    case Receive =>
      ReceiveMoves(q, prio);
      MovesAccounted(q, Effect(q, c, prio), log, c);
    case Reset => ResetAccounted(q, log, prio);
    case Tick(_) => MovesAccounted(q, Effect(q, c, prio), log, c);
  }

  // ----- runs -----

  /** Whenever the running process blocks, somebody is ready. */
  ghost predicate CanRun(q: MQ, cs: seq<Call>, prio: nat -> int)
    requires q.cpu.pid >= 0
    decreases |cs|
  {
    cs == [] ||
    ((Blocks(q, cs[0]) ==> q.cpu.ready != []) && Do(q, cs[0], prio).cpu.pid >= 0 && CanRun(Do(q, cs[0], prio), cs[1..], prio))
  }

  ghost function Run(q: MQ, cs: seq<Call>, prio: nat -> int): MQ
    requires q.cpu.pid >= 0 && CanRun(q, cs, prio)
    decreases |cs|
  {
    if cs == [] then q else Run(Do(q, cs[0], prio), cs[1..], prio)
  }

  ghost function RunLog(q: MQ, log: Log, cs: seq<Call>, prio: nat -> int): Log
    requires q.cpu.pid >= 0 && CanRun(q, cs, prio)
    decreases |cs|
  {
    if cs == [] then log else RunLog(Do(q, cs[0], prio), Record(q, log, cs[0]), cs[1..], prio)
  }

  /** Over every run of calls no message and no process is lost, duplicated or overtaken. */
  lemma {:induction false} NothingLost(q: MQ, log: Log, cs: seq<Call>, prio: nat -> int)
    requires MqOk(q, prio) && Accounted(q, log) && CanRun(q, cs, prio)
    ensures MqOk(Run(q, cs, prio), prio) && Accounted(Run(q, cs, prio), RunLog(q, log, cs, prio))
    ensures All(Run(q, cs, prio)) == All(q)
    decreases |cs|
  {
    if cs != [] {
      DoKeeps(q, cs[0], prio);
      EffectAccounted(q, log, cs[0], prio);
      var q' := Do(q, cs[0], prio);
      assert Accounted(q', Record(q, log, cs[0]));
      NothingLost(q', Record(q, log, cs[0]), cs[1..], prio);
    }
  }

  // ----- what a blocked call returns -----

  ghost predicate IsBlocked(q: MQ, p: nat) {
    p in q.cons || p in q.prod
  }

  ghost predicate SameBox(q: MQ, q': MQ, p: nat) {
    BoxOf(q'.boxes, p) == BoxOf(q.boxes, p)
  }

  /** What the call leaves in the message field of a process that it wakes up. */
  function BoxAfter(c: Call, b: Box): Box {
    match c
    case Send(m) => Box(m, RECEIVED)
    case Receive => Box(b.value, SENT)
    case _ => Box(b.value, ERROR)
  }

  lemma {:induction false} ConsFreedBoxes(q: MQ, prio: nat -> int, p: nat)
    ensures var q' := ConsFreed(q, prio);
      && q'.prod == q.prod && q'.cons == []
      && (p in q.cons ==> BoxOf(q'.boxes, p) == Box(BoxOf(q.boxes, p).value, ERROR))
      && (p !in q.cons ==> SameBox(q, q', p))
    decreases |q.cons|
  {
    if q.cons != [] {
      SplitLast(q.cons);
      assert q.cons == ButLast(q.cons) + [Last(q.cons)];
      ConsFreedBoxes(ConsFreedOne(q, prio), prio, p);
    }
  }

  lemma {:induction false} ProdFreedBoxes(q: MQ, prio: nat -> int, p: nat)
    ensures var q' := ProdFreed(q, prio);
      && q'.cons == q.cons && q'.prod == []
      && (p in q.prod ==> BoxOf(q'.boxes, p) == Box(BoxOf(q.boxes, p).value, ERROR))
      && (p !in q.prod ==> SameBox(q, q', p))
    decreases |q.prod|
  {
    if q.prod != [] {
      SplitLast(q.prod);
      assert q.prod == ButLast(q.prod) + [Last(q.prod)];
      ProdFreedBoxes(ProdFreedOne(q, prio), prio, p);
    }
  }

  lemma ResetBoxes(q: MQ, prio: nat -> int, p: nat)
    requires q.cpu.pid >= 0
    ensures var q' := Effect(q, Reset, prio);
      && !IsBlocked(q', p)
      && (if IsBlocked(q, p) then BoxOf(q'.boxes, p) == Box(BoxOf(q.boxes, p).value, ERROR) else SameBox(q, q', p))
  {
    ConsFreedBoxes(q.(buffer := []), prio, p);
    ProdFreedBoxes(ConsFreed(q.(buffer := []), prio), prio, p);
  }

  /** Another process's call leaves p blocked with its message, or wakes it with the outcome of that call. */
  lemma BlockedOutcome(q: MQ, c: Call, prio: nat -> int, p: nat)
    requires MqOk(q, prio) && IsBlocked(q, p)
    ensures var q' := Effect(q, c, prio);
      || (SameBox(q, q', p) && (p in q.cons ==> p in q'.cons) && (p in q.prod ==> p in q'.prod))
      || (BoxOf(q'.boxes, p) == BoxAfter(c, BoxOf(q.boxes, p)) && !IsBlocked(q', p)
          && (c.Reset? || (if p in q.cons then c.Send? else c.Receive?)))
  {
    PidNotIn(q);
    LastOnce(q);
    match c
    case Send(m) => SendOutcome(q, m, prio, p);
    case Receive => ReceiveOutcome(q, prio, p);
    case Reset => ResetBoxes(q, prio, p);
    case Tick(_) =>
  }

  lemma SendOutcome(q: MQ, m: int, prio: nat -> int, p: nat)
    requires MqOk(q, prio) && IsBlocked(q, p) && q.cpu.pid !in q.prod && q.cpu.pid !in q.cons
    requires q.cons != [] ==> Last(q.cons) !in ButLast(q.cons)
    ensures var q' := Effect(q, Send(m), prio);
      || (SameBox(q, q', p) && (p in q.cons ==> p in q'.cons) && (p in q.prod ==> p in q'.prod))
      || (BoxOf(q'.boxes, p) == Box(m, RECEIVED) && !IsBlocked(q', p) && p in q.cons)
  {
    if q.cons != [] {
      SplitLast(q.cons);
      assert q.cons == ButLast(q.cons) + [Last(q.cons)];
    } else {
      InsertedMembers<nat>(q.prod, prio, q.cpu.pid);
    }
  }

  lemma ReceiveOutcome(q: MQ, prio: nat -> int, p: nat)
    requires MqOk(q, prio) && IsBlocked(q, p)
    requires q.prod != [] ==> Last(q.prod) !in ButLast(q.prod)
    ensures var q' := Effect(q, Receive, prio);
      || (SameBox(q, q', p) && (p in q.cons ==> p in q'.cons) && (p in q.prod ==> p in q'.prod))
      || (BoxOf(q'.boxes, p) == Box(BoxOf(q.boxes, p).value, SENT) && !IsBlocked(q', p) && p in q.prod && p !in q.cons)
  {
    if q.prod != [] {
      SplitLast(q.prod);
      assert q.prod == ButLast(q.prod) + [Last(q.prod)];
    } else {
      InsertedMembers<nat>(q.cons, prio, q.cpu.pid);
    }
  }

  lemma SendKeepsBox(q: MQ, m: int, prio: nat -> int, p: nat)
    requires q.cpu.pid >= 0 && !IsBlocked(q, p) && p != q.cpu.pid
    ensures SameBox(q, Effect(q, Send(m), prio), p) && !IsBlocked(Effect(q, Send(m), prio), p)
  {
    if q.buffer == [] && q.cons != [] {
      SplitLast(q.cons);
    } else if |q.buffer| == q.size {
      InsertedMembers<nat>(q.prod, prio, q.cpu.pid);
    }
  }

  lemma ReceiveKeepsBox(q: MQ, prio: nat -> int, p: nat)
    requires q.cpu.pid >= 0 && !IsBlocked(q, p) && p != q.cpu.pid
    ensures SameBox(q, Effect(q, Receive, prio), p) && !IsBlocked(Effect(q, Receive, prio), p)
  {
    if q.prod != [] {
      SplitLast(q.prod);
    } else if q.buffer == [] {
      InsertedMembers<nat>(q.cons, prio, q.cpu.pid);
    }
  }

  /** A process that neither runs nor is blocked here keeps its message field. */
  lemma BoxKept(q: MQ, c: Call, prio: nat -> int, p: nat)
    requires MqOk(q, prio) && !IsBlocked(q, p) && p != q.cpu.pid
    ensures SameBox(q, Effect(q, c, prio), p) && !IsBlocked(Effect(q, c, prio), p)
  {
    match c
    case Send(m) => SendKeepsBox(q, m, prio, p);
    case Receive => ReceiveKeepsBox(q, prio, p);
    case Reset => ResetBoxes(q, prio, p);
    case Tick(_) =>
  }

  /** A run during which p never gets the processor. */
  ghost predicate Without(q: MQ, cs: seq<Call>, p: nat, prio: nat -> int)
    requires q.cpu.pid >= 0
    decreases |cs|
  {
    cs == [] || (q.cpu.pid != p && Do(q, cs[0], prio).cpu.pid >= 0 && Without(Do(q, cs[0], prio), cs[1..], p, prio))
  }

  datatype Waker = Nobody | By(c: Call)

  /** The first call of the run after which p is not blocked any more. */
  ghost function WokenBy(q: MQ, cs: seq<Call>, p: nat, prio: nat -> int): Waker
    requires q.cpu.pid >= 0 && CanRun(q, cs, prio)
    decreases |cs|
  {
    if cs == [] then Nobody
    else if !IsBlocked(Do(q, cs[0], prio), p) then By(cs[0])
    else WokenBy(Do(q, cs[0], prio), cs[1..], p, prio)
  }

  lemma {:induction false} BoxStays(q: MQ, cs: seq<Call>, p: nat, prio: nat -> int)
    requires MqOk(q, prio) && CanRun(q, cs, prio) && Without(q, cs, p, prio) && !IsBlocked(q, p)
    ensures SameBox(q, Run(q, cs, prio), p)
    decreases |cs|
  {
    if cs != [] {
      BoxKept(q, cs[0], prio, p);
      DoKeeps(q, cs[0], prio);
      BoxStays(Do(q, cs[0], prio), cs[1..], p, prio);
    }
  }

  /**
   When a process blocked in psend or preceive gets the processor back, its message field is what the
   call that woke it left there: a receiver finds the message of a psend, a sender finds SENT from a
   preceive, and both find ERROR, for which they return FAILURE, exactly after preset or pdelete.
   */
  lemma {:induction false} BlockedCallReturns(q: MQ, cs: seq<Call>, p: nat, prio: nat -> int)
    requires MqOk(q, prio) && CanRun(q, cs, prio) && Without(q, cs, p, prio) && IsBlocked(q, p)
    ensures var b := BoxOf(Run(q, cs, prio).boxes, p);
      match WokenBy(q, cs, p, prio)
      case Nobody => IsBlocked(Run(q, cs, prio), p) && b == BoxOf(q.boxes, p)
      case By(c) =>
        && (c.Reset? || if p in q.cons then c.Send? else c.Receive?)
        && b == (if c.Send? then Box(c.m, RECEIVED) else Box(BoxOf(q.boxes, p).value, if c.Receive? then SENT else ERROR))
    decreases |cs|
  {
    if cs != [] {
      var q' := Do(q, cs[0], prio);
      BlockedOutcome(q, cs[0], prio, p);
      DoKeeps(q, cs[0], prio);
      if IsBlocked(q', p) {
        StaysInList(q, cs[0], prio, p);
        BlockedCallReturns(q', cs[1..], p, prio);
      } else {
        BoxStays(q', cs[1..], p, prio);
      }
    }
  }

  lemma StaysInList(q: MQ, c: Call, prio: nat -> int, p: nat)
    requires MqOk(q, prio) && IsBlocked(q, p) && (Blocks(q, c) ==> q.cpu.ready != []) && IsBlocked(Do(q, c, prio), p)
    ensures SameBox(q, Do(q, c, prio), p) && (p in q.cons <==> p in Do(q, c, prio).cons)
  {
    BlockedOutcome(q, c, prio, p);
    DoKeeps(q, c, prio);
    var q' := Do(q, c, prio);
    assert All(q')[p] <= 1;
  }
}
