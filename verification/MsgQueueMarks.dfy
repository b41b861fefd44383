/**
 Who is marked as blocked on a message queue (src/kernel/sync/msgqueue.c:65-141), and what chprio makes
 of a mark that is left behind (src/kernel/process/process_api.c:79-114).
 */
module MsgQueueMarks {
  import opened QueueSpec
  import opened Scheduler
  import opened SchedulerRuns
  import opened SchedulerLaws
  import opened MsgQueues
  import opened MsgQueueRuns

  ghost predicate IsMarked(c: Cpu, p: int) {
    p >= 0 && p in c.mode && c.mode[p] == BLOCKEDQUEUE
  }

  /** Those who are blocked are marked, and those who can run are not. */
  ghost predicate MarksOk(q: MQ) {
    && (forall p :: p in q.cons ==> IsMarked(q.cpu, p)) && (forall p :: p in q.prod ==> IsMarked(q.cpu, p))
    && (forall p: nat :: p in q.cpu.ready || p in q.cpu.asleep ==> !IsMarked(q.cpu, p)) && !IsMarked(q.cpu, q.cpu.pid)
  }

  /** The same before the scheduler is called: the running process may just have blocked, and `left` may be marked still. */
  ghost predicate MarksBut(q: MQ, left: int) {
    && (forall p :: p in q.cons ==> IsMarked(q.cpu, p)) && (forall p :: p in q.prod ==> IsMarked(q.cpu, p))
    && (forall p: nat :: p in q.cpu.ready || p in q.cpu.asleep ==> (IsMarked(q.cpu, p) <==> p == left))
    && (IsMarked(q.cpu, q.cpu.pid) ==> q.cpu.pid >= 0 && IsBlocked(q, q.cpu.pid))
  }

  /** The producer whose message preceive has taken out of its hands keeps its mark. */
  function LeftMarked(q: MQ, c: Call): int {
    if c.Receive? && q.buffer == [] && q.prod != [] then Last(q.prod) else NO_PID
  }

  lemma ReadiedMarks(q: MQ, q': MQ, prio: nat -> int, p: nat)
    requires MarksBut(q, NO_PID) && p != q.cpu.pid && q'.cpu == Readied(MarkedReady(q.cpu, p), prio, p)
    requires forall x :: x in q'.cons <==> x in q.cons && x != p
    requires forall x :: x in q'.prod <==> x in q.prod && x != p
    ensures MarksBut(q', NO_PID)
  {
    InsertedMembers<nat>(q.cpu.ready, prio, p);
  }

  lemma ButLastApart(s: seq<nat>)
    requires s != [] && Last(s) !in ButLast(s)
    ensures forall x :: x in ButLast(s) <==> x in s && x != Last(s)
  {
    SplitLast(s);
    assert s == ButLast(s) + [Last(s)];
  }

  lemma NotBoth(q: MQ, p: nat)
    requires All(q)[p] <= 1
    ensures !(p in q.cons && p in q.prod) && (IsBlocked(q, p) ==> p !in q.cpu.ready && p !in q.cpu.asleep)
  {
  }

  lemma HandedOverMarks(q: MQ, prio: nat -> int, m: int, p: nat)
    requires MarksBut(q, NO_PID) && q.cons != [] && p == Last(q.cons) && p != q.cpu.pid && p !in q.prod
    requires forall x :: x in ButLast(q.cons) <==> x in q.cons && x != p
    ensures MarksBut(HandedOver(q, prio, m), NO_PID)
  {
    ReadiedMarks(q, HandedOver(q, prio, m), prio, p);
  }

  lemma SenderBlockedMarks(q: MQ, prio: nat -> int, m: int)
    requires MarksOk(q) && q.cpu.pid >= 0 && q.cpu.pid !in q.cpu.ready && q.cpu.pid !in q.cpu.asleep
    ensures MarksBut(SenderBlocked(q, prio, m), NO_PID)
  {
    InsertedMembers<nat>(q.prod, prio, q.cpu.pid);
  }

  lemma SendMarks(q: MQ, m: int, prio: nat -> int)
    requires MqOk(q, prio) && MarksOk(q)
    ensures MarksBut(Effect(q, Send(m), prio), NO_PID)
  {
    if q.buffer == [] && q.cons != [] {
      NextOf(q);
      HandedOverMarks(q, prio, m, Last(q.cons));
    } else if |q.buffer| == q.size {
      OneOf(q);
      SenderBlockedMarks(q, prio, m);
    }
  }

  /** The first of each list is in no other list, and does not run. */
  lemma NextOf(q: MQ)
    requires Runs(q.cpu) && forall p :: All(q)[p] <= 1
    ensures q.cons != [] ==> Last(q.cons) != q.cpu.pid && Last(q.cons) !in q.prod
    ensures q.cons != [] ==> forall x :: x in ButLast(q.cons) <==> x in q.cons && x != Last(q.cons)
    ensures q.prod != [] ==> Last(q.prod) != q.cpu.pid && Last(q.prod) !in q.cons && Last(q.prod) !in q.cpu.ready && Last(q.prod) !in q.cpu.asleep
    ensures q.prod != [] ==> forall x :: x in ButLast(q.prod) <==> x in q.prod && x != Last(q.prod)
  {
    PidNotIn(q);
    LastOnce(q);
    if q.cons != [] {
      ButLastApart(q.cons);
      SplitLast(q.cons);
      NotBoth(q, Last(q.cons));
    }
    if q.prod != [] {
      ButLastApart(q.prod);
      SplitLast(q.prod);
      NotBoth(q, Last(q.prod));
    }
  }

  lemma OneOf(q: MQ)
    requires Runs(q.cpu) && forall p :: All(q)[p] <= 1
    ensures q.cpu.pid !in q.cpu.ready && q.cpu.pid !in q.cpu.asleep
  {
    assert All(q)[q.cpu.pid] <= 1;
  }

  lemma TakenOverMarks(q: MQ, prio: nat -> int, p: nat)
    requires MarksOk(q) && q.prod != [] && p == Last(q.prod) && p != q.cpu.pid && p !in q.cons && p !in q.cpu.ready && p !in q.cpu.asleep
    requires forall x :: x in ButLast(q.prod) <==> x in q.prod && x != p
    ensures MarksBut(TakenOver(q, prio), p)
  {
    InsertedMembers<nat>(q.cpu.ready, prio, p);
    assert p in q.prod;
  }

  lemma ReceiverBlockedMarks(q: MQ, prio: nat -> int)
    requires MarksOk(q) && q.cpu.pid >= 0 && q.cpu.pid !in q.cpu.ready && q.cpu.pid !in q.cpu.asleep
    ensures MarksBut(ReceiverBlocked(q, prio), NO_PID)
  {
    InsertedMembers<nat>(q.cons, prio, q.cpu.pid);
  }

  lemma RefilledMarks(q: MQ, prio: nat -> int, p: nat)
    requires MarksBut(q, NO_PID) && q.buffer != [] && q.prod != [] && p == Last(q.prod) && p != q.cpu.pid && p !in q.cons
    requires forall x :: x in ButLast(q.prod) <==> x in q.prod && x != p
    ensures MarksBut(Refilled(q, prio), NO_PID)
  {
    ReadiedMarks(q, Refilled(q, prio), prio, p);
  }

  lemma ReceiveMarks(q: MQ, prio: nat -> int)
    requires MqOk(q, prio) && MarksOk(q)
    ensures MarksBut(Effect(q, Receive, prio), LeftMarked(q, Receive))
  {
    NextOf(q);
    OneOf(q);
    if q.buffer == [] && q.prod != [] {
      TakenOverMarks(q, prio, Last(q.prod));
    } else if q.buffer == [] {
      ReceiverBlockedMarks(q, prio);
    } else if |q.buffer| == q.size && q.prod != [] {
      RefilledMarks(q, prio, Last(q.prod));
    }
  }

  lemma {:induction false} ConsFreedMarks(q: MQ, prio: nat -> int)
    requires Held(q, prio) && MarksBut(q, NO_PID)
    ensures MarksBut(ConsFreed(q, prio), NO_PID)
    decreases |q.cons|
  {
    if q.cons != [] {
      var p := Last(q.cons);
      LastOnce(q);
      ButLastApart(q.cons);
      NotBoth(q, p);
      NextNotRunning(q, p);
      ReadiedMarks(q, ConsFreedOne(q, prio), prio, p);
      ConsFreedOneKeeps(q, prio);
      HeldAfter(q, ConsFreedOne(q, prio), prio);
      ConsFreedMarks(ConsFreedOne(q, prio), prio);
    }
  }

  lemma {:induction false} ProdFreedMarks(q: MQ, prio: nat -> int)
    requires Held(q, prio) && MarksBut(q, NO_PID)
    ensures MarksBut(ProdFreed(q, prio), NO_PID)
    decreases |q.prod|
  {
    if q.prod != [] {
      var p := Last(q.prod);
      LastOnce(q);
      ButLastApart(q.prod);
      NotBoth(q, p);
      NextNotRunning(q, p);
      ReadiedMarks(q, ProdFreedOne(q, prio), prio, p);
      ProdFreedOneKeeps(q, prio);
      HeldAfter(q, ProdFreedOne(q, prio), prio);
      ProdFreedMarks(ProdFreedOne(q, prio), prio);
    }
  }

  lemma ResetMarks(q: MQ, prio: nat -> int)
    requires MqOk(q, prio) && MarksOk(q)
    ensures MarksBut(Effect(q, Reset, prio), NO_PID)
  {
    var e := q.(buffer := []);
    assert All(e) == All(q);
    forall p ensures All(e)[p] <= 1 {
      assert All(q)[p] <= 1;
    }
    ConsFreedMarks(e, prio);
    ConsFreedKeeps(e, prio);
    ProdFreedMarks(ConsFreed(e, prio), prio);
  }

  lemma EffectMarks(q: MQ, c: Call, prio: nat -> int)
    requires MqOk(q, prio) && MarksOk(q)
    ensures MarksBut(Effect(q, c, prio), LeftMarked(q, c))
  {
    match c
    case Send(m) => SendMarks(q, m, prio);
    case Receive => ReceiveMarks(q, prio);
    case Reset => ResetMarks(q, prio);
    case Tick(_) =>
  }

  /** The scheduler sets and clears no such mark but that of the process that it gives the processor to. */
  ghost predicate SameMarks(c: Cpu, c': Cpu) {
    (forall p: nat :: p != c'.pid ==> (IsMarked(c', p) <==> IsMarked(c, p))) && !IsMarked(c', c'.pid)
  }

  lemma ScheduledMarks(c: Cpu, prio: nat -> int)
    requires Ok(c, prio) && c.started && c.pid >= 0 && (c.ready != [] || Runs(c))
    ensures SameMarks(c, Scheduled(c, prio)) && Runs(Scheduled(c, prio))
  {
    AwokenOk(c, prio);
    AwokenGrows(c, prio);
    SomebodyRuns(c, prio);
  }

  lemma StillRunnable(c: Cpu, c': Cpu, p: nat)
    requires Everyone(c) == Everyone(c') && NobodyTwice(c) && (p in c'.ready || p in c'.asleep)
    ensures p in c.ready || p in c.asleep || (p == c.pid && Running(c) == multiset{p})
    ensures Runs(c') ==> p != c'.pid
  {
    assert Everyone(c')[p] == Everyone(c)[p] <= 1;
  }

  /** Nobody's mark is left behind, unless it is that of a process that has not got the processor. */
  lemma MarksAfter(r: MQ, c': Cpu, left: int)
    requires MarksBut(r, left) && Everyone(r.cpu) == Everyone(c') && NobodyTwice(r.cpu) && SameMarks(r.cpu, c') && Runs(c')
    requires c'.pid !in r.cons && c'.pid !in r.prod && (left == NO_PID || c'.pid == left)
    ensures MarksOk(r.(cpu := c'))
  {
    forall p | p in c'.ready || p in c'.asleep ensures !IsMarked(c', p) {
      StillRunnable(r.cpu, c', p);
    }
  }

  lemma MarkLeft(r: MQ, c': Cpu, left: nat)
    requires MarksBut(r, left) && Everyone(r.cpu) == Everyone(c') && NobodyTwice(r.cpu) && SameMarks(r.cpu, c') && Runs(c')
    requires left in r.cpu.ready && c'.pid != left
    ensures !MarksOk(r.(cpu := c'))
  {
    assert Everyone(r.cpu)[left] > 0;
    assert Everyone(c')[left] > 0;
    assert left in c'.ready || left in c'.asleep;
    assert IsMarked(c', left);
  }

  /** What the scheduler makes of the marks. */
  lemma RescheduledMarks(q: MQ, r: MQ, prio: nat -> int, left: int)
    requires MqOk(q, prio) && Keeps(q, r, prio) && MarksBut(r, left) && (Runs(r.cpu) || r.cpu.ready != [])
    requires forall p :: All(Rescheduled(r, prio))[p] <= 1
    requires left != NO_PID ==> left >= 0 && left in r.cpu.ready
    ensures MarksOk(Rescheduled(r, prio)) <==> left == NO_PID || Rescheduled(r, prio).cpu.pid == left
  {
    OnceEach(q, r);
    NobodyLost(r.cpu, prio);
    ScheduledMarks(r.cpu, prio);
    PidNotIn(Rescheduled(r, prio));
    if left == NO_PID || Scheduled(r.cpu, prio).pid == left {
      MarksAfter(r, Scheduled(r.cpu, prio), left);
    } else {
      MarkLeft(r, Scheduled(r.cpu, prio), left);
    }
  }

  lemma LeftReady(q: MQ, c: Call, prio: nat -> int)
    requires q.cpu.pid >= 0 && LeftMarked(q, c) != NO_PID
    ensures LeftMarked(q, c) in Effect(q, c, prio).cpu.ready && Schedules(q, c)
  {
    InsertedMembers<nat>(q.cpu.ready, prio, Last(q.prod));
  }

  /**
   After every call exactly those who are blocked on the queue are marked as blocked, unless preceive takes
   the message out of the hands of a producer, as it does on a queue of size 0, and the producer does not
   get the processor at once.
   */
  lemma MarksOkIff(q: MQ, c: Call, prio: nat -> int)
    requires MqOk(q, prio) && MarksOk(q) && (Blocks(q, c) ==> q.cpu.ready != [])
    ensures MarksOk(Do(q, c, prio)) <==> !(c.Receive? && q.buffer == [] && q.prod != [] && Do(q, c, prio).cpu.pid != Last(q.prod))
  {
    if Schedules(q, c) {
      SchedulingMarks(q, c, prio);
    } else {
      PlainMarks(q, c, prio);
    }
  }

  lemma PlainMarks(q: MQ, c: Call, prio: nat -> int)
    requires MqOk(q, prio) && MarksOk(q) && !Schedules(q, c)
    ensures MarksOk(Do(q, c, prio)) && LeftMarked(q, c) == NO_PID
  {
    EffectKeeps(q, c, prio);
    EffectMarks(q, c, prio);
  }

  lemma SchedulingMarks(q: MQ, c: Call, prio: nat -> int)
    requires MqOk(q, prio) && MarksOk(q) && (Blocks(q, c) ==> q.cpu.ready != []) && Schedules(q, c)
    ensures MarksOk(Do(q, c, prio)) <==> LeftMarked(q, c) == NO_PID || Do(q, c, prio).cpu.pid == LeftMarked(q, c)
  {
    EffectKeeps(q, c, prio);
    EffectMarks(q, c, prio);
    DoKeeps(q, c, prio);
    if LeftMarked(q, c) != NO_PID {
      LeftReady(q, c, prio);
    }
    RescheduledMarks(q, Effect(q, c, prio), prio, LeftMarked(q, c));
  }

  lemma SameSize(q: MQ, c: Call, prio: nat -> int)
    requires MqOk(q, prio)
    ensures Do(q, c, prio).size == q.size
  {
    if c.Reset? {
      FreedSize(q.(buffer := []), prio);
    }
  }

  lemma {:induction false} FreedSize(q: MQ, prio: nat -> int)
    ensures ConsFreed(q, prio).size == q.size && ProdFreed(q, prio).size == q.size
    ensures ProdFreed(ConsFreed(q, prio), prio).size == q.size
    decreases |q.cons| + |q.prod|
  {
    if q.cons != [] {
      FreedSize(ConsFreedOne(q, prio), prio);
    }
    if q.prod != [] {
      FreedSize(ProdFreedOne(q, prio), prio);
    }
  }

  /** On a queue with room for a message the marks are right over every run of calls. */
  lemma {:induction false} AlwaysMarked(q: MQ, cs: seq<Call>, prio: nat -> int)
    requires MqOk(q, prio) && MarksOk(q) && CanRun(q, cs, prio) && q.size > 0
    ensures MarksOk(Run(q, cs, prio))
    decreases |cs|
  {
    if cs != [] {
      MarksOkIff(q, cs[0], prio);
      SameSize(q, cs[0], prio);
      DoKeeps(q, cs[0], prio);
      AlwaysMarked(Do(q, cs[0], prio), cs[1..], prio);
    }
  }

  /** After every call that calls the scheduler nobody ready is more important than the running process. */
  lemma DoKeepsTop(q: MQ, c: Call, prio: nat -> int)
    requires MqOk(q, prio) && (Blocks(q, c) ==> q.cpu.ready != []) && (OnTop(q.cpu, prio) || Schedules(q, c))
    ensures OnTop(Do(q, c, prio).cpu, prio)
  {
    EffectKeeps(q, c, prio);
    if Schedules(q, c) {
      TopRuns(Effect(q, c, prio).cpu, prio);
    }
  }

  // ----- what chprio makes of it -----

  function Without(s: seq<nat>, p: nat): seq<nat> {
    if s == [] then [] else if s[0] == p then s[1..] else [s[0]] + Without(s[1..], p)
  }

  /**
   chprio, with the priority that it has, of a process that has last blocked in psend. If it is marked it
   leaves the list that it is in for that of the blocked producers.
   */
  ghost function Reprioritised(q: MQ, p: nat, prio: nat -> int): MQ {
    if !IsMarked(q.cpu, p) then q
    else q.(cpu := q.cpu.(ready := Without(q.cpu.ready, p)), prod := Inserted<nat>(Without(q.prod, p), prio, p))
  }

  /** p is blocked with its message on a queue of size 0, and r, which is more important, runs alone. */
  ghost predicate Rendezvous(q: MQ, p: nat, r: nat, prio: nat -> int) {
    && MqOk(q, prio) && MarksOk(q) && q.size == 0 && q.prod == [p] && q.cpu.pid == r && prio(p) < prio(r)
    && q.cpu.ready == [] && q.cpu.asleep == []
  }

  /** r receives the message, calls chprio on p, and receives the same message again. */
  lemma DeliveredTwice(q: MQ, p: nat, r: nat, prio: nat -> int)
    requires Rendezvous(q, p, r, prio)
    ensures var q2 := Reprioritised(Do(q, Receive, prio), p, prio);
      && q2.cpu.pid == r && q2.prod == [p] && q2.cpu.ready == []
      && Delivers(q, Receive) == Delivers(q2, Receive) == [BoxOf(q.boxes, p).value]
  {
    var q1 := TakenOver(q, prio);
    assert q.buffer == [] && p in q.prod;
    assert q1.cpu.ready == [p] && q1.prod == [];
    assert Scheduled(q1.cpu, prio) == q1.cpu.(dead := []);
    assert Without([p], p) == [];
  }
}
