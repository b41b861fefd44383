/**
 A bounded message queue (src/kernel/sync/msgqueue.c:50-203): what its calls do, and what every run
 of them keeps.
 */
module MsgQueues {
  import opened QueueSpec
  import opened Scheduler
  import opened SchedulerRuns

  datatype Status = RECEIVED | ERROR | SENT

  /** The field `message` of a process. */
  datatype Box = Box(value: int, status: Status)

  /** The processor, a queue, and the message fields of all processes. */
  datatype MQ = MQ(cpu: Cpu, size: nat, buffer: seq<int>, cons: seq<nat>, prod: seq<nat>, boxes: map<nat, Box>)

  function BoxOf(boxes: map<nat, Box>, p: nat): Box {
    if p in boxes then boxes[p] else Box(0, RECEIVED)
  }

  // ----- the calls -----

  /** Process p, taken off a blocked list, becomes ready. */
  function Readied(c: Cpu, prio: nat -> int, p: nat): Cpu {
    c.(ready := Inserted<nat>(c.ready, prio, p))
  }

  function MarkedReady(c: Cpu, p: nat): Cpu {
    c.(mode := c.mode[p := ACTIVATABLE])
  }

  function MarkedBlocked(c: Cpu): Cpu
    requires c.pid >= 0
  {
    c.(mode := c.mode[c.pid := BLOCKEDQUEUE])
  }

  /** psend hands the message to the first blocked consumer. */
  function HandedOver(q: MQ, prio: nat -> int, m: int): MQ
    requires q.cons != []
  {
    var p := Last(q.cons);
    q.(cpu := Readied(MarkedReady(q.cpu, p), prio, p), cons := ButLast(q.cons), boxes := q.boxes[p := Box(m, RECEIVED)])
  }

  /** psend blocks with its message. */
  function SenderBlocked(q: MQ, prio: nat -> int, m: int): MQ
    requires q.cpu.pid >= 0
  {
    var p: nat := q.cpu.pid;
    q.(cpu := MarkedBlocked(q.cpu), prod := Inserted<nat>(q.prod, prio, p), boxes := q.boxes[p := Box(m, BoxOf(q.boxes, p).status)])
  }

  /** preceive takes the message of the first blocked producer out of its hands. */
  function TakenOver(q: MQ, prio: nat -> int): MQ
    requires q.prod != []
  {
    var p := Last(q.prod);
    q.(cpu := Readied(q.cpu, prio, p), prod := ButLast(q.prod), boxes := q.boxes[p := Box(BoxOf(q.boxes, p).value, SENT)])
  }

  /** preceive blocks. */
  function ReceiverBlocked(q: MQ, prio: nat -> int): MQ
    requires q.cpu.pid >= 0
  {
    var p: nat := q.cpu.pid;
    q.(cpu := MarkedBlocked(q.cpu), cons := Inserted<nat>(q.cons, prio, p))
  }

  /** preceive takes the oldest message; the first blocked producer's message follows into the buffer. */
  function Refilled(q: MQ, prio: nat -> int): MQ
    requires q.prod != [] && q.buffer != []
  {
    var p := Last(q.prod);
    q.(cpu := Readied(MarkedReady(q.cpu, p), prio, p), prod := ButLast(q.prod),
       buffer := q.buffer[1..] + [BoxOf(q.boxes, p).value], boxes := q.boxes[p := Box(BoxOf(q.boxes, p).value, SENT)])
  }

  /** free_blocked_queue, one process. */
  function FreedOne(cpu: Cpu, prio: nat -> int, p: nat): Cpu {
    Readied(MarkedReady(cpu, p), prio, p)
  }

  /** free_blocked_queue on the consumers, one round. */
  function ConsFreedOne(q: MQ, prio: nat -> int): MQ
    requires q.cons != []
  {
    var p := Last(q.cons);
    q.(cpu := FreedOne(q.cpu, prio, p), cons := ButLast(q.cons), boxes := q.boxes[p := Box(BoxOf(q.boxes, p).value, ERROR)])
  }

  /** ... and on the producers. */
  function ProdFreedOne(q: MQ, prio: nat -> int): MQ
    requires q.prod != []
  {
    var p := Last(q.prod);
    q.(cpu := FreedOne(q.cpu, prio, p), prod := ButLast(q.prod), boxes := q.boxes[p := Box(BoxOf(q.boxes, p).value, ERROR)])
  }

  function ConsFreed(q: MQ, prio: nat -> int): MQ
    decreases |q.cons|
  {
    if q.cons == [] then q else ConsFreed(ConsFreedOne(q, prio), prio)
  }

  function ProdFreed(q: MQ, prio: nat -> int): MQ
    decreases |q.prod|
  {
    if q.prod == [] then q else ProdFreed(ProdFreedOne(q, prio), prio)
  }

  datatype Call = Send(m: int) | Receive | Reset | Tick(ticks: nat)

  /** Does the call end with the scheduler? */
  function Schedules(q: MQ, c: Call): bool {
    match c
    case Send(_) => (q.buffer == [] && q.cons != []) || |q.buffer| == q.size
    case Receive => q.buffer == [] || (|q.buffer| == q.size && q.prod != [])
    case _ => true
  }

  function Effect(q: MQ, c: Call, prio: nat -> int): MQ
    requires q.cpu.pid >= 0
  {
    match c
    case Send(m) =>
      if q.buffer == [] && q.cons != [] then HandedOver(q, prio, m)
      else if |q.buffer| == q.size then SenderBlocked(q, prio, m)
      else q.(buffer := q.buffer + [m])
    case Receive =>
      if q.buffer == [] && q.prod != [] then TakenOver(q, prio)
      else if q.buffer == [] then ReceiverBlocked(q, prio)
      else if |q.buffer| == q.size && q.prod != [] then Refilled(q, prio)
      else q.(buffer := q.buffer[1..])
    case Reset => ProdFreed(ConsFreed(q.(buffer := []), prio), prio)
    case Tick(ticks) => q.(cpu := q.cpu.(clock := q.cpu.clock + ticks))
  }

  function Do(q: MQ, c: Call, prio: nat -> int): MQ
    requires q.cpu.pid >= 0
  {
    if Schedules(q, c) then Rescheduled(Effect(q, c, prio), prio) else Effect(q, c, prio)
  }

  function Rescheduled(q: MQ, prio: nat -> int): MQ {
    q.(cpu := Scheduled(q.cpu, prio))
  }

  // ----- the invariant -----

  /** Blocked consumers face an empty buffer and no producers; blocked producers a full buffer. */
  ghost predicate Balanced(q: MQ) {
    && |q.buffer| <= q.size
    && (q.cons != [] ==> q.buffer == [] && q.prod == [])
    && (q.prod != [] ==> |q.buffer| == q.size)
  }

  /** Everybody: ready, asleep, running, or blocked on the queue. */
  ghost function All(q: MQ): multiset<nat> {
    Everyone(q.cpu) + multiset(q.cons) + multiset(q.prod)
  }

  ghost predicate Exist(q: MQ) {
    forall p :: p in q.cons || p in q.prod ==> p in q.cpu.mode
  }

  ghost predicate Held(q: MQ, prio: nat -> int) {
    && Ok(q.cpu, prio) && Runs(q.cpu) && Exist(q)
    && Sorted<nat>(q.cons, prio) && Sorted<nat>(q.prod, prio)
    && forall p :: All(q)[p] <= 1
  }

  ghost predicate MqOk(q: MQ, prio: nat -> int) {
    Held(q, prio) && Balanced(q)
  }

  /** Will the running process block? */
  predicate Blocks(q: MQ, c: Call) {
    || (c.Send? && |q.buffer| == q.size && !(q.buffer == [] && q.cons != []))
    || (c.Receive? && q.buffer == [] && q.prod == [])
  }

  // ----- every call keeps the invariant and loses nobody -----

  lemma ReadiedOk(c: Cpu, prio: nat -> int, p: nat)
    requires Ok(c, prio) && p in c.mode
    ensures Ok(Readied(c, prio, p), prio) && Everyone(Readied(c, prio, p)) == Everyone(c) + multiset{p}
  {
    InsertedSorted<nat>(c.ready, prio, p);
    InsertedMembers<nat>(c.ready, prio, p);
  }

  lemma MarkedReadyOk(c: Cpu, prio: nat -> int, p: nat)
    requires Ok(c, prio) && p != c.pid
    ensures Ok(MarkedReady(c, p), prio) && Everyone(MarkedReady(c, p)) == Everyone(c)
  {
  }

  lemma MarkedBlockedOk(c: Cpu, prio: nat -> int)
    requires Ok(c, prio) && Runs(c)
    ensures Ok(MarkedBlocked(c), prio) && Everyone(c) == Everyone(MarkedBlocked(c)) + multiset{c.pid as nat}
  {
  }

  /** A process blocked on the queue is not the running one. */
  lemma NotRunning(q: MQ, p: nat)
    requires Runs(q.cpu) && All(q)[p] <= 1 && (p in q.cons || p in q.prod)
    ensures p != q.cpu.pid
  {
  }

  /** What a call does to the processes and to the lists, before the scheduler is called. */
  ghost predicate Keeps(q: MQ, q': MQ, prio: nat -> int) {
    && Ok(q'.cpu, prio) && Exist(q') && Sorted<nat>(q'.cons, prio) && Sorted<nat>(q'.prod, prio)
    && All(q') == All(q) && q'.cpu.started && q'.cpu.pid == q.cpu.pid
  }

  lemma HandedOverKeeps(q: MQ, prio: nat -> int, m: int)
    requires Held(q, prio) && q.cons != []
    ensures Keeps(q, HandedOver(q, prio, m), prio)
  {
    var p := Last(q.cons);
    SplitLast(q.cons);
    assert All(q)[p] <= 1;
    NotRunning(q, p);
    MarkedReadyOk(q.cpu, prio, p);
    ReadiedOk(MarkedReady(q.cpu, p), prio, p);
    ButLastSorted(q.cons, prio);
  }

  lemma SenderBlockedKeeps(q: MQ, prio: nat -> int, m: int)
    requires Held(q, prio)
    ensures Keeps(q, SenderBlocked(q, prio, m), prio)
  {
    MarkedBlockedOk(q.cpu, prio);
    InsertedSorted<nat>(q.prod, prio, q.cpu.pid);
    InsertedMembers<nat>(q.prod, prio, q.cpu.pid);
  }

  lemma TakenOverKeeps(q: MQ, prio: nat -> int)
    requires Held(q, prio) && q.prod != []
    ensures Keeps(q, TakenOver(q, prio), prio)
  {
    SplitLast(q.prod);
    ReadiedOk(q.cpu, prio, Last(q.prod));
    ButLastSorted(q.prod, prio);
  }

  lemma ReceiverBlockedKeeps(q: MQ, prio: nat -> int)
    requires Held(q, prio)
    ensures Keeps(q, ReceiverBlocked(q, prio), prio)
  {
    MarkedBlockedOk(q.cpu, prio);
    InsertedSorted<nat>(q.cons, prio, q.cpu.pid);
    InsertedMembers<nat>(q.cons, prio, q.cpu.pid);
  }

  lemma RefilledKeeps(q: MQ, prio: nat -> int)
    requires Held(q, prio) && q.prod != [] && q.buffer != []
    ensures Keeps(q, Refilled(q, prio), prio)
  {
    var p := Last(q.prod);
    SplitLast(q.prod);
    assert All(q)[p] <= 1;
    NotRunning(q, p);
    MarkedReadyOk(q.cpu, prio, p);
    ReadiedOk(MarkedReady(q.cpu, p), prio, p);
    ButLastSorted(q.prod, prio);
  }

  lemma ConsFreedOneKeeps(q: MQ, prio: nat -> int)
    requires Held(q, prio) && q.cons != []
    ensures Keeps(q, ConsFreedOne(q, prio), prio) && Runs(ConsFreedOne(q, prio).cpu)
  {
    var p := Last(q.cons);
    SplitLast(q.cons);
    assert All(q)[p] <= 1;
    NotRunning(q, p);
    MarkedReadyOk(q.cpu, prio, p);
    ReadiedOk(MarkedReady(q.cpu, p), prio, p);
    ButLastSorted(q.cons, prio);
  }

  lemma ProdFreedOneKeeps(q: MQ, prio: nat -> int)
    requires Held(q, prio) && q.prod != []
    ensures Keeps(q, ProdFreedOne(q, prio), prio) && Runs(ProdFreedOne(q, prio).cpu)
  {
    var p := Last(q.prod);
    SplitLast(q.prod);
    assert All(q)[p] <= 1;
    NotRunning(q, p);
    MarkedReadyOk(q.cpu, prio, p);
    ReadiedOk(MarkedReady(q.cpu, p), prio, p);
    ButLastSorted(q.prod, prio);
  }

  lemma HeldAfter(q: MQ, q': MQ, prio: nat -> int)
    requires Held(q, prio) && Keeps(q, q', prio) && Runs(q'.cpu)
    ensures Held(q', prio)
  {
    forall p ensures All(q')[p] <= 1 {
      assert All(q)[p] <= 1;
    }
  }

  lemma {:induction false} ConsFreedKeeps(q: MQ, prio: nat -> int)
    requires Held(q, prio)
    ensures Held(ConsFreed(q, prio), prio) && All(ConsFreed(q, prio)) == All(q)
    ensures var q' := ConsFreed(q, prio); q'.cons == [] && q'.prod == q.prod && q'.buffer == q.buffer && q'.size == q.size
    decreases |q.cons|
  {
    if q.cons != [] {
      ConsFreedOneKeeps(q, prio);
      HeldAfter(q, ConsFreedOne(q, prio), prio);
      ConsFreedKeeps(ConsFreedOne(q, prio), prio);
    }
  }

  lemma {:induction false} ProdFreedKeeps(q: MQ, prio: nat -> int)
    requires Held(q, prio)
    ensures Held(ProdFreed(q, prio), prio) && All(ProdFreed(q, prio)) == All(q)
    ensures var q' := ProdFreed(q, prio); q'.prod == [] && q'.cons == q.cons && q'.buffer == q.buffer && q'.size == q.size
    decreases |q.prod|
  {
    if q.prod != [] {
      ProdFreedOneKeeps(q, prio);
      HeldAfter(q, ProdFreedOne(q, prio), prio);
      ProdFreedKeeps(ProdFreedOne(q, prio), prio);
    }
  }

  lemma SendKeeps(q: MQ, m: int, prio: nat -> int)
    requires MqOk(q, prio)
    ensures Keeps(q, Effect(q, Send(m), prio), prio) && Balanced(Effect(q, Send(m), prio))
    ensures !Blocks(q, Send(m)) ==> Runs(Effect(q, Send(m), prio).cpu)
  {
    if q.buffer == [] && q.cons != [] {
      HandedOverKeeps(q, prio, m);
      NextNotRunning(q, Last(q.cons));
    } else if |q.buffer| == q.size {
      SenderBlockedKeeps(q, prio, m);
    }
  }

  lemma ReceiveKeeps(q: MQ, prio: nat -> int)
    requires MqOk(q, prio)
    ensures Keeps(q, Effect(q, Receive, prio), prio) && Balanced(Effect(q, Receive, prio))
    ensures !Blocks(q, Receive) ==> Runs(Effect(q, Receive, prio).cpu)
  {
    if q.buffer == [] && q.prod != [] {
      TakenOverKeeps(q, prio);
    } else if q.buffer == [] {
      ReceiverBlockedKeeps(q, prio);
    } else if |q.buffer| == q.size && q.prod != [] {
      RefilledKeeps(q, prio);
      NextNotRunning(q, Last(q.prod));
    }
  }

  lemma NextNotRunning(q: MQ, p: nat)
    requires Runs(q.cpu) && (forall x :: All(q)[x] <= 1) && (p in q.cons || p in q.prod)
    ensures p != q.cpu.pid
  {
    assert All(q)[p] <= 1;
  }

  lemma ResetKeeps(q: MQ, prio: nat -> int)
    requires MqOk(q, prio)
    ensures Keeps(q, Effect(q, Reset, prio), prio) && Balanced(Effect(q, Reset, prio)) && Runs(Effect(q, Reset, prio).cpu)
    ensures var r := Effect(q, Reset, prio); r.buffer == [] && r.cons == [] && r.prod == []
  {
    var e := q.(buffer := []);
    assert All(e) == All(q);
    ConsFreedKeeps(e, prio);
    ProdFreedKeeps(ConsFreed(e, prio), prio);
    FreedSamePid(e, prio);
  }

  lemma {:induction false} FreedSamePid(q: MQ, prio: nat -> int)
    ensures ConsFreed(q, prio).cpu.pid == q.cpu.pid && ProdFreed(q, prio).cpu.pid == q.cpu.pid
    ensures ProdFreed(ConsFreed(q, prio), prio).cpu.pid == q.cpu.pid
    decreases |q.cons| + |q.prod|
  {
    if q.cons != [] {
      FreedSamePid(ConsFreedOne(q, prio), prio);
    }
    if q.prod != [] {
      FreedSamePid(ProdFreedOne(q, prio), prio);
    }
  }

  lemma EffectKeeps(q: MQ, c: Call, prio: nat -> int)
    requires MqOk(q, prio)
    ensures Keeps(q, Effect(q, c, prio), prio) && Balanced(Effect(q, c, prio))
    ensures !Blocks(q, c) ==> Runs(Effect(q, c, prio).cpu)
  {
    match c
    case Send(m) => SendKeeps(q, m, prio);
    case Receive => ReceiveKeeps(q, prio);
    case Reset => ResetKeeps(q, prio);
    case Tick(ticks) => LaterOk(q.cpu, ticks, prio);
  }

  lemma RescheduledKeeps(q: MQ, r: MQ, prio: nat -> int)
    requires Held(q, prio) && Keeps(q, r, prio) && Balanced(r) && (Runs(r.cpu) || r.cpu.ready != [])
    ensures var r' := Rescheduled(r, prio); MqOk(r', prio) && All(r') == All(q)
  {
    OnceEach(q, r);
    NobodyLost(r.cpu, prio);
    SomebodyRuns(r.cpu, prio);
    var r' := r.(cpu := Scheduled(r.cpu, prio));
    assert All(r') == All(q);
    HeldAfterSchedule(q, r, r', prio);
  }

  lemma OnceEach(q: MQ, r: MQ)
    requires (forall x :: All(q)[x] <= 1) && All(r) == All(q)
    ensures NobodyTwice(r.cpu)
  {
    forall p ensures Everyone(r.cpu)[p] <= 1 {
      assert All(q)[p] <= 1;
    }
  }

  lemma HeldAfterSchedule(q: MQ, r: MQ, r': MQ, prio: nat -> int)
    requires Held(q, prio) && Keeps(q, r, prio) && r' == r.(cpu := r'.cpu) && All(r') == All(q)
    requires Ok(r'.cpu, prio) && Runs(r'.cpu) && r.cpu.mode.Keys <= r'.cpu.mode.Keys
    ensures Held(r', prio)
  {
    forall p ensures All(r')[p] <= 1 {
      assert All(q)[p] <= 1;
    }
  }

  /** Every call keeps the invariant, and loses or duplicates no process. */
  lemma DoKeeps(q: MQ, c: Call, prio: nat -> int)
    requires MqOk(q, prio) && (Blocks(q, c) ==> q.cpu.ready != [])
    ensures MqOk(Do(q, c, prio), prio) && All(Do(q, c, prio)) == All(q)
  {
    EffectKeeps(q, c, prio);
    var r := Effect(q, c, prio);
    if Schedules(q, c) {
      RescheduledKeeps(q, r, prio);
    } else {
      HeldAfter(q, r, prio);
    }
  }

  /** The three ways of psend. */
  lemma SendCases(q: MQ, m: int, prio: nat -> int)
    requires MqOk(q, prio) && (Blocks(q, Send(m)) ==> q.cpu.ready != [])
    ensures q.cpu.pid >= 0 && MqOk(Do(q, Send(m), prio), prio) && |q.buffer| <= q.size
    ensures q.buffer == [] && q.cons != [] ==>
      Ok(HandedOver(q, prio, m).cpu, prio) && Do(q, Send(m), prio) == Rescheduled(HandedOver(q, prio, m), prio)
    ensures !(q.buffer == [] && q.cons != []) && |q.buffer| == q.size ==>
      Ok(SenderBlocked(q, prio, m).cpu, prio) && Do(q, Send(m), prio) == Rescheduled(SenderBlocked(q, prio, m), prio)
    ensures !(q.buffer == [] && q.cons != []) && |q.buffer| != q.size ==> Do(q, Send(m), prio) == q.(buffer := q.buffer + [m])
  {
    DoKeeps(q, Send(m), prio);
    SendKeeps(q, m, prio);
  }

  /** The four ways of preceive. */
  lemma ReceiveCases(q: MQ, prio: nat -> int)
    requires MqOk(q, prio) && (Blocks(q, Receive) ==> q.cpu.ready != [])
    ensures q.cpu.pid >= 0 && MqOk(Do(q, Receive, prio), prio)
    ensures q.buffer == [] && q.prod != [] ==>
      Ok(TakenOver(q, prio).cpu, prio) && Do(q, Receive, prio) == Rescheduled(TakenOver(q, prio), prio)
    ensures q.buffer == [] && q.prod == [] ==>
      Ok(ReceiverBlocked(q, prio).cpu, prio) && Do(q, Receive, prio) == Rescheduled(ReceiverBlocked(q, prio), prio)
    ensures q.buffer != [] && |q.buffer| == q.size && q.prod != [] ==>
      Ok(Refilled(q, prio).cpu, prio) && Do(q, Receive, prio) == Rescheduled(Refilled(q, prio), prio)
    ensures q.buffer != [] && !(|q.buffer| == q.size && q.prod != []) ==> Do(q, Receive, prio) == q.(buffer := q.buffer[1..])
  {
    DoKeeps(q, Receive, prio);
    ReceiveKeeps(q, prio);
  }
}
