/**
 What the scheduler guarantees (src/kernel/process/scheduler.c:109-223): the highest priority runs,
 equals take turns, sleepers wake up, and no process is lost.
 */
module SchedulerRuns {
  import opened QueueSpec
  import opened Scheduler

  // ----- sleepers -----

  ghost predicate Expired(c: Cpu, p: nat) {
    c.clock > -WakeTime(c.wakeTime, p)
  }

  ghost predicate AnyTimeIsZero(c: Cpu) {
    exists p :: p in c.asleep && WakeTime(c.wakeTime, p) == 0
  }

  /** A wake time of 0 reads as "nobody sleeps": it keeps everybody asleep, whatever the clock says. */
  lemma ZeroBlocksEveryone(c: Cpu, prio: nat -> int)
    requires Ok(c, prio) && AnyTimeIsZero(c)
    ensures Awoken(c, prio) == c
  {
    var p :| p in c.asleep && WakeTime(c.wakeTime, p) == 0;
    var i :| 0 <= i < |c.asleep| && c.asleep[i] == p;
    assert Last(c.asleep) in c.asleep;
    assert ByWakeTime(c.wakeTime)(c.asleep[i]) <= ByWakeTime(c.wakeTime)(Last(c.asleep));
  }

  lemma WokenOneMembers(c: Cpu, prio: nat -> int)
    requires c.asleep != []
    ensures var c' := WokenOne(c, prio);
      && (forall p :: p in c.asleep <==> p in c'.asleep || p == Last(c.asleep)) && c'.asleep <= c.asleep
      && multiset(c'.ready) + multiset(c'.asleep) == multiset(c.ready) + multiset(c.asleep)
  {
    InsertedMembers(c.ready, prio, Last(c.asleep));
    SplitLast(c.asleep);
    assert c.asleep == ButLast(c.asleep) + [Last(c.asleep)];
  }

  /** Without it exactly the expired sleepers wake up. */
  lemma {:induction false} ExpiredWakeUp(c: Cpu, prio: nat -> int)
    requires Ok(c, prio) && !AnyTimeIsZero(c)
    ensures var c' := Awoken(c, prio);
      && Ok(c', prio) && c'.asleep <= c.asleep
      && (forall p :: p in c'.asleep ==> !Expired(c, p))
      && (forall p :: p in c.asleep && !Expired(c, p) ==> p in c'.asleep)
      && multiset(c'.ready) + multiset(c'.asleep) == multiset(c.ready) + multiset(c.asleep)
    decreases |c.asleep|
  {
    if c.asleep != [] {
      assert Last(c.asleep) in c.asleep;
      if c.clock > NextWakeTime(c) {
        AwakenOk(c, prio);
        WokenOneMembers(c, prio);
        ExpiredWakeUp(WokenOne(c, prio), prio);
      } else {
        forall p | p in c.asleep ensures !Expired(c, p) {
          var i :| 0 <= i < |c.asleep| && c.asleep[i] == p;
          assert ByWakeTime(c.wakeTime)(c.asleep[i]) <= ByWakeTime(c.wakeTime)(Last(c.asleep));
        }
      }
    }
  }

  /** No expired sleeper stays asleep - unless the clock has moved and some wake time is 0, and then only then. */
  lemma NobodyOversleepsIff(c: Cpu, prio: nat -> int)
    requires Ok(c, prio)
    ensures (forall p :: p in Awoken(c, prio).asleep ==> !Expired(c, p)) <==> c.clock == 0 || !AnyTimeIsZero(c)
  {
    if AnyTimeIsZero(c) {
      ZeroBlocksEveryone(c, prio);
      var p :| p in c.asleep && WakeTime(c.wakeTime, p) == 0;
      assert Expired(c, p) <==> c.clock > 0;
    } else {
      ExpiredWakeUp(c, prio);
    }
  }

  // ----- priorities -----

  lemma AwokenOk(c: Cpu, prio: nat -> int)
    requires Ok(c, prio)
    ensures Ok(Awoken(c, prio), prio)
    ensures var c' := Awoken(c, prio); c' == c.(ready := c'.ready, asleep := c'.asleep)
  {
    if AnyTimeIsZero(c) {
      ZeroBlocksEveryone(c, prio);
    } else {
      AwokenFrame(c, prio);
    }
  }

  lemma {:induction false} AwokenFrame(c: Cpu, prio: nat -> int)
    requires Ok(c, prio)
    ensures Ok(Awoken(c, prio), prio)
    ensures var c' := Awoken(c, prio); c' == c.(ready := c'.ready, asleep := c'.asleep)
    decreases |c.asleep|
  {
    if NextWakeTime(c) != 0 && c.clock > NextWakeTime(c) {
      AwakenOk(c, prio);
      AwokenFrame(WokenOne(c, prio), prio);
    }
  }

  /** After every call with a ready process, the running one is at least as important as every ready one. */
  lemma HighestRuns(c: Cpu, prio: nat -> int)
    requires Ok(c, prio) && (c.pid == NO_PID || c.started) && Awoken(c, prio).ready != []
    ensures var c' := Scheduled(c, prio); c'.started && c'.pid >= 0 && forall q :: q in c'.ready ==> prio(q) <= prio(c'.pid)
  {
    AwokenOk(c, prio);
    var d := Awoken(c, prio).(dead := []);
    ButLastSorted(d.ready, prio);
    LastHighest(d.ready, prio);
    if d.pid >= 0 {
      InsertedMembers<nat>(ButLast(d.ready), prio, d.pid);
    }
  }

  lemma LastHighest(s: seq<nat>, prio: nat -> int)
    requires s != [] && Sorted(s, prio)
    ensures forall q :: q in s ==> prio(q) <= prio(Last(s))
  {
  }

  /** Somebody runs. */
  ghost predicate Runs(c: Cpu) {
    c.started && c.pid >= 0 && c.pid in c.mode && c.mode[c.pid] == ACTIF
  }

  lemma {:induction false} AwokenGrows(c: Cpu, prio: nat -> int)
    ensures |Awoken(c, prio).ready| >= |c.ready|
    decreases |c.asleep|
  {
    if NextWakeTime(c) != 0 && c.clock > NextWakeTime(c) {
      AwokenGrows(WokenOne(c, prio), prio);
    }
  }

  /** If the current process goes on, or somebody can take over, somebody runs after the call. */
  lemma SomebodyRuns(c: Cpu, prio: nat -> int)
    requires Ok(c, prio) && c.started && c.pid >= 0 && (c.ready != [] || Runs(c))
    ensures Ok(Scheduled(c, prio), prio) && Runs(Scheduled(c, prio)) && c.mode.Keys <= Scheduled(c, prio).mode.Keys
  {
    AwokenOk(c, prio);
    AwokenGrows(c, prio);
    ChosenOk(Awoken(c, prio).(dead := []), prio);
  }

  // ----- nobody is lost -----

  /** Who is ready, asleep, or running. */
  ghost function Everyone(c: Cpu): multiset<nat> {
    multiset(c.ready) + multiset(c.asleep) + Running(c)
  }

  ghost function Running(c: Cpu): multiset<nat> {
    if c.pid >= 0 && c.pid in c.mode && c.mode[c.pid] == ACTIF then multiset{c.pid} else multiset{}
  }

  ghost predicate NobodyTwice(c: Cpu) {
    forall p :: Everyone(c)[p] <= 1
  }

  lemma SplitLast(s: seq<nat>)
    requires s != []
    ensures multiset(s) == multiset(ButLast(s)) + multiset{Last(s)}
    ensures Last(s) in s && forall p :: p in ButLast(s) ==> p in s
  {
    assert s == ButLast(s) + [Last(s)];
  }

  lemma SwitchedEveryone(c: Cpu)
    requires c.ready != [] && Running(c) == multiset{}
    ensures Everyone(Switched(c)) == Everyone(c)
  {
    SplitLast(c.ready);
  }

  lemma SwappedEveryone(c: Cpu, prio: nat -> int)
    requires c.ready != [] && Running(c) != multiset{} && NobodyTwice(c)
    ensures Everyone(Swapped(c, prio)) == Everyone(c)
  {
    SplitLast(c.ready);
    InsertedMembers<nat>(ButLast(c.ready), prio, c.pid);
    assert Everyone(c)[c.pid] <= 1;
  }

  lemma {:induction false} AwokenEveryone(c: Cpu, prio: nat -> int)
    ensures Everyone(Awoken(c, prio)) == Everyone(c)
    decreases |c.asleep|
  {
    if NextWakeTime(c) != 0 && c.clock > NextWakeTime(c) {
      InsertedMembers(c.ready, prio, Last(c.asleep));
      SplitLast(c.asleep);
      AwokenEveryone(WokenOne(c, prio), prio);
    }
  }

  /** A scheduler call neither loses nor duplicates a process that can run. */
  lemma NobodyLost(c: Cpu, prio: nat -> int)
    requires Ok(c, prio) && NobodyTwice(c) && (c.pid == NO_PID || c.started)
    ensures Everyone(Scheduled(c, prio)) == Everyone(c)
  {
    AwokenOk(c, prio);
    AwokenEveryone(c, prio);
    var d := Awoken(c, prio).(dead := []);
    assert Everyone(d) == Everyone(Awoken(c, prio));
    assert forall p :: Everyone(d)[p] == Everyone(c)[p];
    ChosenEveryone(d, prio);
  }

  lemma ChosenEveryone(d: Cpu, prio: nat -> int)
    requires Ok(d, prio) && NobodyTwice(d) && (d.pid == NO_PID || d.started)
    ensures Everyone(Chosen(d, prio)) == Everyone(d)
  {
    if d.ready == [] {
    } else if d.pid < 0 {
      SwitchedEveryone(d);
    } else if d.mode[d.pid] == ACTIF {
      SwappedEveryone(d, prio);
    } else if d.mode[d.pid] == KILLED {
      SwitchedEveryone(d.(dead := Inserted<nat>(d.dead, prio, d.pid)));
    } else {
      SwitchedEveryone(d);
    }
  }

  // ----- taking turns -----

  /** What happens on the processor between two points of a run. */
  datatype Event =
    | Tick(ticks: nat)     // time goes by, then the scheduler is called
    | Arrive(p: nat)       // a process becomes ready
    | Leave(m: Mode)       // the running process blocks, sleeps or dies

  ghost function Step(c: Cpu, e: Event, prio: nat -> int): Cpu
    requires c.pid >= 0
  {
    match e
    case Tick(ticks) => Scheduled(c.(clock := c.clock + ticks), prio)
    case Arrive(p) => c.(ready := Inserted(c.ready, prio, p), mode := c.mode[p := ACTIVATABLE])
    case Leave(m) => c.(mode := c.mode[c.pid := m])
  }

  /** Nobody who runs, is ready, asleep, or arrives by the event is more important than p. */
  ghost predicate Topmost(c: Cpu, e: Event, p: nat, prio: nat -> int) {
    && NoneAbove(c, p, prio)
    && (e.Arrive? ==> prio(e.p) <= prio(p))
    && (c.pid >= 0 ==> prio(c.pid) <= prio(p))
  }

  /** Process p is ready, with `ahead` processes in front of it. */
  ghost predicate Waits(c: Cpu, p: nat, ahead: nat) {
    ahead < |c.ready| && c.ready[|c.ready| - 1 - ahead] == p
  }

  /** An arrival that is not more important goes behind p. */
  lemma ArrivesBehind(s: seq<nat>, prio: nat -> int, p: nat, i: nat, x: nat)
    requires i < |s| && s[i] == p && prio(x) <= prio(p)
    ensures var u := Inserted(s, prio, x); i + 1 < |u| && u[i + 1] == p && |u| - 1 - (i + 1) == |s| - 1 - i
  {
    assert Slot(s, prio, prio(x)) <= i;
  }

  ghost predicate NoneAbove(c: Cpu, p: nat, prio: nat -> int) {
    forall q :: q in c.ready || q in c.asleep ==> prio(q) <= prio(p)
  }

  lemma WokenOneWaits(c: Cpu, prio: nat -> int, p: nat, ahead: nat)
    requires c.asleep != [] && Waits(c, p, ahead) && NoneAbove(c, p, prio)
    ensures Waits(WokenOne(c, prio), p, ahead) && NoneAbove(WokenOne(c, prio), p, prio)
  {
    var x := Last(c.asleep);
    SplitLast(c.asleep);
    ArrivesBehind(c.ready, prio, p, |c.ready| - 1 - ahead, x);
    InsertedMembers(c.ready, prio, x);
  }

  lemma {:induction false} AwokenWaits(c: Cpu, prio: nat -> int, p: nat, ahead: nat)
    requires Waits(c, p, ahead) && NoneAbove(c, p, prio)
    ensures Waits(Awoken(c, prio), p, ahead) && NoneAbove(Awoken(c, prio), p, prio)
    decreases |c.asleep|
  {
    if NextWakeTime(c) != 0 && c.clock > NextWakeTime(c) {
      WokenOneWaits(c, prio, p, ahead);
      AwokenWaits(WokenOne(c, prio), prio, p, ahead);
    }
  }

  /** One call brings p one place forward, or onto the processor. */
  lemma TickAdvances(c: Cpu, prio: nat -> int, p: nat, ahead: nat)
    requires Ok(c, prio) && c.started && Waits(c, p, ahead) && Topmost(c, Tick(0), p, prio)
    ensures Ok(Scheduled(c, prio), prio) && Advanced(Scheduled(c, prio), prio, p, ahead)
  {
    var d := BeforeChoice(c, prio, p, ahead);
    ChosenOk(d, prio);
    NextIsUp(d, prio, p, ahead);
  }

  lemma BeforeChoice(c: Cpu, prio: nat -> int, p: nat, ahead: nat) returns (d: Cpu)
    requires Ok(c, prio) && c.started && Waits(c, p, ahead) && Topmost(c, Tick(0), p, prio)
    ensures Scheduled(c, prio) == Chosen(d, prio) && Ok(d, prio)
    ensures d.started && Waits(d, p, ahead) && Topmost(d, Tick(0), p, prio) && prio(Last(d.ready)) == prio(p)
  {
    AwokenOk(c, prio);
    AwokenWaits(c, prio, p, ahead);
    d := Awoken(c, prio).(dead := []);
    Buried(c, Awoken(c, prio), prio, p, ahead);
  }

  lemma Buried(c: Cpu, c': Cpu, prio: nat -> int, p: nat, ahead: nat)
    requires Topmost(c, Tick(0), p, prio) && c.started && c' == c.(ready := c'.ready, asleep := c'.asleep)
    requires Ok(c', prio) && Waits(c', p, ahead) && NoneAbove(c', p, prio)
    ensures var d := c'.(dead := []);
      Ok(d, prio) && d.started && Waits(d, p, ahead) && Topmost(d, Tick(0), p, prio) && prio(Last(d.ready)) == prio(p)
  {
    AtTheTop(c', p, prio, ahead);
  }

  lemma AtTheTop(d: Cpu, p: nat, prio: nat -> int, ahead: nat)
    requires Sorted(d.ready, prio) && Waits(d, p, ahead) && NoneAbove(d, p, prio)
    ensures d.ready != [] && prio(Last(d.ready)) == prio(p)
  {
    LastHighest(d.ready, prio);
    assert p in d.ready;
    SplitLast(d.ready);
  }

  lemma NextIsUp(d: Cpu, prio: nat -> int, p: nat, ahead: nat)
    requires Ok(d, prio) && d.started && Waits(d, p, ahead) && Topmost(d, Tick(0), p, prio)
    requires prio(Last(d.ready)) == prio(p)
    ensures Advanced(Chosen(d, prio), prio, p, ahead)
  {
    SplitLast(d.ready);
    if d.pid < 0 {
      SwitchedAdvances(d, prio, p, ahead);
    } else if d.mode[d.pid] == ACTIF {
      SwappedAdvances(d, prio, p, ahead);
    } else if d.mode[d.pid] == KILLED {
      SwitchedAdvances(d.(dead := Inserted<nat>(d.dead, prio, d.pid)), prio, p, ahead);
    } else {
      SwitchedAdvances(d, prio, p, ahead);
    }
  }

  ghost predicate Advanced(c: Cpu, prio: nat -> int, p: nat, ahead: nat) {
    && c.started && Topmost(c, Tick(0), p, prio)
    && if ahead == 0 then c.pid == p else Waits(c, p, ahead - 1)
  }

  lemma SwitchedAdvances(d: Cpu, prio: nat -> int, p: nat, ahead: nat)
    requires d.started && Waits(d, p, ahead) && Topmost(d, Tick(0), p, prio)
    ensures Advanced(Switched(d), prio, p, ahead)
  {
    SplitLast(d.ready);
  }

  lemma SwappedAdvances(d: Cpu, prio: nat -> int, p: nat, ahead: nat)
    requires d.started && d.pid >= 0 && Waits(d, p, ahead) && Topmost(d, Tick(0), p, prio)
    ensures Advanced(Swapped(d, prio), prio, p, ahead)
  {
    SplitLast(d.ready);
    var rest := ButLast(d.ready);
    InsertedMembers<nat>(rest, prio, d.pid);
    if ahead > 0 {
      ArrivesBehind(rest, prio, p, |d.ready| - 1 - ahead, d.pid);
    }
  }

  function Ticks(es: seq<Event>): nat {
    if es == [] then 0 else (if es[0].Tick? then 1 else 0) + Ticks(es[1..])
  }

  /** Somewhere in the run p is the running process. */
  ghost predicate RunsWithin(c: Cpu, es: seq<Event>, p: nat, prio: nat -> int)
    requires c.pid >= 0
    decreases |es|
  {
    c.pid == p || (es != [] && var c' := Step(c, es[0], prio); c'.pid >= 0 && RunsWithin(c', es[1..], p, prio))
  }

  ghost predicate Nearer(c: Cpu, e: Event, p: nat, ahead: nat, prio: nat -> int) {
    Ok(c, prio) && if e.Tick? then Advanced(c, prio, p, ahead) else Waits(c, p, ahead) && Topmost(c, Tick(0), p, prio)
  }

  lemma ArrivalWaits(c: Cpu, x: nat, p: nat, ahead: nat, prio: nat -> int, c': Cpu)
    requires Ok(c, prio) && c.started && Waits(c, p, ahead) && Topmost(c, Arrive(x), p, prio)
    requires c' == c.(ready := Inserted(c.ready, prio, x), mode := c.mode[x := ACTIVATABLE])
    ensures Nearer(c', Arrive(x), p, ahead, prio)
  {
    InsertedSorted(c.ready, prio, x);
    InsertedMembers(c.ready, prio, x);
    ArrivesBehind(c.ready, prio, p, |c.ready| - 1 - ahead, x);
  }

  lemma LaterOk(c: Cpu, ticks: nat, prio: nat -> int)
    requires Ok(c, prio)
    ensures Ok(c.(clock := c.clock + ticks), prio)
  {
  }

  lemma TickWaits(c: Cpu, ticks: nat, p: nat, ahead: nat, prio: nat -> int, c': Cpu)
    requires Ok(c, prio) && c.started && Waits(c, p, ahead) && Topmost(c, Tick(0), p, prio)
    requires c' == Scheduled(c.(clock := c.clock + ticks), prio)
    ensures Nearer(c', Tick(ticks), p, ahead, prio)
  {
    LaterOk(c, ticks, prio);
    TickAdvances(c.(clock := c.clock + ticks), prio, p, ahead);
  }

  lemma LeavingWaits(c: Cpu, m: Mode, p: nat, ahead: nat, prio: nat -> int)
    requires Ok(c, prio) && c.started && Waits(c, p, ahead) && Topmost(c, Tick(0), p, prio)
    requires c.pid >= 0
    ensures Nearer(c.(mode := c.mode[c.pid := m]), Leave(m), p, ahead, prio)
  {
  }

  lemma StepTick(c: Cpu, ticks: nat, prio: nat -> int)
    requires c.pid >= 0
    ensures Step(c, Tick(ticks), prio) == Scheduled(c.(clock := c.clock + ticks), prio)
  {
  }

  /** Every event keeps p's place in the queue, and every call of the scheduler moves it up by one. */
  lemma StepWaits(c: Cpu, e: Event, p: nat, ahead: nat, prio: nat -> int)
    requires Ok(c, prio) && c.started && c.pid >= 0 && Waits(c, p, ahead) && Topmost(c, Tick(0), p, prio)
    requires e.Arrive? ==> prio(e.p) <= prio(p)
    ensures Nearer(Step(c, e, prio), e, p, ahead, prio)
  {
    match e {
      case Tick(ticks) =>
        StepTick(c, ticks, prio);
        TickWaits(c, ticks, p, ahead, prio, Step(c, e, prio));
      case Arrive(x) => ArrivalWaits(c, x, p, ahead, prio, Step(c, e, prio));
      case Leave(m) => LeavingWaits(c, m, p, ahead, prio);
    }
  }

  /**
   Round robin: a ready process with `ahead` processes in front of it, none of them or of the others
   more important, runs within ahead + 1 scheduler calls, as long as nobody more important arrives.
   */
  lemma {:induction false} TurnComes(c: Cpu, es: seq<Event>, p: nat, ahead: nat, prio: nat -> int)
    requires Ok(c, prio) && c.started && c.pid >= 0 && Waits(c, p, ahead) && Topmost(c, Tick(0), p, prio)
    requires forall i :: 0 <= i < |es| && es[i].Arrive? ==> prio(es[i].p) <= prio(p)
    requires Ticks(es) >= ahead + 1
    ensures RunsWithin(c, es, p, prio)
    decreases |es|
  {
    var e := es[0];
    StepWaits(c, e, p, ahead, prio);
    var c' := Step(c, e, prio);
    if e.Tick? && ahead == 0 {
      assert RunsWithin(c', es[1..], p, prio);
    } else {
      TurnComes(c', es[1..], p, if e.Tick? then ahead - 1 else ahead, prio);
    }
  }

  // ----- where a wake time of 0 comes from -----

  /** A call of wait_clock leaves such a sleeper exactly if there was one, or it is wait_clock(0) at time 0. */
  lemma SleptZeroIff(c: Cpu, prio: nat -> int, delay: nat)
    requires Ok(c, prio) && c.pid >= 0 && c.pid !in c.asleep
    ensures AnyTimeIsZero(Slept(c, delay)) <==> AnyTimeIsZero(c) || c.clock + delay == 0
  {
    var c' := Slept(c, delay);
    InsertedMembers<nat>(c.asleep, ByWakeTime(c'.wakeTime), c.pid);
    assert forall p :: p in c.asleep ==> WakeTime(c'.wakeTime, p) == WakeTime(c.wakeTime, p);
    assert c.pid in c'.asleep && WakeTime(c'.wakeTime, c.pid) == -((c.clock + delay) as int);
  }

  /** The scheduler neither makes one nor gets rid of it. */
  lemma ScheduledZeroIff(c: Cpu, prio: nat -> int)
    requires Ok(c, prio)
    ensures AnyTimeIsZero(Scheduled(c, prio)) <==> AnyTimeIsZero(c)
  {
    AwokenZeroIff(c, prio);
    SameSleepers(Awoken(c, prio).(dead := []), prio);
  }

  lemma ClockGoesBy(c: Cpu, prio: nat -> int)
    ensures Scheduled(c, prio).clock == c.clock
  {
    AwokenClock(c, prio);
    SameSleepers(Awoken(c, prio).(dead := []), prio);
  }

  lemma {:induction false} AwokenClock(c: Cpu, prio: nat -> int)
    ensures Awoken(c, prio).clock == c.clock
    decreases |c.asleep|
  {
    if NextWakeTime(c) != 0 && c.clock > NextWakeTime(c) {
      AwokenClock(WokenOne(c, prio), prio);
    }
  }

  lemma SameSleepers(d: Cpu, prio: nat -> int)
    ensures var c := Chosen(d, prio); c.asleep == d.asleep && c.wakeTime == d.wakeTime && c.clock == d.clock
  {
  }

  lemma AwokenZeroIff(c: Cpu, prio: nat -> int)
    requires Ok(c, prio)
    ensures AnyTimeIsZero(Awoken(c, prio)) <==> AnyTimeIsZero(c)
  {
    AwokenOk(c, prio);
    if AnyTimeIsZero(c) {
      ZeroBlocksEveryone(c, prio);
    } else {
      ExpiredWakeUp(c, prio);
      assert forall p :: p in Awoken(c, prio).asleep ==> p in c.asleep;
    }
  }

  /** Time goes by, or the running process calls wait_clock. */
  datatype Nap = Pass(ticks: nat) | Sleep(delay: nat)

  function Called(c: Cpu, e: Nap): Cpu
    requires c.pid >= 0
  {
    match e
    case Pass(ticks) => c.(clock := c.clock + ticks)
    case Sleep(delay) => Slept(c, delay)
  }

  /** Somebody runs, if only the idle process, and the clock does not overflow. */
  ghost predicate CanNap(c: Cpu, es: seq<Nap>, prio: nat -> int)
    decreases |es|
  {
    c.pid >= 0 &&
    (es == [] ||
     ((es[0].Sleep? ==> c.ready != [] && c.clock + es[0].delay < MAX_TIME)
      && CanNap(Scheduled(Called(c, es[0]), prio), es[1..], prio)))
  }

  ghost function Napped(c: Cpu, es: seq<Nap>, prio: nat -> int): Cpu
    requires CanNap(c, es, prio)
    decreases |es|
  {
    if es == [] then c else Napped(Scheduled(Called(c, es[0]), prio), es[1..], prio)
  }

  /** Is there a wait_clock(0) at time 0? */
  predicate NapsAtZero(clock: nat, es: seq<Nap>)
    decreases |es|
  {
    es != [] && ((es[0] == Sleep(0) && clock == 0) || NapsAtZero(if es[0].Pass? then clock + es[0].ticks else clock, es[1..]))
  }

  ghost predicate Awake(c: Cpu, prio: nat -> int) {
    Ok(c, prio) && Runs(c) && NobodyTwice(c)
  }

  lemma RunsAlone(c: Cpu)
    requires Runs(c) && NobodyTwice(c)
    ensures c.pid !in c.asleep
  {
    assert Everyone(c)[c.pid] <= 1;
  }

  lemma SleptOnce(c: Cpu, delay: nat)
    requires Runs(c) && NobodyTwice(c)
    ensures NobodyTwice(Slept(c, delay))
  {
    var c' := Slept(c, delay);
    InsertedMembers<nat>(c.asleep, ByWakeTime(c'.wakeTime), c.pid);
    assert Everyone(c') == Everyone(c);
  }

  lemma NapStep(c: Cpu, e: Nap, prio: nat -> int, zero: bool)
    requires ZeroIs(c, prio, zero) && (e.Sleep? ==> c.ready != [] && c.clock + e.delay < MAX_TIME)
    ensures ZeroIs(Scheduled(Called(c, e), prio), prio, zero || (e == Sleep(0) && c.clock == 0))
  {
    var d := Called(c, e);
    match e {
      case Pass(ticks) =>
        LaterOk(c, ticks, prio);
        assert Everyone(d) == Everyone(c);
      case Sleep(delay) =>
        RunsAlone(c);
        SleptOk(c, prio, delay);
        SleptZeroIff(c, prio, delay);
        SleptOnce(c, delay);
    }
    ScheduledZeroIff(d, prio);
    SomebodyRuns(d, prio);
    NobodyLost(d, prio);
  }

  /**
   Over every run of wait_clock calls: after a scheduler call at a time other than 0 some sleeper is
   past its time if and only if there has been a wait_clock(0) at time 0.
   */
  lemma {:induction false} OversleepsIff(c: Cpu, es: seq<Nap>, prio: nat -> int)
    requires Awake(c, prio) && CanNap(c, es, prio) && !AnyTimeIsZero(c)
    ensures var c' := Napped(c, es, prio);
      && Awake(c', prio) && (AnyTimeIsZero(c') <==> NapsAtZero(c.clock, es))
      && (c'.clock > 0 ==> ((exists p :: p in Awoken(c', prio).asleep && Expired(c', p)) <==> NapsAtZero(c.clock, es)))
  {
    ZeroIff(c, es, prio, false);
    NobodyOversleepsIff(Napped(c, es, prio), prio);
  }

  ghost predicate ZeroIs(c: Cpu, prio: nat -> int, zero: bool) {
    Awake(c, prio) && (AnyTimeIsZero(c) <==> zero)
  }

  lemma {:induction false} ZeroIff(c: Cpu, es: seq<Nap>, prio: nat -> int, zero: bool)
    requires ZeroIs(c, prio, zero) && CanNap(c, es, prio)
    ensures ZeroIs(Napped(c, es, prio), prio, zero || NapsAtZero(c.clock, es))
    decreases |es|
  {
    if es != [] {
      NapStep(c, es[0], prio, zero);
      ZeroIff(Scheduled(Called(c, es[0]), prio), es[1..], prio, zero || (es[0] == Sleep(0) && c.clock == 0));
      NapByNap(c, es, prio);
    }
  }

  lemma NapByNap(c: Cpu, es: seq<Nap>, prio: nat -> int)
    requires CanNap(c, es, prio) && es != []
    ensures var c' := Scheduled(Called(c, es[0]), prio);
      && Napped(c, es, prio) == Napped(c', es[1..], prio)
      && NapsAtZero(c.clock, es) == ((es[0] == Sleep(0) && c.clock == 0) || NapsAtZero(c'.clock, es[1..]))
  {
    ClockGoesBy(Called(c, es[0]), prio);
  }

  /** When the one running sleeps and the next wake time reads as 0, the next ready process takes over. */
  lemma TakesOver(d: Cpu, prio: nat -> int)
    requires NextWakeTime(d) == 0 && d.ready != [] && d.started && d.pid >= 0 && d.pid in d.mode && d.mode[d.pid] == ASLEEP
    ensures Scheduled(d, prio) == Switched(d.(dead := []))
  {
  }

  /** A sleeper that wakes up no earlier than the others goes to the front of the queue. */
  lemma Queued(c: Cpu, delay: nat)
    requires c.pid >= 0 && c.pid !in c.asleep && forall p :: p in c.asleep ==> -((c.clock + delay) as int) <= WakeTime(c.wakeTime, p)
    ensures Slept(c, delay).asleep == [c.pid as nat] + c.asleep
    ensures WakeTime(Slept(c, delay).wakeTime, c.pid) == -((c.clock + delay) as int)
    ensures forall p :: p != c.pid ==> WakeTime(Slept(c, delay).wakeTime, p) == WakeTime(c.wakeTime, p)
  {
    assert c.asleep != [] ==> c.asleep[0] in c.asleep;
  }

  /** Process p runs at time 0, process q is the next one, and r, the idle process, comes last. */
  ghost predicate Running3(c: Cpu, p: nat, q: nat, r: nat) {
    c.pid == p && c.started && c.clock == 0 && c.asleep == [] && c.ready == [r, q] && p != q
  }

  lemma FirstNaps(c: Cpu, p: nat, q: nat, r: nat, prio: nat -> int)
    requires Running3(c, p, q, r)
    ensures var c' := Scheduled(Slept(c, 0), prio);
      c'.pid == q && c'.started && c'.clock == 0 && c'.asleep == [p] && c'.ready == [r] && WakeTime(c'.wakeTime, p) == 0
  {
    Queued(c, 0);
    TakesOver(Slept(c, 0), prio);
  }

  lemma SecondNaps(c: Cpu, p: nat, q: nat, r: nat, prio: nat -> int)
    requires c.pid == q && c.started && c.clock == 0 && c.asleep == [p] && c.ready == [r] && WakeTime(c.wakeTime, p) == 0 && p != q
    ensures var c' := Scheduled(Slept(c, 5), prio);
      c'.pid == r && c'.asleep == [q, p] && WakeTime(c'.wakeTime, p) == 0 && WakeTime(c'.wakeTime, q) == -5
  {
    Queued(c, 5);
    assert Last(Slept(c, 5).asleep) == p;
    TakesOver(Slept(c, 5), prio);
  }

  lemma BothStayAsleep(c: Cpu, p: nat, q: nat, prio: nat -> int)
    requires c.asleep == [q, p] && WakeTime(c.wakeTime, p) == 0 && WakeTime(c.wakeTime, q) == -5 && c.clock > 5
    ensures Expired(c, p) && Expired(c, q) && Scheduled(c, prio).asleep == [q, p]
  {
    assert Last(c.asleep) == p;
    assert Awoken(c, prio) == c;
  }

  /** p and q call wait_clock(0) and wait_clock(5) at time 0: at time 1000 neither has woken up. */
  lemma OversleepingExample(c: Cpu, p: nat, q: nat, r: nat, prio: nat -> int)
    requires Ok(c, prio) && Running3(c, p, q, r)
    ensures !AnyTimeIsZero(c)
    ensures var c1 := Scheduled(Slept(c, 0), prio);
      c1.pid == q
      && var c2 := Scheduled(Slept(c1, 5), prio).(clock := 1000);
      Expired(c2, p) && Expired(c2, q) && Scheduled(c2, prio).asleep == [q, p]
  {
    FirstNaps(c, p, q, r, prio);
    var c1 := Scheduled(Slept(c, 0), prio);
    SecondNaps(c1, p, q, r, prio);
    BothStayAsleep(Scheduled(Slept(c1, 5), prio).(clock := 1000), p, q, prio);
  }
}
