/**
 How long wait_clock sleeps, who is marked as running, and what becomes of a killed process
 (src/kernel/process/scheduler.c:109-223, src/kernel/sync/timer_api.c:18-29).
 */
module SchedulerLaws {
  import opened QueueSpec
  import opened Scheduler
  import opened SchedulerRuns

  // ----- how long a process sleeps -----

  /** p is asleep, to be woken once the clock has passed t. */
  ghost predicate SleepsUntil(c: Cpu, p: nat, t: nat) {
    p in c.asleep && WakeTime(c.wakeTime, p) == -(t as int)
  }

  /** The scheduler leaves a sleeper alone until the clock has passed its time. */
  lemma NotBefore(c: Cpu, p: nat, t: nat, prio: nat -> int)
    requires Ok(c, prio) && SleepsUntil(c, p, t) && c.clock <= t
    ensures SleepsUntil(Scheduled(c, prio), p, t)
  {
    AwokenOk(c, prio);
    if AnyTimeIsZero(c) {
      ZeroBlocksEveryone(c, prio);
    } else {
      ExpiredWakeUp(c, prio);
      assert !Expired(c, p);
    }
    SameSleepers(Awoken(c, prio).(dead := []), prio);
  }

  /** ... and then wakes it up, unless some wake time is 0. */
  lemma ThenAwake(c: Cpu, p: nat, t: nat, prio: nat -> int)
    requires Ok(c, prio) && SleepsUntil(c, p, t) && c.clock > t && !AnyTimeIsZero(c)
    ensures p !in Scheduled(c, prio).asleep
  {
    ExpiredWakeUp(c, prio);
    assert Expired(c, p);
    SameSleepers(Awoken(c, prio).(dead := []), prio);
  }

  lemma FallsAsleep(c: Cpu, delay: nat, prio: nat -> int)
    requires Ok(c, prio) && Runs(c) && NobodyTwice(c) && c.clock + delay < MAX_TIME
    ensures SleepsUntil(Scheduled(Slept(c, delay), prio), c.pid, c.clock + delay)
  {
    RunsAlone(c);
    SleptOk(c, prio, delay);
    InsertedMembers<nat>(c.asleep, ByWakeTime(Slept(c, delay).wakeTime), c.pid);
    NotBefore(Slept(c, delay), c.pid, c.clock + delay, prio);
  }

  /** What another process does to a sleeper. */
  lemma StaysAsleep(c: Cpu, e: Nap, p: nat, t: nat, prio: nat -> int)
    requires Awake(c, prio) && SleepsUntil(c, p, t) && Called(c, e).clock <= t
    requires e.Sleep? ==> c.clock + e.delay < MAX_TIME
    ensures SleepsUntil(Scheduled(Called(c, e), prio), p, t)
  {
    RunsAlone(c);
    match e {
      case Pass(ticks) => LaterOk(c, ticks, prio);
      case Sleep(delay) =>
        SleptOk(c, prio, delay);
        InsertedMembers<nat>(c.asleep, ByWakeTime(Slept(c, delay).wakeTime), c.pid);
    }
    NotBefore(Called(c, e), p, t, prio);
  }

  lemma {:induction false} ClockRises(c: Cpu, es: seq<Nap>, prio: nat -> int)
    requires CanNap(c, es, prio)
    ensures Napped(c, es, prio).clock >= c.clock
    decreases |es|
  {
    if es != [] {
      ClockGoesBy(Called(c, es[0]), prio);
      ClockRises(Scheduled(Called(c, es[0]), prio), es[1..], prio);
    }
  }

  lemma {:induction false} SleepsThrough(c: Cpu, es: seq<Nap>, p: nat, t: nat, prio: nat -> int)
    requires Awake(c, prio) && SleepsUntil(c, p, t) && CanNap(c, es, prio) && Napped(c, es, prio).clock <= t
    ensures SleepsUntil(Napped(c, es, prio), p, t)
    decreases |es|
  {
    if es != [] {
      var c' := Scheduled(Called(c, es[0]), prio);
      NapStep(c, es[0], prio, AnyTimeIsZero(c));
      ClockGoesBy(Called(c, es[0]), prio);
      ClockRises(c', es[1..], prio);
      StaysAsleep(c, es[0], p, t, prio);
      SleepsThrough(c', es[1..], p, t, prio);
    }
  }

  /**
   A process that calls wait_clock(delay) at time t sleeps through every run of the others as long as the
   clock is at most t + delay, and the first call of the scheduler after that finds it awake - if there
   has been no wait_clock(0) at time 0.
   */
  lemma SleepsExactly(c: Cpu, delay: nat, es: seq<Nap>, ticks: nat, prio: nat -> int)
    requires Awake(c, prio) && !AnyTimeIsZero(c) && CanNap(c, [Sleep(delay)] + es, prio) && !NapsAtZero(c.clock, [Sleep(delay)] + es)
    requires Napped(c, [Sleep(delay)] + es, prio).clock <= c.clock + delay
    ensures var c1 := Napped(c, [Sleep(delay)] + es, prio);
      && c.pid in c1.asleep && Awake(c1, prio)
      && (c.pid in Scheduled(Called(c1, Pass(ticks)), prio).asleep <==> c1.clock + ticks <= c.clock + delay)
  {
    var run := [Sleep(delay)] + es;
    assert run[0] == Sleep(delay) && run[1..] == es;
    var d := Scheduled(Slept(c, delay), prio);
    FallsAsleep(c, delay, prio);
    NapStep(c, Sleep(delay), prio, false);
    SleepsThrough(d, es, c.pid, c.clock + delay, prio);
    ZeroIff(c, run, prio, false);
    var c1 := Napped(c, run, prio);
    LaterOk(c1, ticks, prio);
    if c1.clock + ticks <= c.clock + delay {
      NotBefore(Called(c1, Pass(ticks)), c.pid, c.clock + delay, prio);
    } else {
      ThenAwake(Called(c1, Pass(ticks)), c.pid, c.clock + delay, prio);
    }
  }

  // ----- who runs -----

  /** Nobody but the running process is marked as such. */
  ghost predicate OneActive(c: Cpu) {
    forall p :: p in c.mode && c.mode[p] == ACTIF ==> p == c.pid
  }

  /** Nobody who is ready is more important than the running process. */
  ghost predicate OnTop(c: Cpu, prio: nat -> int) {
    c.pid >= 0 ==> forall q :: q in c.ready ==> prio(q) <= prio(c.pid)
  }

  /** Every call of the scheduler leaves the most important process running, and only that one marked. */
  lemma TopRuns(c: Cpu, prio: nat -> int)
    requires Ok(c, prio) && (c.pid == NO_PID || c.started)
    ensures OnTop(Scheduled(c, prio), prio) && (OneActive(c) ==> OneActive(Scheduled(c, prio)))
  {
    AwokenOk(c, prio);
    if Awoken(c, prio).ready != [] {
      HighestRuns(c, prio);
    }
    if OneActive(c) {
      ChosenActive(Awoken(c, prio).(dead := []), prio);
    }
  }

  lemma ChosenActive(d: Cpu, prio: nat -> int)
    requires OneActive(d) && (d.pid == NO_PID || d.started)
    ensures OneActive(Chosen(d, prio))
  {
  }

  /** The processor goes to somebody else exactly if the running process has stopped, or somebody who is ready is as important. */
  lemma PreemptedIff(c: Cpu, prio: nat -> int)
    requires Ok(c, prio) && Runs(c) && NobodyTwice(c)
    ensures Scheduled(c, prio).pid != c.pid <==> exists q :: q in Awoken(c, prio).ready && prio(q) >= prio(c.pid)
  {
    AwokenOk(c, prio);
    AwokenEveryone(c, prio);
    var d := Awoken(c, prio);
    if d.ready != [] {
      LastHighest(d.ready, prio);
      SplitLast(d.ready);
      assert Everyone(d)[c.pid] <= 1;
    }
  }

  // ----- killed processes -----

  ghost predicate Killed(c: Cpu) {
    c.started && c.pid >= 0 && c.ready != [] && c.pid in c.mode && c.mode[c.pid] == KILLED
  }

  lemma ChosenBuries(d: Cpu, prio: nat -> int)
    requires d.dead == []
    ensures Chosen(d, prio).dead == if Killed(d) then [d.pid as nat] else []
  {
  }

  /** A killed process is put among the dead as it loses the processor; everybody who was there before has been freed. */
  lemma Buries(c: Cpu, prio: nat -> int)
    requires Ok(c, prio)
    ensures var d := Awoken(c, prio); Scheduled(c, prio).dead == if Killed(d) then [d.pid as nat] else []
  {
    AwokenOk(c, prio);
    ChosenBuries(Awoken(c, prio).(dead := []), prio);
  }

  /** The next call of the scheduler frees the killed process. */
  lemma KilledIsFreed(c: Cpu, prio: nat -> int)
    requires Ok(c, prio) && Killed(c)
    ensures var c' := Scheduled(c, prio); c'.dead == [c.pid as nat] && c'.pid != NO_PID && Scheduled(c', prio).dead == []
  {
    AwokenOk(c, prio);
    AwokenGrows(c, prio);
    Buries(c, prio);
    SomebodyRuns(c, prio);
    Buries(Scheduled(c, prio), prio);
    AwokenOk(Scheduled(c, prio), prio);
  }
}
