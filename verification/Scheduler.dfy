/**
 The priority round-robin scheduler (src/kernel/process/scheduler.c:36-233) and sleeping
 (src/kernel/sync/timer_api.c:18-29). A context switch is a change of the current pid.
 */
module Scheduler {
  import opened QueueSpec

  datatype Mode = ACTIF | ACTIVATABLE | BLOCKEDSEMAPHORE | BLOCKEDIO | BLOCKEDQUEUE | BLOCKEDWAITCHILD | ASLEEP | ZOMBIE | KILLED

  const NO_PID := -1
  const MAX_TIME: nat := 0x8000_0000_0000_0000

  /**
   The processor: who runs, the three queues (each read from its end), the state of every process,
   the wake_time fields (minus the time to wake up at) and the clock.
   */
  datatype Cpu = Cpu(pid: int, started: bool, ready: seq<nat>, asleep: seq<nat>, dead: seq<nat>,
                     mode: map<nat, Mode>, wakeTime: map<nat, int>, clock: nat)

  function WakeTime(m: map<nat, int>, p: nat): int {
    if p in m then m[p] else 0
  }

  /** The key by which the asleep queue is sorted. */
  function ByWakeTime(m: map<nat, int>): nat -> int {
    (p: nat) => WakeTime(m, p)
  }

  /** The processes that exist are all in mode; queued ones exist, and the queues are in order. */
  ghost predicate Ok(c: Cpu, prio: nat -> int) {
    && (forall p :: p in c.ready || p in c.asleep || p in c.dead ==> p in c.mode)
    && Sorted<nat>(c.ready, prio) && Sorted<nat>(c.asleep, ByWakeTime(c.wakeTime))
    && (forall p :: p in c.asleep ==> -(MAX_TIME as int) < WakeTime(c.wakeTime, p) <= 0)
    && (c.pid == NO_PID || (c.pid >= 0 && c.pid in c.mode))
    && (c.pid == NO_PID ==> !c.started)
  }

  function Last(s: seq<nat>): nat
    requires s != []
  {
    s[|s| - 1]
  }

  function ButLast(s: seq<nat>): seq<nat>
    requires s != []
  {
    s[..|s| - 1]
  }

  // ----- what one call does -----

  /** The time at which the first sleeper is to wake up; 0 also says that there is none. */
  function NextWakeTime(c: Cpu): int {
    if c.asleep == [] then 0 else -WakeTime(c.wakeTime, Last(c.asleep))
  }

  /** The first sleeper joins the ready processes. */
  function WokenOne(c: Cpu, prio: nat -> int): Cpu
    requires c.asleep != []
  {
    c.(asleep := ButLast(c.asleep), ready := Inserted<nat>(c.ready, prio, Last(c.asleep)))
  }

  function Awoken(c: Cpu, prio: nat -> int): Cpu
    decreases |c.asleep|
  {
    if NextWakeTime(c) == 0 || c.clock <= NextWakeTime(c) then c else Awoken(WokenOne(c, prio), prio)
  }

  /** The first ready process takes over from the current one, which has gone elsewhere. */
  function Switched(c: Cpu): Cpu
    requires c.ready != []
  {
    c.(pid := Last(c.ready), ready := ButLast(c.ready), mode := c.mode[Last(c.ready) := ACTIF])
  }

  /** The first ready process takes over, the current one queues up. */
  function Swapped(c: Cpu, prio: nat -> int): Cpu
    requires c.ready != [] && c.pid >= 0
  {
    c.(pid := Last(c.ready), ready := Inserted<nat>(ButLast(c.ready), prio, c.pid),
       mode := c.mode[c.pid := ACTIVATABLE][Last(c.ready) := ACTIF])
  }

  /** The choice of the next process. */
  function Chosen(c: Cpu, prio: nat -> int): Cpu {
    if c.pid < 0 then
      if c.ready == [] then c else Switched(c).(started := true)
    else if !c.started then
      if c.pid !in c.mode then c else c.(started := true)
    else if c.ready == [] || c.pid !in c.mode then c
    else if c.mode[c.pid] == ACTIF then
      if prio(Last(c.ready)) >= prio(c.pid) then Swapped(c, prio) else c
    else if c.mode[c.pid] == KILLED then
      Switched(c.(dead := Inserted<nat>(c.dead, prio, c.pid)))
    else Switched(c)
  }

  function Scheduled(c: Cpu, prio: nat -> int): Cpu {
    Chosen(Awoken(c, prio).(dead := []), prio)
  }

  /** queue_add on the asleep queue, which is sorted by the field wake_time. */
  function AddSleeper(s: seq<nat>, m: map<nat, int>, p: nat): seq<nat> {
    Inserted<nat>(s, ByWakeTime(m), p)
  }

  /** wait_clock before it calls the scheduler. */
  function Slept(c: Cpu, delay: nat): Cpu
    requires c.pid >= 0
  {
    var wakeTime := c.wakeTime[c.pid := -((c.clock + delay) as int)];
    c.(wakeTime := wakeTime, mode := c.mode[c.pid := ASLEEP], asleep := AddSleeper(c.asleep, wakeTime, c.pid))
  }

  // ----- the kernel -----

  class Kernel {
    const prio: nat -> int
    var pid: int
    var started: bool
    var ready: seq<nat>
    var asleep: seq<nat>
    var dead: seq<nat>
    var mode: map<nat, Mode>
    var wakeTime: map<nat, int>
    var clock: nat

    function View(): Cpu
      reads this
    {
      Cpu(pid, started, ready, asleep, dead, mode, wakeTime, clock)
    }

    ghost predicate Valid()
      reads this
    {
      Ok(View(), prio)
    }

    constructor (prio: nat -> int)
      ensures Valid() && this.prio == prio && pid == NO_PID && ready == [] && asleep == [] && mode == map[] && clock == 0
    {
      this.prio := prio;
      pid, started, ready, asleep, dead, mode, wakeTime, clock := NO_PID, false, [], [], [], map[], map[], 0;
    }

    /** get_next_wake_time, whose assertion holds. */
    method GetNextWakeTime() returns (t: nat)
      requires Valid()
      ensures t == NextWakeTime(View())
    {
      if asleep == [] {
        return 0;
      }
      var p := Last(asleep);
      assert p in asleep;
      t := -WakeTime(wakeTime, p);
    }

    /** awake_sleeping_process */
    method AwakeSleeping()
      requires Valid()
      modifies this`ready, this`asleep
      ensures Valid() && View() == Awoken(old(View()), prio)
    {
      var wake_time := GetNextWakeTime();
      while wake_time != 0 && clock > wake_time
        invariant Valid() && Awoken(View(), prio) == Awoken(old(View()), prio)
        invariant wake_time == NextWakeTime(View())
        decreases |asleep|
      {
        ghost var c := View();
        AwakenOk(c, prio);
        var awake := Last(asleep);
        asleep := ButLast(asleep);
        ready := Inserted<nat>(ready, prio, awake);
        assert View() == WokenOne(c, prio);
        wake_time := GetNextWakeTime();
      }
    }

    /** free_dead_process */
    method FreeDead()
      modifies this`dead
      ensures View() == old(View()).(dead := [])
    {
      while dead != []
        invariant View() == old(View()).(dead := dead)
        decreases |dead|
      {
        dead := ButLast(dead);
      }
    }

    method Schedule()
      requires Valid()
      modifies this
      ensures Valid() && View() == Scheduled(old(View()), prio)
    {
      AwakeSleeping();
      FreeDead();
      Choose();
    }

    /** The choice of the next process and the switch to it. */
    method Choose()
      requires Valid()
      modifies this
      ensures Valid() && View() == Chosen(old(View()), prio)
    {
      ChosenOk(View(), prio);
      if pid == NO_PID {
        if ready == [] {
          return;
        }
        var top := Last(ready);
        ready := ButLast(ready);
        pid := top;
        mode := mode[top := ACTIF];
        started := true;
      } else if !started {
        started := true;
      } else {
        if ready == [] {
          return;
        }
        var current, top := pid, Last(ready);
        if mode[current] == ACTIF {
          if prio(top) >= prio(current) {
            ready := ButLast(ready);
            pid := top;
            mode := mode[current := ACTIVATABLE];
            mode := mode[top := ACTIF];
            ready := Inserted<nat>(ready, prio, current);
          }
        } else if mode[current] == KILLED {
          dead := Inserted<nat>(dead, prio, current);
          ready := ButLast(ready);
          pid := top;
          mode := mode[top := ACTIF];
        } else {
          ready := ButLast(ready);
          pid := top;
          mode := mode[top := ACTIF];
        }
      }
    }

    /** wait_clock */
    method WaitClock(delay: nat)
      requires Valid() && pid >= 0 && pid !in asleep && clock + delay < MAX_TIME
      modifies this
      ensures Valid() && View() == Scheduled(Slept(old(View()), delay), prio)
    {
      SleptOk(View(), prio, delay);
      FallAsleep(delay);
      Schedule();
    }

    method FallAsleep(delay: nat)
      requires pid >= 0
      modifies this`wakeTime, this`mode, this`asleep
      ensures View() == Slept(old(View()), delay)
    {
      wakeTime := wakeTime[pid := -((clock + delay) as int)];
      mode := mode[pid := ASLEEP];
      asleep := AddSleeper(asleep, wakeTime, pid);
    }
  }

  lemma ButLastSorted(s: seq<nat>, key: nat -> int)
    requires s != [] && Sorted(s, key)
    ensures Sorted(ButLast(s), key) && forall p :: p in ButLast(s) ==> p in s && key(p) <= key(Last(s))
  {
  }

  lemma AwakenOk(c: Cpu, prio: nat -> int)
    requires Ok(c, prio) && c.asleep != []
    ensures Ok(WokenOne(c, prio), prio)
  {
    ButLastSorted(c.asleep, ByWakeTime(c.wakeTime));
    InsertedSorted<nat>(c.ready, prio, Last(c.asleep));
    InsertedMembers<nat>(c.ready, prio, Last(c.asleep));
  }

  lemma SwitchedOk(c: Cpu, prio: nat -> int)
    requires Ok(c, prio) && c.ready != []
    ensures Ok(Switched(c).(started := true), prio)
  {
    ButLastSorted(c.ready, prio);
    assert Last(c.ready) in c.ready;
    assert forall p :: p in ButLast(c.ready) ==> p in c.ready;
  }

  lemma SwappedOk(c: Cpu, prio: nat -> int)
    requires Ok(c, prio) && c.ready != [] && c.pid >= 0
    ensures Ok(Swapped(c, prio), prio)
  {
    ButLastSorted(c.ready, prio);
    InsertedSorted<nat>(ButLast(c.ready), prio, c.pid);
    InsertedMembers<nat>(ButLast(c.ready), prio, c.pid);
    assert Last(c.ready) in c.ready;
    assert forall p :: p in ButLast(c.ready) ==> p in c.ready;
  }

  /** A killed process joins the dead ones. */
  lemma BuriedOk(c: Cpu, prio: nat -> int)
    requires Ok(c, prio) && c.pid >= 0
    ensures Ok(c.(dead := Inserted<nat>(c.dead, prio, c.pid)), prio)
  {
    InsertedMembers<nat>(c.dead, prio, c.pid);
  }

  lemma ChosenOk(c: Cpu, prio: nat -> int)
    requires Ok(c, prio)
    ensures Ok(Chosen(c, prio), prio)
  {
    if c.ready != [] {
      SwitchedOk(c, prio);
      if c.pid >= 0 {
        SwappedOk(c, prio);
        BuriedOk(c, prio);
        SwitchedOk(c.(dead := Inserted<nat>(c.dead, prio, c.pid)), prio);
      }
    }
  }

  lemma SleptOk(c: Cpu, prio: nat -> int, delay: nat)
    requires Ok(c, prio) && c.pid >= 0 && c.pid !in c.asleep && c.clock + delay < MAX_TIME
    ensures Ok(Slept(c, delay), prio)
  {
    var c' := Slept(c, delay);
    var key' := ByWakeTime(c'.wakeTime);
    SameOrder(c.asleep, ByWakeTime(c.wakeTime), key');
    InsertedSorted<nat>(c.asleep, key', c.pid);
    InsertedMembers<nat>(c.asleep, key', c.pid);
  }

  lemma SameOrder(s: seq<nat>, key: nat -> int, key': nat -> int)
    requires Sorted(s, key) && forall p :: p in s ==> key'(p) == key(p)
    ensures Sorted(s, key')
  {
  }
}
