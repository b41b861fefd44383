/**
 What becomes of the processes under semaphore calls (src/kernel/sync/semaphore_api.c:82-366): nobody
 vanishes, deleting or resetting a semaphore frees everybody who waits on it, and the most important
 process runs.
 */
module SemaphoreLaws {
  import opened Marks
  import opened QueueSpec
  import opened Scheduler
  import opened SchedulerRuns
  import opened SchedulerLaws
  import opened Semaphores
  import opened SemaphoreRuns

  /** The process is ready, asleep, running, or waits on a semaphore. */
  ghost predicate Present(st: Sems, p: nat) {
    Everyone(st.cpu)[p] > 0 || exists id :: WaitsOn(st, p, id)
  }

  ghost predicate SamePresent(st: Sems, st': Sems) {
    forall p {:trigger Present(st', p)} :: Present(st', p) <==> Present(st, p)
  }

  lemma SameLists(st: Sems, st': Sems)
    requires Everyone(st'.cpu) == Everyone(st.cpu)
    requires forall p, id {:trigger WaitsOn(st', p, id)} :: WaitsOn(st', p, id) <==> WaitsOn(st, p, id)
    ensures SamePresent(st, st')
  {
    forall p ensures Present(st', p) <==> Present(st, p) {
      if id :| WaitsOn(st, p, id) {
        assert WaitsOn(st', p, id);
      }
    }
  }

  /** The process that is woken leaves the list and becomes ready. */
  lemma UnblockedPresent(st: Sems, prio: nat -> int, id: int, code: int)
    requires id in st.table && st.table[id].waiting != [] && SemOkBut(st, prio, id)
    ensures SamePresent(st, Unblocked(st, prio, id, code))
  {
    var w, st' := st.table[id].waiting, Unblocked(st, prio, id, code);
    assert w[0] in w && Sleeps(st, id, w[0]) && w == [w[0]] + w[1..];
    InsertedMembers<nat>(st.cpu.ready, prio, w[0]);
    assert Running(st'.cpu) == Running(st.cpu);
    assert Everyone(st'.cpu) == Everyone(st.cpu) + multiset{w[0]};
    forall p ensures Present(st', p) <==> Present(st, p) {
      if other :| WaitsOn(st, p, other) && p != w[0] {
        assert WaitsOn(st', p, other);
      }
      if other :| WaitsOn(st', p, other) {
        assert WaitsOn(st, p, other);
      }
      assert WaitsOn(st, w[0], id);
    }
  }

  lemma {:induction false} AllUnblockedPresent(st: Sems, prio: nat -> int, id: int, code: int)
    requires id in st.table && SemOkBut(st, prio, id)
    ensures SamePresent(st, AllUnblocked(st, prio, id, code))
    decreases |st.table[id].waiting|
  {
    if st.table[id].waiting != [] {
      UnblockedOk(st, prio, id, code);
      UnblockedPresent(st, prio, id, code);
      AllUnblockedPresent(Unblocked(st, prio, id, code), prio, id, code);
      PresentTwice(st, Unblocked(st, prio, id, code), AllUnblocked(st, prio, id, code));
    }
  }

  lemma PresentTwice(st: Sems, st1: Sems, st': Sems)
    requires SamePresent(st, st1) && SamePresent(st1, st')
    ensures SamePresent(st, st')
  {
    forall p ensures Present(st', p) <==> Present(st, p) {
      assert Present(st1, p) <==> Present(st, p);
    }
  }

  lemma SignalledPresent(st: Sems, prio: nat -> int, id: int)
    requires id in st.table && SemOk(st, prio) && st.table[id].count < MAX_COUNT
    ensures SamePresent(st, Signalled(st, prio, id))
  {
    var st' := CountedUp(st, prio, id);
    if st.table[id].count + 1 <= 0 && st.table[id].waiting != [] {
      SignalledFrom(st, st', prio, id);
      UnblockedPresent(st', prio, id, SIGNAL_CALL);
      PresentTwice(st, st', Unblocked(st', prio, id, SIGNAL_CALL));
    }
  }

  lemma SignalledFrom(st: Sems, st': Sems, prio: nat -> int, id: int)
    requires id in st.table && st.table[id].count + 1 <= 0 && st.table[id].waiting != []
    requires st' == st.(table := st.table[id := st.table[id].(count := st.table[id].count + 1)])
    ensures st'.table[id].waiting == st.table[id].waiting && Signalled(st, prio, id) == Unblocked(st', prio, id, SIGNAL_CALL)
  {
  }

  lemma CountedUp(st: Sems, prio: nat -> int, id: int) returns (st': Sems)
    requires id in st.table && SemOk(st, prio)
    ensures st' == st.(table := st.table[id := st.table[id].(count := st.table[id].count + 1)])
    ensures SemOkBut(st', prio, id) && SamePresent(st, st')
  {
    st' := st.(table := st.table[id := st.table[id].(count := st.table[id].count + 1)]);
    ButCount(st, prio, id);
    RecountOk(st, prio, id, st.table[id].count + 1);
    SameLists(st, st');
  }

  lemma {:induction false} SignalledTimesPresent(st: Sems, prio: nat -> int, id: int, n: nat)
    requires id in st.table && SemOk(st, prio) && st.table[id].count + n <= MAX_COUNT
    ensures SamePresent(st, SignalledTimes(st, prio, id, n))
  {
    if n > 0 {
      var u := SignalledTimes(st, prio, id, n - 1);
      SignalledTimesServes(st, prio, id, n - 1);
      SignalledTimesPresent(st, prio, id, n - 1);
      SignalledPresent(u, prio, id);
      PresentTwice(st, u, Signalled(u, prio, id));
    }
  }

  lemma DeletedPresent(st: Sems, prio: nat -> int, id: int)
    requires id in st.table && SemOk(st, prio)
    ensures SamePresent(st, Deleted(st, prio, id))
  {
    ButCount(st, prio, id);
    AllUnblockedPresent(st, prio, id, SDELETE_CALL);
    var u := AllUnblocked(st, prio, id, SDELETE_CALL);
    SameLists(u, Deleted(st, prio, id));
    PresentTwice(st, u, Deleted(st, prio, id));
  }

  lemma ResetPresent(st: Sems, prio: nat -> int, id: int, count: int)
    requires id in st.table && SemOk(st, prio)
    ensures SamePresent(st, WasReset(st, prio, id, count))
  {
    ButCount(st, prio, id);
    AllUnblockedPresent(st, prio, id, SRESET_CALL);
    var u := AllUnblocked(st, prio, id, SRESET_CALL);
    SameLists(u, WasReset(st, prio, id, count));
    PresentTwice(st, u, WasReset(st, prio, id, count));
  }

  /** The process that blocks leaves the processor for the list. */
  lemma WaitedPresent(st: Sems, prio: nat -> int, id: int)
    requires id in st.table && SemOk(st, prio)
    ensures SamePresent(st, Waited(st, prio, id))
  {
    var st', me := Waited(st, prio, id), st.cpu.pid as nat;
    JoinedMembers(st.table[id].waiting, prio, me);
    if st.table[id].count >= 1 {
      SameLists(st, st');
    } else {
      assert Everyone(st.cpu) == Everyone(st'.cpu) + multiset{me};
      assert WaitsOn(st', me, id);
      forall p ensures Present(st', p) <==> Present(st, p) {
        if other :| WaitsOn(st, p, other) {
          assert WaitsOn(st', p, other);
        }
        if other :| WaitsOn(st', p, other) && p != me {
          assert WaitsOn(st, p, other);
        }
      }
    }
  }

  lemma EffectPresent(st: Sems, c: Call, prio: nat -> int)
    requires SemOk(st, prio) && Callable(st, c) && Code(st, c) >= 0
    ensures SamePresent(st, Effect(st, c, prio))
  {
    match c
    case Wait(id) => WaitedPresent(st, prio, id);
    case Signal(id) =>
      assert Waiters(st, id);
      SignalledPresent(st, prio, id);
    case SignalN(id, n) => SignalledTimesPresent(st, prio, id, n);
    case Delete(id) => DeletedPresent(st, prio, id);
    case Reset(id, count) => ResetPresent(st, prio, id, count);
    case _ => SameLists(st, Effect(st, c, prio));
  }

  /** Whatever the scheduler is called on is in order, once somebody is ready to take over. */
  lemma EffectCpu(st: Sems, c: Call, prio: nat -> int)
    requires SemOk(st, prio) && Callable(st, c) && Code(st, c) >= 0
    ensures var d := Effect(st, c, prio).cpu; Ok(d, prio) && NobodyTwice(d) && d.started
  {
    if c.Wait? {
      WaitedCpu(st, c.id, prio);
    } else {
      EffectOk(st, c, prio);
    }
  }

  lemma WaitedCpu(st: Sems, id: int, prio: nat -> int)
    requires SemOk(st, prio) && id in st.table
    ensures var d := Waited(st, prio, id).cpu; Ok(d, prio) && NobodyTwice(d) && d.started
  {
    var d := Waited(st, prio, id).cpu;
    forall p ensures Everyone(d)[p] <= 1 {
      assert Everyone(st.cpu)[p] <= 1;
    }
  }

  lemma RescheduledPresent(st: Sems, prio: nat -> int)
    requires Ok(st.cpu, prio) && NobodyTwice(st.cpu) && st.cpu.started
    ensures SamePresent(st, Rescheduled(st, prio))
  {
    NobodyLost(st.cpu, prio);
    SameLists(st, Rescheduled(st, prio));
  }

  /** No call loses a process, or makes one up: it stays ready, asleep, running or waiting on a semaphore. */
  lemma NobodyVanishes(st: Sems, c: Call, prio: nat -> int, p: nat)
    requires SemOk(st, prio) && Callable(st, c)
    ensures Present(Do(st, c, prio), p) <==> Present(st, p)
  {
    var st' := Do(st, c, prio);
    if Code(st, c) < 0 {
      SameLists(st, st');
    } else {
      EffectPresent(st, c, prio);
      if !c.Create? {
        EffectCpu(st, c, prio);
        RescheduledPresent(Effect(st, c, prio), prio);
        PresentTwice(st, Effect(st, c, prio), st');
      }
    }
    assert Present(st', p) <==> Present(st, p);
  }

  /** sdelete and sreset free everybody who waits on the semaphore, and tell them so. */
  lemma FreesAll(st: Sems, c: Call, prio: nat -> int, p: nat)
    requires SemOk(st, prio) && Callable(st, c) && (c.Delete? || c.Reset?) && Code(st, c) >= 0 && WaitsOn(st, p, c.id)
    ensures Everyone(Do(st, c, prio).cpu)[p] == 1 && WokenWith(Do(st, c, prio), p, if c.Delete? then -3 else -4)
  {
    var st' := Do(st, c, prio);
    DoKeeps(st, c, prio);
    NotInLine(st, prio);
    WaiterOutcome(st, c, prio, p, c.id);
    assert !WaitsOn(st', p, c.id);
    NotElsewhere(st, c, prio, p, c.id);
    NobodyVanishes(st, c, prio, p);
    assert Present(st, p) && Everyone(st'.cpu)[p] <= 1;
  }

  /** No call leaves anybody ready who is more important than the running process, unless it was so before and nothing was done. */
  lemma DoKeepsTop(st: Sems, c: Call, prio: nat -> int)
    requires SemOk(st, prio) && Callable(st, c) && (OnTop(st.cpu, prio) || (Code(st, c) >= 0 && !c.Create?))
    ensures OnTop(Do(st, c, prio).cpu, prio)
  {
    if Code(st, c) >= 0 && !c.Create? {
      EffectCpu(st, c, prio);
      TopRuns(Effect(st, c, prio).cpu, prio);
    }
  }
}
