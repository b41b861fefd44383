/**
 The semaphore calls (src/kernel/sync/semaphore_api.c:82-366) on the kernel's own state. Each does
 what SemaphoreRuns says of it. The value that wait returns is read when the process runs again.
 */
module SemaphoreApi {
  import opened Scheduler
  import opened SchedulerRuns
  import opened Semaphores
  import opened SemaphoreRuns

  ghost predicate Issued(table: map<int, Sem>, counter: int) {
    forall id :: id in table ==> id <= counter
  }

  lemma OneLess<V>(m: map<int, V>, k: int)
    requires k in m
    ensures |(m - {k}).Keys| == |m.Keys| - 1
  {
    assert (m - {k}).Keys == m.Keys - {k};
  }

  class SemaphoreTable {
    const kernel: Kernel
    var table: map<int, Sem>
    var signals: map<nat, int>       // sem_signal of every process
    var blockedOn: map<nat, int>     // semaphore_id of every process
    var parent_block: bool
    var semaphore_id_counter: int
    var currently_running_semaphores: int
    ghost var arrived: map<nat, nat>
    ghost var arrivals: nat

    ghost function View(): Sems
      reads this, kernel
    {
      Sems(kernel.View(), table, signals, blockedOn, arrived, arrivals)
    }

    ghost predicate Valid()
      reads this, kernel
    {
      SemOk(View(), kernel.prio) && Settled()
    }

    /** No semaphores yet. */
    constructor (k: Kernel)
      requires k.Valid() && Runs(k.View()) && NobodyTwice(k.View()) && Runnable(k.View())
      ensures Valid() && kernel == k && table == map[] && kernel.View() == old(k.View())
    {
      kernel := k;
      table, signals, blockedOn, parent_block, semaphore_id_counter := map[], map[], map[], false, 0;
      currently_running_semaphores, arrived, arrivals := 0, map[], 0;
    }

    /** unblock_process_sem: wakes the first process in line; 1 when nobody waits. */
    method Unblock(sem: int, code: int) returns (rc: int)
      requires sem in table
      modifies this`table, this`signals, kernel`ready, kernel`mode
      ensures rc == (if old(table[sem]).waiting == [] then 1 else 0) && table.Keys == old(table).Keys
      ensures View() == if rc == 1 then old(View()) else Unblocked(old(View()), kernel.prio, sem, code)
    {
      var s := table[sem];
      if s.waiting == [] {
        return 1;
      }
      var p := s.waiting[0];
      table := table[sem := s.(waiting := s.waiting[1..])];
      kernel.mode := kernel.mode[p := ACTIVATABLE];
      kernel.ready := QueueSpec.Inserted<nat>(kernel.ready, kernel.prio, p);
      signals := signals[p := code];
      rc := 0;
    }

    /** What is true of the table between two calls. */
    ghost predicate Settled()
      reads this
    {
      !parent_block && Issued(table, semaphore_id_counter) && currently_running_semaphores == |table.Keys|
    }

    /** The final call of the scheduler. */
    method Reschedule(ghost after: Sems)
      requires Ok(kernel.View(), kernel.prio) && Settled()
      requires after == Rescheduled(View(), kernel.prio) && SemOk(after, kernel.prio)
      modifies kernel
      ensures Valid() && View() == after
    {
      kernel.Schedule();
    }

    /** The loop of sdelete and sreset: until unblock_process_sem says that nobody waits. */
    method UnblockAll(sem: int, code: int)
      requires sem in table
      modifies this`table, this`signals, kernel`ready, kernel`mode
      ensures table.Keys == old(table).Keys && View() == AllUnblocked(old(View()), kernel.prio, sem, code)
    {
      ghost var st := View();
      var rc := 0;
      while rc != 1
        invariant table.Keys == old(table).Keys && AllUnblocked(View(), kernel.prio, sem, code) == AllUnblocked(st, kernel.prio, sem, code)
        invariant rc == 1 ==> table[sem].waiting == []
        decreases |table[sem].waiting| + 1 - rc, 1 - rc
      {
        rc := Unblock(sem, code);
      }
    }

    /** screate */
    method Create(count: int) returns (id: int)
      requires Valid() && count <= MAX_COUNT
      modifies this`table, this`parent_block, this`semaphore_id_counter, this`currently_running_semaphores
      ensures Valid()
      ensures count < 0 || |old(table).Keys| == NB_MAX_SEMS ==> id == -1 && View() == old(View())
      ensures count >= 0 && |old(table).Keys| != NB_MAX_SEMS ==> id !in old(table) && View() == Do(old(View()), Call.Create(id, count), kernel.prio)
    {
      if count < 0 {
        return -1;
      }
      if currently_running_semaphores == NB_MAX_SEMS {
        return -1;
      }
      parent_block := false;
      semaphore_id_counter := semaphore_id_counter + 1;
      id := semaphore_id_counter;
      DoKeeps(View(), Call.Create(id, count), kernel.prio);
      Enter(id, count);
    }

    method Enter(id: int, count: int)
      requires SemOk(View().(table := table[id := Sem(count, [])]), kernel.prio) && id !in table && Issued(table, id)
      requires !parent_block && semaphore_id_counter == id && currently_running_semaphores == |table.Keys|
      modifies this`table, this`currently_running_semaphores
      ensures Valid() && View() == old(View()).(table := old(table)[id := Sem(count, [])])
    {
      assert table[id := Sem(count, [])].Keys == table.Keys + {id};
      table := table[id := Sem(count, [])];
      currently_running_semaphores := currently_running_semaphores + 1;
    }

    /** wait without the final call of the scheduler. */
    method Decrement(sem: int) returns (rc: int)
      requires sem in table && kernel.pid >= 0
      modifies this`table, this`signals, this`blockedOn, this`arrived, this`arrivals, kernel`mode
      ensures rc == if old(table[sem]).count == MIN_COUNT then -2 else 0
      ensures rc == -2 ==> View() == old(View()).(signals := old(signals)[kernel.pid := 0])
      ensures rc == 0 ==> View() == Waited(old(View()), kernel.prio, sem)
    {
      var p: nat := kernel.pid;
      signals := signals[p := 0];
      var s := table[sem];
      if s.count == MIN_COUNT {
        return -2;
      }
      table := table[sem := s.(count := s.count - 1)];
      if s.count - 1 < 0 {
        var line := Join(s.waiting, kernel.prio, p);
        table := table[sem := Sem(s.count - 1, line)];
        blockedOn := blockedOn[p := sem];
        arrived, arrivals := arrived[p := arrivals], arrivals + 1;
        kernel.mode := kernel.mode[p := BLOCKEDSEMAPHORE];
      }
      rc := 0;
    }

    /** wait, up to and including its call of the scheduler. */
    method Wait(sem: int) returns (rc: int)
      requires Valid() && kernel.ready != []
      modifies this, kernel
      ensures Valid() && rc == Code(old(View()), Call.Wait(sem)) && View() == Do(old(View()), Call.Wait(sem), kernel.prio)
    {
      DoKeeps(View(), Call.Wait(sem), kernel.prio);
      if sem !in table {
        return -1;
      }
      assert Waiters(View(), sem);
      rc := Decrement(sem);
      if rc == 0 {
        kernel.Schedule();
      }
    }

    /** The rest of wait, when process p runs again. */
    method WaitReturn(p: nat) returns (rc: int)
      requires p in signals
      ensures rc == signals[p]
    {
      rc := signals[p];
    }

    /** try_wait */
    method TryWait(sem: int) returns (rc: int)
      requires Valid()
      modifies this, kernel
      ensures Valid() && rc == Code(old(View()), Call.TryWait(sem)) && View() == Do(old(View()), Call.TryWait(sem), kernel.prio)
    {
      DoKeeps(View(), Call.TryWait(sem), kernel.prio);
      if sem !in table {
        return -1;
      }
      if table[sem].count > 0 {
        table := table[sem := table[sem].(count := table[sem].count - 1)];
      } else {
        return -3;
      }
      kernel.Schedule();
      rc := 0;
    }

    /** The body of signal without the final call of the scheduler. */
    method Increment(sem: int) returns (rc: int)
      requires sem in table && Counted(table[sem])
      modifies this`table, this`signals, kernel`ready, kernel`mode
      ensures rc == (if old(table[sem]).count == MAX_COUNT then -2 else 0) && table.Keys == old(table).Keys
      ensures rc == -2 ==> View() == old(View())
      ensures rc == 0 ==> View() == Signalled(old(View()), kernel.prio, sem)
    {
      if table[sem].count == MAX_COUNT {
        return -2;
      }
      table := table[sem := table[sem].(count := table[sem].count + 1)];
      if table[sem].count <= 0 {
        var none := Unblock(sem, SIGNAL_CALL);
      }
      rc := 0;
    }

    /** signal */
    method Signal(sem: int) returns (rc: int)
      requires Valid()
      modifies this, kernel
      ensures Valid() && rc == Code(old(View()), Call.Signal(sem)) && View() == Do(old(View()), Call.Signal(sem), kernel.prio)
    {
      ghost var st := View();
      DoKeeps(st, Call.Signal(sem), kernel.prio);
      if sem !in table {
        return -1;
      }
      assert Waiters(View(), sem);
      rc := Increment(sem);
      if rc < 0 {
        return;
      }
      SignalledOk(st, kernel.prio, sem);
      if !parent_block {
        Reschedule(Do(st, Call.Signal(sem), kernel.prio));
      }
    }

    /**
     The loop of signaln. It calls signal, which leaves the scheduler alone because parent_block is set;
     its early return, which would leave parent_block set, cannot be taken.
     */
    method SignalLoop(sem: int, count: nat) returns (rc: int)
      requires SemOk(View(), kernel.prio) && parent_block && sem in table && table[sem].count + count <= MAX_COUNT
      modifies this`table, this`signals, kernel`ready, kernel`mode
      ensures rc == 0 && table.Keys == old(table).Keys
      ensures View() == SignalledTimes(old(View()), kernel.prio, sem, count)
    {
      ghost var st := View();
      var i := 0;
      while i < count
        invariant 0 <= i <= count && table.Keys == old(table).Keys
        invariant View() == SignalledTimes(st, kernel.prio, sem, i)
      {
        SignalledTimesServes(st, kernel.prio, sem, i);
        assert Waiters(View(), sem);
        rc := Increment(sem);
        if rc != 0 {
          return;
        }
        i := i + 1;
      }
      rc := 0;
    }

    /** signaln */
    method SignalN(sem: int, count: int) returns (rc: int)
      requires Valid()
      modifies this, kernel
      ensures Valid() && rc == Code(old(View()), Call.SignalN(sem, count))
      ensures View() == Do(old(View()), Call.SignalN(sem, count), kernel.prio)
    {
      ghost var st := View();
      DoKeeps(st, Call.SignalN(sem, count), kernel.prio);
      if sem !in table || count < 0 {
        return -1;
      }
      if table[sem].count + count > MAX_COUNT {
        return -2;
      }
      SignalledTimesServes(st, kernel.prio, sem, count);
      parent_block := true;
      rc := SignalLoop(sem, count);
      if rc == 0 {
        parent_block := false;
        Reschedule(Do(st, Call.SignalN(sem, count), kernel.prio));
      }
    }

    /** sdelete */
    method Delete(sem: int) returns (rc: int)
      requires Valid()
      modifies this, kernel
      ensures Valid() && rc == Code(old(View()), Call.Delete(sem)) && View() == Do(old(View()), Call.Delete(sem), kernel.prio)
    {
      ghost var st := View();
      DoKeeps(st, Call.Delete(sem), kernel.prio);
      if sem !in table {
        return -1;
      }
      DeletedOk(st, kernel.prio, sem);
      Drop(sem);
      Reschedule(Do(st, Call.Delete(sem), kernel.prio));
      rc := 0;
    }

    /** All waiters are woken, and the semaphore is taken off the table. */
    method Drop(sem: int)
      requires Settled() && sem in table
      modifies this, kernel`ready, kernel`mode
      ensures Settled() && View() == Deleted(old(View()), kernel.prio, sem)
    {
      UnblockAll(sem, SDELETE_CALL);
      OneLess(table, sem);
      table := table - {sem};
      currently_running_semaphores := currently_running_semaphores - 1;
    }

    /** sreset. A count that does not fit into the 16-bit field as a positive number breaks the invariant. */
    method Reset(sem: int, count: int) returns (rc: int)
      requires Valid() && Callable(View(), Call.Reset(sem, count))
      modifies this, kernel
      ensures Valid() && rc == Code(old(View()), Call.Reset(sem, count))
      ensures View() == Do(old(View()), Call.Reset(sem, count), kernel.prio)
    {
      ghost var st := View();
      DoKeeps(st, Call.Reset(sem, count), kernel.prio);
      if sem !in table {
        return -1;
      }
      if count < 0 {
        return -1;
      }
      WasResetOkIff(st, kernel.prio, sem, count);
      Recount(sem, count);
      Reschedule(Do(st, Call.Reset(sem, count), kernel.prio));
      rc := 0;
    }

    /** All waiters are woken, and the count is set. */
    method Recount(sem: int, count: int)
      requires Settled() && sem in table
      modifies this, kernel`ready, kernel`mode
      ensures Settled() && View() == WasReset(old(View()), kernel.prio, sem, count)
    {
      UnblockAll(sem, SRESET_CALL);
      assert table[sem := table[sem].(count := Int16(count))].Keys == table.Keys;
      table := table[sem := table[sem].(count := Int16(count))];
    }

    /** scount: the low 16 bits of the count, from which the count can be read back. */
    method Count(sem: int) returns (n: int)
      requires Valid()
      ensures sem !in table ==> n == -1
      ensures sem in table ==> 0 <= n < 65536 && Int16(n) == table[sem].count
    {
      if sem !in table {
        return -1;
      }
      assert Waiters(View(), sem);
      n := table[sem].count % 65536;
    }
  }
}
