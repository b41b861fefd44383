/**
 Counting semaphores (src/kernel/sync/semaphore_api.c:82-236, 264-366). The count is a 16-bit field;
 a blocked process waits in a list, most important first.
 */
module Semaphores {
  import opened Marks
  import opened QueueSpec
  import opened Scheduler
  import opened SchedulerRuns

  const MAX_COUNT: int := 32767
  const MIN_COUNT: int := -32768
  const NB_MAX_SEMS: int := 10000

  const SIGNAL_CALL: int := 0
  const SDELETE_CALL: int := -3
  const SRESET_CALL: int := -4

  datatype Sem = Sem(count: int, waiting: seq<nat>)

  /**
   The processor, the semaphores, and for every process the code that last woke it (sem_signal) and
   the semaphore it last blocked on (semaphore_id). Only the proofs need `arrived`, the number of the
   blocking wait that put the process in line, and `arrivals`, how many there have been.
   */
  datatype Sems = Sems(cpu: Cpu, table: map<int, Sem>, signals: map<nat, int>, blockedOn: map<nat, int>,
                       arrived: map<nat, nat>, arrivals: nat)

  /** When a process queued up. */
  function ByArrival(m: map<nat, nat>): nat -> int {
    (p: nat) => if p in m then m[p] as int else -1
  }

  /** The conversion to int16_t. */
  function Int16(n: int): (r: int)
    ensures MIN_COUNT <= r <= MAX_COUNT
    ensures MIN_COUNT <= n <= MAX_COUNT ==> r == n
  {
    (n + 32768) % 65536 - 32768
  }

  // ----- the waiting list -----

  /** Where a newcomer goes: in front of the first process that is less important. */
  function Place(w: seq<nat>, prio: nat -> int, p: nat): (i: nat)
    ensures i <= |w|
    ensures forall k :: 0 <= k < i ==> prio(w[k]) >= prio(p)
    ensures i < |w| ==> prio(w[i]) < prio(p)
  {
    if w == [] || prio(w[0]) < prio(p) then 0 else 1 + Place(w[1..], prio, p)
  }

  function Joined(w: seq<nat>, prio: nat -> int, p: nat): (u: seq<nat>)
    ensures |u| == |w| + 1
  {
    var i := Place(w, prio, p);
    w[..i] + [p] + w[i..]
  }

  /** Descending priority, and by age among equals. */
  ghost predicate InLine(w: seq<nat>, prio: nat -> int, age: nat -> int) {
    forall i, j {:trigger Pair(i, j)} :: Pair(i, j) && 0 <= i < j < |w| ==> Before(w[i], w[j], prio, age)
  }

  lemma JoinedInLine(w: seq<nat>, prio: nat -> int, age: nat -> int, p: nat)
    requires InLine(w, prio, age) && forall i :: 0 <= i < |w| ==> age(w[i]) < age(p)
    ensures InLine(Joined(w, prio, p), prio, age)
  {
    var u, at := Joined(w, prio, p), Place(w, prio, p);
    forall i, j | 0 <= i < j < |u| ensures Before(u[i], u[j], prio, age) {
      var i', j' := if i < at then i else i - 1, if j < at then j else j - 1;
      assert i != at ==> u[i] == w[i'];
      assert j != at ==> u[j] == w[j'];
      assert Pair(i', j') && Pair(at, j');
    }
  }

  lemma HeadLeavesInLine(w: seq<nat>, prio: nat -> int, age: nat -> int)
    requires w != [] && InLine(w, prio, age)
    ensures InLine(w[1..], prio, age)
  {
    forall i, j | 0 <= i < j < |w| - 1 ensures Before(w[1..][i], w[1..][j], prio, age) {
      assert Pair(i + 1, j + 1);
    }
  }

  lemma JoinedMembers(w: seq<nat>, prio: nat -> int, p: nat)
    ensures forall q :: q in Joined(w, prio, p) <==> q in w || q == p
  {
    var i := Place(w, prio, p);
    assert w == w[..i] + w[i..];
  }

  /** The walk along the list in wait. */
  method Join(w: seq<nat>, prio: nat -> int, p: nat) returns (u: seq<nat>)
    ensures u == Joined(w, prio, p)
  {
    var i := 0;
    while i < |w| && prio(p) <= prio(w[i])
      invariant 0 <= i <= |w|
      invariant forall k :: 0 <= k < i ==> prio(w[k]) >= prio(p)
    {
      i := i + 1;
    }
    assert i == Place(w, prio, p);
    u := w[..i] + [p] + w[i..];
  }

  // ----- the invariant -----

  /** As many processes wait as the count is below zero. */
  ghost predicate Counted(s: Sem) {
    && MIN_COUNT <= s.count <= MAX_COUNT
    && |s.waiting| == (if s.count < 0 then -s.count else 0)
    && forall i, j {:trigger Pair(i, j)} :: Pair(i, j) && 0 <= i < j < |s.waiting| ==> s.waiting[i] != s.waiting[j]
  }

  ghost predicate Sleeps(st: Sems, id: int, p: nat) {
    && p in st.cpu.mode && st.cpu.mode[p] == BLOCKEDSEMAPHORE
    && p in st.blockedOn && st.blockedOn[p] == id
  }

  ghost predicate Waiters(st: Sems, id: int)
    requires id in st.table
  {
    Counted(st.table[id]) && forall p :: p in st.table[id].waiting ==> Sleeps(st, id, p)
  }

  /** A process that can run is not marked as blocked on a semaphore. */
  ghost predicate CanRun(c: Cpu, p: nat) {
    p in c.mode && c.mode[p] != BLOCKEDSEMAPHORE
  }

  ghost predicate Runnable(c: Cpu) {
    && (forall p :: p in c.ready ==> CanRun(c, p))
    && (forall p :: p in c.asleep ==> CanRun(c, p))
    && (c.pid >= 0 ==> CanRun(c, c.pid))
  }

  /** The most important waiter comes first, and the oldest of those. */
  ghost predicate Line(st: Sems, prio: nat -> int, id: int)
    requires id in st.table
  {
    InLine(st.table[id].waiting, prio, ByArrival(st.arrived))
  }

  ghost predicate Lines(st: Sems, prio: nat -> int) {
    && (forall id {:trigger Line(st, prio, id)} :: id in st.table ==> Line(st, prio, id))
    && forall p :: p in st.arrived ==> st.arrived[p] < st.arrivals
  }

  ghost predicate SemOk(st: Sems, prio: nat -> int) {
    && Ok(st.cpu, prio) && Runnable(st.cpu) && NobodyTwice(st.cpu) && Runs(st.cpu) && Lines(st, prio)
    && forall id {:trigger Waiters(st, id)} :: id in st.table ==> Waiters(st, id)
  }

  /** No process waits twice, in one list or in two. */
  lemma WaitsOnce(st: Sems, prio: nat -> int, id: int, id': int, i: nat, j: nat)
    requires SemOk(st, prio) && id in st.table && id' in st.table
    requires i < |st.table[id].waiting| && j < |st.table[id'].waiting|
    requires st.table[id].waiting[i] == st.table[id'].waiting[j]
    ensures id == id' && i == j
  {
    assert Waiters(st, id) && Waiters(st, id');
    var p := st.table[id].waiting[i];
    assert p in st.table[id].waiting && p in st.table[id'].waiting;
    assert Pair(i, j) && Pair(j, i);
  }

  // ----- what the calls do before the scheduler -----

  /** wait, on a count above MIN_COUNT. */
  function Waited(st: Sems, prio: nat -> int, id: int): Sems
    requires id in st.table && st.cpu.pid >= 0
  {
    var s, p := st.table[id], st.cpu.pid;
    if s.count - 1 >= 0 then st.(table := st.table[id := s.(count := s.count - 1)], signals := st.signals[p := 0])
    else Sems(st.cpu.(mode := st.cpu.mode[p := BLOCKEDSEMAPHORE]),
              st.table[id := Sem(s.count - 1, Joined(s.waiting, prio, p))], st.signals[p := 0], st.blockedOn[p := id],
              st.arrived[p := st.arrivals], st.arrivals + 1)
  }

  /** unblock_process_sem, when somebody waits. */
  function Unblocked(st: Sems, prio: nat -> int, id: int, code: int): Sems
    requires id in st.table && st.table[id].waiting != []
  {
    var s, p := st.table[id], st.table[id].waiting[0];
    Sems(st.cpu.(mode := st.cpu.mode[p := ACTIVATABLE], ready := Inserted<nat>(st.cpu.ready, prio, p)),
         st.table[id := s.(waiting := s.waiting[1..])], st.signals[p := code], st.blockedOn, st.arrived, st.arrivals)
  }

  function AllUnblocked(st: Sems, prio: nat -> int, id: int, code: int): (r: Sems)
    requires id in st.table
    ensures id in r.table && r.table[id] == Sem(st.table[id].count, [])
    decreases |st.table[id].waiting|
  {
    if st.table[id].waiting == [] then st else AllUnblocked(Unblocked(st, prio, id, code), prio, id, code)
  }

  /** signal, on a count below MAX_COUNT. */
  function Signalled(st: Sems, prio: nat -> int, id: int): (r: Sems)
    requires id in st.table
    ensures id in r.table
  {
    var s := st.table[id];
    var st' := st.(table := st.table[id := s.(count := s.count + 1)]);
    if s.count + 1 <= 0 && s.waiting != [] then Unblocked(st', prio, id, SIGNAL_CALL) else st'
  }

  function SignalledTimes(st: Sems, prio: nat -> int, id: int, n: nat): (r: Sems)
    requires id in st.table
    ensures id in r.table
    decreases n
  {
    if n == 0 then st else Signalled(SignalledTimes(st, prio, id, n - 1), prio, id)
  }

  function Rescheduled(st: Sems, prio: nat -> int): Sems {
    st.(cpu := Scheduled(st.cpu, prio))
  }

  // ----- what every call keeps -----

  /** The invariant, except that the count of semaphore id may not fit the length of its list. */
  ghost predicate SemOkBut(st: Sems, prio: nat -> int, id: int) {
    && Ok(st.cpu, prio) && Runnable(st.cpu) && NobodyTwice(st.cpu) && Runs(st.cpu) && Lines(st, prio)
    && (id in st.table ==> Listed(st, id))
    && forall other {:trigger Waiters(st, other)} :: other in st.table && other != id ==> Waiters(st, other)
  }

  ghost predicate NoneTwice(w: seq<nat>) {
    forall i, j {:trigger Pair(i, j)} :: Pair(i, j) && 0 <= i < j < |w| ==> w[i] != w[j]
  }

  ghost predicate Listed(st: Sems, id: int)
    requires id in st.table
  {
    NoneTwice(st.table[id].waiting) && forall p :: p in st.table[id].waiting ==> Sleeps(st, id, p)
  }

  lemma ButCount(st: Sems, prio: nat -> int, id: int)
    requires id in st.table
    ensures SemOk(st, prio) <==> SemOkBut(st, prio, id) && Counted(st.table[id])
  {
    if SemOkBut(st, prio, id) && Counted(st.table[id]) {
      forall other | other in st.table ensures Waiters(st, other) {
        if other == id {
          assert Listed(st, id);
        }
      }
    }
    if SemOk(st, prio) {
      assert Waiters(st, id);
    }
  }

  /** Nobody has come, and somebody may have left from the front. */
  ghost predicate Shrunk(st: Sems, st': Sems, id: int)
    requires id in st'.table
  {
    var w' := st'.table[id].waiting;
    w' == [] || (id in st.table && var w := st.table[id].waiting; w' == w || (w != [] && w' == w[1..]))
  }

  lemma LinesShrunk(st: Sems, st': Sems, prio: nat -> int)
    requires Lines(st, prio) && st'.arrived == st.arrived && st'.arrivals == st.arrivals
    requires forall id {:trigger Shrunk(st, st', id)} :: id in st'.table ==> Shrunk(st, st', id)
    ensures Lines(st', prio)
  {
    forall id | id in st'.table ensures Line(st', prio, id) {
      assert Shrunk(st, st', id);
      if st'.table[id].waiting != [] {
        assert Line(st, prio, id);
        if st'.table[id].waiting != st.table[id].waiting {
          HeadLeavesInLine(st.table[id].waiting, prio, ByArrival(st.arrived));
        }
      }
    }
  }

  lemma SameAges(w: seq<nat>, prio: nat -> int, age: nat -> int, age': nat -> int)
    requires InLine(w, prio, age) && forall q :: q in w ==> age'(q) == age(q)
    ensures InLine(w, prio, age')
  {
    forall i, j | 0 <= i < j < |w| ensures Before(w[i], w[j], prio, age') {
      assert Pair(i, j) && w[i] in w && w[j] in w;
    }
  }

  /** A process that waits nowhere joins one line. */
  lemma LinesJoined(st: Sems, prio: nat -> int, id: int)
    requires Lines(st, prio) && id in st.table && st.cpu.pid >= 0
    requires forall other :: other in st.table ==> st.cpu.pid !in st.table[other].waiting
    ensures Lines(Waited(st, prio, id), prio)
  {
    var st', p := Waited(st, prio, id), st.cpu.pid;
    forall other | other in st'.table ensures Line(st', prio, other) {
      assert Line(st, prio, other);
      SameAges(st.table[other].waiting, prio, ByArrival(st.arrived), ByArrival(st'.arrived));
      if other == id && st.table[id].count <= 0 {
        JoinedInLine(st.table[id].waiting, prio, ByArrival(st'.arrived), p);
      }
    }
  }

  /** A blocked process is nowhere else, so waking it up does not put it in two places. */
  lemma WokenOnce(c: Cpu, prio: nat -> int, p: nat)
    requires Runnable(c) && NobodyTwice(c) && p in c.mode && c.mode[p] == BLOCKEDSEMAPHORE
    ensures NobodyTwice(c.(mode := c.mode[p := ACTIVATABLE], ready := Inserted<nat>(c.ready, prio, p)))
  {
    InsertedMembers<nat>(c.ready, prio, p);
    var c' := c.(mode := c.mode[p := ACTIVATABLE], ready := Inserted<nat>(c.ready, prio, p));
    assert Running(c') == Running(c);
    assert p !in c.ready && p !in c.asleep && p !in Running(c);
    assert Everyone(c') == Everyone(c) + multiset{p};
    assert Everyone(c)[p] == 0;
    forall q ensures Everyone(c')[q] <= 1 {
      assert Everyone(c)[q] <= 1;
    }
  }

  lemma UnblockedOk(st: Sems, prio: nat -> int, id: int, code: int)
    requires id in st.table && st.table[id].waiting != [] && SemOkBut(st, prio, id)
    ensures SemOkBut(Unblocked(st, prio, id, code), prio, id)
  {
    var w, p := st.table[id].waiting, st.table[id].waiting[0];
    var st' := Unblocked(st, prio, id, code);
    assert p in w && Sleeps(st, id, p);
    InsertedSorted<nat>(st.cpu.ready, prio, p);
    InsertedMembers<nat>(st.cpu.ready, prio, p);
    WokenOnce(st.cpu, prio, p);
    forall q | q in w[1..] ensures Sleeps(st', id, q) {
      var i :| 0 <= i < |w| - 1 && w[1..][i] == q;
      assert Pair(0, i + 1) && q in w && Sleeps(st, id, q);
    }
    forall i, j | 0 <= i < j < |w| - 1 ensures w[1..][i] != w[1..][j] {
      assert Pair(i + 1, j + 1);
    }
    forall other | other in st'.table && other != id ensures Waiters(st', other) {
      assert Waiters(st, other);
      assert forall q :: q in st.table[other].waiting ==> Sleeps(st, other, q) && Sleeps(st', other, q);
    }
    LinesShrunk(st, st', prio);
  }

  lemma {:induction false} AllUnblockedOk(st: Sems, prio: nat -> int, id: int, code: int)
    requires id in st.table && SemOkBut(st, prio, id)
    ensures SemOkBut(AllUnblocked(st, prio, id, code), prio, id)
    decreases |st.table[id].waiting|
  {
    if st.table[id].waiting != [] {
      UnblockedOk(st, prio, id, code);
      AllUnblockedOk(Unblocked(st, prio, id, code), prio, id, code);
    }
  }

  lemma SignalledOk(st: Sems, prio: nat -> int, id: int)
    requires id in st.table && SemOk(st, prio) && st.table[id].count < MAX_COUNT
    ensures SemOk(Signalled(st, prio, id), prio)
    ensures Signalled(st, prio, id).table[id].count == st.table[id].count + 1
  {
    var s := st.table[id];
    var st' := st.(table := st.table[id := s.(count := s.count + 1)]);
    ButCount(st, prio, id);
    RecountOk(st, prio, id, s.count + 1);
    if s.waiting != [] {
      UnblockedOk(st', prio, id, SIGNAL_CALL);
      TailNoneTwice(s.waiting);
    }
    ButCount(Signalled(st, prio, id), prio, id);
  }

  lemma TailNoneTwice(w: seq<nat>)
    requires w != [] && NoneTwice(w)
    ensures NoneTwice(w[1..])
  {
    forall i, j | 0 <= i < j < |w| - 1 ensures w[1..][i] != w[1..][j] {
      assert Pair(i + 1, j + 1);
    }
  }

  lemma RecountOk(st: Sems, prio: nat -> int, id: int, count: int)
    requires id in st.table && SemOkBut(st, prio, id)
    ensures SemOkBut(st.(table := st.table[id := st.table[id].(count := count)]), prio, id)
  {
    var st' := st.(table := st.table[id := st.table[id].(count := count)]);
    forall other | other in st'.table && other != id ensures Waiters(st', other) {
      assert Waiters(st, other);
      assert forall q :: q in st.table[other].waiting ==> Sleeps(st, other, q) && Sleeps(st', other, q);
    }
    assert forall q :: q in st.table[id].waiting ==> Sleeps(st, id, q) && Sleeps(st', id, q);
    LinesShrunk(st, st', prio);
  }

  /** The scheduler does not touch the processes blocked on a semaphore. */
  ghost predicate SameBlocked(c: Cpu, c': Cpu) {
    forall p :: p in c.mode && c.mode[p] == BLOCKEDSEMAPHORE ==> p in c'.mode && c'.mode[p] == BLOCKEDSEMAPHORE
  }

  /** Everyone in a queue can run; so can the current process, unless it is about to be replaced. */
  ghost predicate AboutToSwitch(c: Cpu) {
    && (forall p :: p in c.ready ==> CanRun(c, p))
    && (forall p :: p in c.asleep ==> CanRun(c, p))
    && (c.pid >= 0 ==> CanRun(c, c.pid) || (c.started && c.ready != [] && c.pid in c.mode))
  }

  lemma {:induction false} AwokenRunnable(c: Cpu, prio: nat -> int)
    requires AboutToSwitch(c)
    ensures var c' := Awoken(c, prio);
      AboutToSwitch(c') && c' == c.(ready := c'.ready, asleep := c'.asleep)
    decreases |c.asleep|
  {
    if NextWakeTime(c) != 0 && c.clock > NextWakeTime(c) {
      InsertedMembers(c.ready, prio, Last(c.asleep));
      assert forall p :: p in ButLast(c.asleep) ==> p in c.asleep;
      assert Last(c.asleep) in c.asleep;
      AwokenRunnable(WokenOne(c, prio), prio);
    }
  }

  lemma SwitchedRunnable(d: Cpu)
    requires (forall p :: p in d.ready || p in d.asleep ==> CanRun(d, p)) && d.ready != []
    ensures Runnable(Switched(d)) && SameBlocked(d, Switched(d))
  {
    assert Last(d.ready) in d.ready;
    assert forall p :: p in ButLast(d.ready) ==> p in d.ready;
  }

  lemma SwappedRunnable(d: Cpu, prio: nat -> int)
    requires AboutToSwitch(d) && d.ready != [] && d.pid >= 0 && CanRun(d, d.pid)
    ensures Runnable(Swapped(d, prio)) && SameBlocked(d, Swapped(d, prio))
  {
    assert Last(d.ready) in d.ready;
    assert forall p :: p in ButLast(d.ready) ==> p in d.ready;
    InsertedMembers<nat>(ButLast(d.ready), prio, d.pid);
  }

  lemma ChosenRunnable(d: Cpu, prio: nat -> int)
    requires AboutToSwitch(d)
    ensures Runnable(Chosen(d, prio)) && SameBlocked(d, Chosen(d, prio))
  {
    if d.ready != [] {
      SwitchedRunnable(d);
      if d.pid >= 0 {
        SwitchedRunnable(d.(dead := Inserted<nat>(d.dead, prio, d.pid)));
        if CanRun(d, d.pid) {
          SwappedRunnable(d, prio);
        }
      }
    }
  }

  lemma ScheduledRunnable(c: Cpu, prio: nat -> int)
    requires Ok(c, prio) && AboutToSwitch(c)
    ensures Ok(Scheduled(c, prio), prio) && Runnable(Scheduled(c, prio)) && SameBlocked(c, Scheduled(c, prio))
  {
    AwokenRunnable(c, prio);
    AwokenOk(c, prio);
    var d := Awoken(c, prio).(dead := []);
    assert AboutToSwitch(d);
    ChosenOk(d, prio);
    ChosenRunnable(d, prio);
  }

  lemma RescheduledOk(st: Sems, prio: nat -> int)
    requires Ok(st.cpu, prio) && AboutToSwitch(st.cpu) && NobodyTwice(st.cpu)
    requires Lines(st, prio) && st.cpu.started && st.cpu.pid >= 0 && (st.cpu.ready != [] || st.cpu.mode[st.cpu.pid] == ACTIF)
    requires forall id {:trigger Waiters(st, id)} :: id in st.table ==> Waiters(st, id)
    ensures SemOk(Rescheduled(st, prio), prio)
  {
    ScheduledRunnable(st.cpu, prio);
    SomebodyRuns(st.cpu, prio);
    NobodyLost(st.cpu, prio);
    var st' := Rescheduled(st, prio);
    forall id | id in st'.table ensures Waiters(st', id) {
      assert Waiters(st, id);
      assert forall p :: p in st.table[id].waiting ==> Sleeps(st, id, p) && Sleeps(st', id, p);
    }
    LinesShrunk(st, st', prio);
  }

  lemma OneOfEveryone(c: Cpu)
    requires Runs(c) && NobodyTwice(c)
    ensures c.pid !in c.ready && c.pid !in c.asleep
  {
    assert Everyone(c)[c.pid] <= 1;
  }

  lemma WaitedWaiters(st: Sems, prio: nat -> int, id: int)
    requires SemOk(st, prio) && id in st.table && st.table[id].count > MIN_COUNT
    ensures var st' := Waited(st, prio, id); forall other {:trigger Waiters(st', other)} :: other in st'.table ==> Waiters(st', other)
  {
    var st', p, w := Waited(st, prio, id), st.cpu.pid, st.table[id].waiting;
    assert Waiters(st, id);
    JoinedMembers(w, prio, p);
    JoinedNoneTwice(w, prio, p);
    forall other | other in st'.table ensures Waiters(st', other) {
      assert Waiters(st, other);
      assert forall q :: q in st.table[other].waiting ==> Sleeps(st, other, q) && Sleeps(st', other, q);
    }
  }

  lemma NotInLine(st: Sems, prio: nat -> int)
    requires SemOk(st, prio)
    ensures forall other :: other in st.table ==> st.cpu.pid !in st.table[other].waiting
  {
    forall other | other in st.table ensures st.cpu.pid !in st.table[other].waiting {
      assert Waiters(st, other);
    }
  }

  /** The process that runs blocks; somebody else is ready, if only the idle process. */
  lemma WaitedOk(st: Sems, prio: nat -> int, id: int)
    requires SemOk(st, prio) && id in st.table && st.table[id].count > MIN_COUNT && st.cpu.ready != []
    ensures SemOk(Rescheduled(Waited(st, prio, id), prio), prio)
  {
    OneOfEveryone(st.cpu);
    WaitedWaiters(st, prio, id);
    NotInLine(st, prio);
    LinesJoined(st, prio, id);
    WaitedOnce(st.cpu, BLOCKEDSEMAPHORE);
    RescheduledOk(Waited(st, prio, id), prio);
  }

  lemma WaitedOnce(c: Cpu, m: Mode)
    requires NobodyTwice(c) && c.pid >= 0 && m != ACTIF
    ensures NobodyTwice(c.(mode := c.mode[c.pid := m]))
  {
    var c' := c.(mode := c.mode[c.pid := m]);
    forall q ensures Everyone(c')[q] <= 1 {
      assert Everyone(c)[q] <= 1;
    }
  }

  lemma JoinedNoneTwice(w: seq<nat>, prio: nat -> int, p: nat)
    requires p !in w ==> NoneTwice(w)
    ensures p !in w ==> NoneTwice(Joined(w, prio, p))
  {
    var u, at := Joined(w, prio, p), Place(w, prio, p);
    if p !in w {
      forall i, j | 0 <= i < j < |u| ensures u[i] != u[j] {
        assert Pair(if i < at then i else i - 1, if j < at then j else j - 1);
      }
    }
  }
}
