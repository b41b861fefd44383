/**
 Runs of semaphore calls (src/kernel/sync/semaphore_api.c:117-366): what every call keeps, what
 signaln amounts to, and which code each wait returns.
 */
module SemaphoreRuns {
  import opened Marks
  import opened QueueSpec
  import opened Scheduler
  import opened SchedulerRuns
  import opened Semaphores

  datatype Call =
    | Create(id: int, count: int)
    | Wait(id: int)
    | TryWait(id: int)
    | Signal(id: int)
    | SignalN(id: int, n: int)
    | Delete(id: int)
    | Reset(id: int, count: int)
    | Tick(ticks: nat)

  ghost function Deleted(st: Sems, prio: nat -> int, id: int): Sems
    requires id in st.table
  {
    var u := AllUnblocked(st, prio, id, SDELETE_CALL);
    u.(table := u.table - {id})
  }

  ghost function WasReset(st: Sems, prio: nat -> int, id: int, count: int): Sems
    requires id in st.table
  {
    var u := AllUnblocked(st, prio, id, SRESET_CALL);
    u.(table := u.table[id := Sem(Int16(count), [])])
  }

  /** What a call of the running process returns at once: the code of the source, or 0. */
  function Code(st: Sems, c: Call): int {
    if c.Create? then if c.count < 0 || |st.table.Keys| == NB_MAX_SEMS then -1 else 0
    else if c.Tick? then 0
    else if c.id !in st.table then -1
    else
      match c
      case Wait(id) => if st.table[id].count == MIN_COUNT then -2 else 0
      case TryWait(id) => if st.table[id].count > 0 then 0 else -3
      case Signal(id) => if st.table[id].count == MAX_COUNT then -2 else 0
      case SignalN(id, n) => if n < 0 then -1 else if st.table[id].count + n > MAX_COUNT then -2 else 0
      case Reset(id, count) => if count < 0 then -1 else 0
      case _ => 0
  }

  /** What a call that succeeds does before the scheduler is called. */
  ghost function Effect(st: Sems, c: Call, prio: nat -> int): Sems
    requires st.cpu.pid >= 0 && Code(st, c) >= 0
  {
    match c
    case Create(id, count) => st.(table := st.table[id := Sem(count, [])])
    case Tick(ticks) => st.(cpu := st.cpu.(clock := st.cpu.clock + ticks))
    case Wait(id) => Waited(st, prio, id)
    case TryWait(id) => st.(table := st.table[id := st.table[id].(count := st.table[id].count - 1)])
    case Signal(id) => Signalled(st, prio, id)
    case SignalN(id, n) => SignalledTimes(st, prio, id, n)
    case Delete(id) => Deleted(st, prio, id)
    case Reset(id, count) => WasReset(st, prio, id, count)
  }

  /** The state after a call of the running process, the scheduler included. */
  ghost function Do(st: Sems, c: Call, prio: nat -> int): Sems
    requires st.cpu.pid >= 0
  {
    if c.Wait? && Code(st, c) == -2 then st.(signals := st.signals[st.cpu.pid := 0])
    else if Code(st, c) < 0 then st
    else if c.Create? then Effect(st, c, prio)
    else Rescheduled(Effect(st, c, prio), prio)
  }

  /** Identifiers are not given out twice, and the idle process is there when somebody blocks. */
  ghost predicate Callable(st: Sems, c: Call) {
    match c
    case Create(id, count) => id !in st.table && count <= MAX_COUNT
    case Wait(_) => st.cpu.ready != []
    case Reset(_, count) => count < 0 || count % 65536 <= MAX_COUNT
    case _ => true
  }

  // ----- signaln -----

  /** One signal wakes the first process in line, if there is one. */
  lemma SignalledWakes(u: Sems, prio: nat -> int, id: int)
    requires id in u.table && SemOk(u, prio) && u.table[id].count < MAX_COUNT
    ensures var u', w := Signalled(u, prio, id), u.table[id].waiting;
      && SemOk(u', prio) && u'.table[id].count == u.table[id].count + 1
      && (w == [] ==> u'.table[id].waiting == [] && u'.cpu == u.cpu && u'.signals == u.signals)
      && (w != [] ==> u'.table[id].waiting == w[1..] && Admits(u, u', w[0]))
  {
    SignalledOk(u, prio, id);
    assert Waiters(u, id);
    if u.table[id].waiting != [] {
      InsertedMembers<nat>(u.cpu.ready, prio, u.table[id].waiting[0]);
    }
  }

  /** The call made p ready, woken by a signal; it did this to nobody else. */
  ghost predicate Admits(u: Sems, u': Sems, p: nat) {
    && |u'.cpu.ready| == |u.cpu.ready| + 1 && p in u'.cpu.ready && (forall q :: q in u.cpu.ready ==> q in u'.cpu.ready)
    && u'.signals == u.signals[p := SIGNAL_CALL]
  }

  ghost predicate AllAdmitted(st: Sems, st': Sems, w: seq<nat>) {
    && (forall q :: q in st.cpu.ready || q in w ==> q in st'.cpu.ready)
    && (forall q :: q in w ==> q in st'.signals && st'.signals[q] == SIGNAL_CALL)
    && |st'.cpu.ready| == |st.cpu.ready| + |w|
  }

  lemma AdmitMore(st: Sems, u: Sems, u': Sems, w: seq<nat>, k: nat)
    requires k < |w| && AllAdmitted(st, u, w[..k]) && Admits(u, u', w[k])
    ensures AllAdmitted(st, u', w[..k + 1])
  {
    assert w[..k + 1] == w[..k] + [w[k]];
    assert forall q :: q in w[..k + 1] <==> q in w[..k] || q == w[k];
  }

  lemma AdmitNoMore(st: Sems, u: Sems, u': Sems, w: seq<nat>)
    requires AllAdmitted(st, u, w[..|w|]) && u'.cpu == u.cpu && u'.signals == u.signals
    ensures AllAdmitted(st, u', w[..|w|])
  {
  }

  function Min(a: int, b: int): int {
    if a < b then a else b
  }

  /** n signals have been served: the first n processes in line are awake, or all of them, and the count is n higher. */
  ghost predicate Served(st: Sems, st': Sems, id: int, n: nat) {
    && id in st.table && id in st'.table
    && st'.table[id].count == st.table[id].count + n
    && st'.table[id].waiting == st.table[id].waiting[Min(n, |st.table[id].waiting|)..]
    && AllAdmitted(st, st', st.table[id].waiting[..Min(n, |st.table[id].waiting|)])
  }

  ghost predicate Serving(st: Sems, st': Sems, prio: nat -> int, id: int, n: nat) {
    SemOk(st', prio) && Served(st, st', id, n)
  }

  lemma ServedNone(st: Sems, prio: nat -> int, id: int)
    requires SemOk(st, prio) && id in st.table
    ensures Serving(st, st, prio, id, 0)
  {
  }

  lemma ServedNext(st: Sems, u: Sems, prio: nat -> int, id: int, n: nat)
    requires Serving(st, u, prio, id, n) && u.table[id].count < MAX_COUNT
    ensures Serving(st, Signalled(u, prio, id), prio, id, n + 1)
  {
    SignalledWakes(u, prio, id);
    OneMoreServed(st, u, Signalled(u, prio, id), id, n);
  }

  lemma OneMoreServed(st: Sems, u: Sems, u': Sems, id: int, n: nat)
    requires Served(st, u, id, n) && id in u'.table && u'.table[id].count == u.table[id].count + 1
    requires u.table[id].waiting == [] ==> u'.table[id].waiting == [] && u'.cpu == u.cpu && u'.signals == u.signals
    requires u.table[id].waiting != [] ==> u'.table[id].waiting == u.table[id].waiting[1..] && Admits(u, u', u.table[id].waiting[0])
    ensures Served(st, u', id, n + 1)
  {
    var w := st.table[id].waiting;
    if n < |w| {
      assert u.table[id].waiting[0] == w[n];
      assert w[n..][1..] == w[n + 1..];
      AdmitMore(st, u, u', w, n);
    } else {
      assert w[|w|..] == [];
      AdmitNoMore(st, u, u', w);
    }
  }

  /** signaln, to the extent that it does not overflow, serves all its signals. */
  lemma SignalledTimesServes(st: Sems, prio: nat -> int, id: int, n: nat)
    requires id in st.table && SemOk(st, prio) && st.table[id].count + n <= MAX_COUNT
    ensures SemOk(SignalledTimes(st, prio, id, n), prio) && Served(st, SignalledTimes(st, prio, id, n), id, n)
  {
    ServedTimes(st, prio, id, n);
  }

  lemma {:induction false} ServedTimes(st: Sems, prio: nat -> int, id: int, n: nat)
    requires id in st.table && SemOk(st, prio) && st.table[id].count + n <= MAX_COUNT
    ensures Serving(st, SignalledTimes(st, prio, id, n), prio, id, n)
  {
    if n == 0 {
      ServedNone(st, prio, id);
    } else {
      ServedTimes(st, prio, id, n - 1);
      var u := SignalledTimes(st, prio, id, n - 1);
      assert SignalledTimes(st, prio, id, n) == Signalled(u, prio, id);
      ServedNext(st, u, prio, id, n - 1);
    }
  }

  // ----- every call keeps the invariant -----

  lemma SemOkRescheduled(st: Sems, prio: nat -> int)
    requires SemOk(st, prio)
    ensures SemOk(Rescheduled(st, prio), prio)
  {
    RescheduledOk(st, prio);
  }

  lemma SetCountOk(st: Sems, prio: nat -> int, id: int, s: Sem)
    requires SemOk(st, prio) && Counted(s)
    requires id in st.table ==> s.waiting == st.table[id].waiting
    requires id !in st.table ==> s.waiting == []
    ensures SemOk(st.(table := st.table[id := s]), prio)
  {
    var st' := st.(table := st.table[id := s]);
    forall other | other in st'.table ensures Waiters(st', other) {
      if other in st.table {
        assert Waiters(st, other);
        assert forall q :: q in st.table[other].waiting ==> Sleeps(st, other, q) && Sleeps(st', other, q);
      }
    }
    LinesShrunk(st, st', prio);
  }

  lemma DeletedOk(st: Sems, prio: nat -> int, id: int)
    requires SemOk(st, prio) && id in st.table
    ensures SemOk(Deleted(st, prio, id), prio)
  {
    ButCount(st, prio, id);
    AllUnblockedOk(st, prio, id, SDELETE_CALL);
    var u, st' := AllUnblocked(st, prio, id, SDELETE_CALL), Deleted(st, prio, id);
    forall other | other in st'.table ensures Waiters(st', other) {
      assert Waiters(u, other);
      assert forall q :: q in u.table[other].waiting ==> Sleeps(u, other, q) && Sleeps(st', other, q);
    }
    LinesShrunk(u, st', prio);
  }

  /** sreset keeps the invariant exactly when its count does not turn negative in the 16-bit field. */
  lemma WasResetOkIff(st: Sems, prio: nat -> int, id: int, count: nat)
    requires SemOk(st, prio) && id in st.table
    ensures SemOk(WasReset(st, prio, id, count), prio) <==> count % 65536 <= MAX_COUNT
  {
    ButCount(st, prio, id);
    AllUnblockedOk(st, prio, id, SRESET_CALL);
    var u, st' := AllUnblocked(st, prio, id, SRESET_CALL), WasReset(st, prio, id, count);
    RecountOk(u, prio, id, Int16(count));
    assert st' == u.(table := u.table[id := u.table[id].(count := Int16(count))]);
    ButCount(st', prio, id);
    Int16NonNegative(count);
  }

  lemma Int16NonNegative(n: nat)
    ensures Int16(n) >= 0 <==> n % 65536 <= MAX_COUNT
  {
  }

  lemma CreatedOk(st: Sems, c: Call, prio: nat -> int)
    requires SemOk(st, prio) && Callable(st, c) && Code(st, c) >= 0 && c.Create?
    ensures SemOk(Effect(st, c, prio), prio)
  {
    SetCountOk(st, prio, c.id, Sem(c.count, []));
  }

  lemma TriedOk(st: Sems, c: Call, prio: nat -> int)
    requires SemOk(st, prio) && Code(st, c) >= 0 && c.TryWait?
    ensures SemOk(Effect(st, c, prio), prio)
  {
    CountedDownOk(st, prio, c.id);
  }

  lemma TickedOk(st: Sems, c: Call, prio: nat -> int)
    requires SemOk(st, prio) && c.Tick?
    ensures SemOk(Effect(st, c, prio), prio)
  {
    LaterSemOk(st, c.ticks, prio);
  }

  lemma CountedDownOk(st: Sems, prio: nat -> int, id: int)
    requires SemOk(st, prio) && id in st.table && st.table[id].count > 0
    ensures SemOk(st.(table := st.table[id := st.table[id].(count := st.table[id].count - 1)]), prio)
  {
    assert Waiters(st, id);
    SetCountOk(st, prio, id, st.table[id].(count := st.table[id].count - 1));
  }

  lemma EffectOk(st: Sems, c: Call, prio: nat -> int)
    requires SemOk(st, prio) && Callable(st, c) && Code(st, c) >= 0 && !c.Wait?
    ensures SemOk(Effect(st, c, prio), prio)
  {
    if c.Create? {
      CreatedOk(st, c, prio);
    } else if c.Tick? {
      TickedOk(st, c, prio);
    } else if c.TryWait? {
      TriedOk(st, c, prio);
    } else {
      assert Waiters(st, c.id);
      WakingEffectOk(st, c, prio);
    }
  }

  lemma WakingEffectOk(st: Sems, c: Call, prio: nat -> int)
    requires SemOk(st, prio) && Callable(st, c) && Code(st, c) >= 0 && (c.Signal? || c.SignalN? || c.Delete? || c.Reset?)
    requires Counted(st.table[c.id])
    ensures SemOk(Effect(st, c, prio), prio)
  {
    match c
    case Signal(id) => SignalledOk(st, prio, id);
    case SignalN(id, n) => SignalledTimesServes(st, prio, id, n);
    case Delete(id) => DeletedOk(st, prio, id);
    case Reset(id, count) => WasResetOkIff(st, prio, id, count);
    case _ =>
  }

  lemma DoKeeps(st: Sems, c: Call, prio: nat -> int)
    requires SemOk(st, prio) && Callable(st, c)
    ensures SemOk(Do(st, c, prio), prio)
  {
    if c.Wait? && c.id in st.table {
      assert Waiters(st, c.id);
    }
    if Code(st, c) < 0 {
      WokenCodeOk(st, prio);
    } else if c.Wait? {
      WaitedOk(st, prio, c.id);
    } else {
      EffectOk(st, c, prio);
      SemOkRescheduled(Effect(st, c, prio), prio);
    }
  }

  lemma WokenCodeOk(st: Sems, prio: nat -> int)
    requires SemOk(st, prio)
    ensures SemOk(st.(signals := st.signals[st.cpu.pid := 0]), prio)
  {
    var st' := st.(signals := st.signals[st.cpu.pid := 0]);
    forall id | id in st'.table ensures Waiters(st', id) {
      assert Waiters(st, id);
      assert forall q :: q in st.table[id].waiting ==> Sleeps(st, id, q) && Sleeps(st', id, q);
    }
    LinesShrunk(st, st', prio);
  }

  lemma LaterSemOk(st: Sems, ticks: nat, prio: nat -> int)
    requires SemOk(st, prio)
    ensures SemOk(st.(cpu := st.cpu.(clock := st.cpu.clock + ticks)), prio)
  {
    var st' := st.(cpu := st.cpu.(clock := st.cpu.clock + ticks));
    forall id | id in st'.table ensures Waiters(st', id) {
      assert Waiters(st, id);
      assert forall q :: q in st.table[id].waiting ==> Sleeps(st, id, q) && Sleeps(st', id, q);
    }
    LinesShrunk(st, st', prio);
    assert Everyone(st'.cpu) == Everyone(st.cpu);
    LaterOk(st.cpu, ticks, prio);
  }

  // ----- what a blocked wait returns -----

  ghost predicate WaitsOn(st: Sems, p: nat, id: int) {
    id in st.table && p in st.table[id].waiting
  }

  ghost predicate SameSignal(st: Sems, st': Sems, p: nat) {
    (p in st.signals <==> p in st'.signals) && (p in st.signals ==> st'.signals[p] == st.signals[p])
  }

  /** The code with which a call wakes the processes it wakes. */
  function WakingCode(c: Call): int {
    if c.Delete? then SDELETE_CALL else if c.Reset? then SRESET_CALL else SIGNAL_CALL
  }

  ghost predicate WokenWith(st: Sems, p: nat, code: int) {
    p in st.signals && st.signals[p] == code
  }

  lemma {:induction false} AllUnblockedSignals(st: Sems, prio: nat -> int, id: int, code: int, p: nat)
    requires id in st.table && NoneTwice(st.table[id].waiting)
    ensures var st' := AllUnblocked(st, prio, id, code);
      && (if WaitsOn(st, p, id) then WokenWith(st', p, code) else SameSignal(st, st', p))
      && st'.table == st.table[id := st'.table[id]]
    decreases |st.table[id].waiting|
  {
    var w := st.table[id].waiting;
    if w != [] {
      assert w == [w[0]] + w[1..];
      TailNoneTwice(w);
      HeadOnce(w);
      AllUnblockedSignals(Unblocked(st, prio, id, code), prio, id, code, p);
    }
  }

  lemma HeadOnce(w: seq<nat>)
    requires w != [] && NoneTwice(w)
    ensures w[0] !in w[1..]
  {
    forall j | 0 <= j < |w| - 1 ensures w[1..][j] != w[0] {
      assert Pair(0, j + 1);
    }
  }

  lemma SignalledSignals(st: Sems, prio: nat -> int, id: int, p: nat)
    requires id in st.table
    ensures var st' := Signalled(st, prio, id);
      && (SameSignal(st, st', p) || WokenWith(st', p, SIGNAL_CALL))
      && (WaitsOn(st, p, id) ==> WaitsOn(st', p, id) || WokenWith(st', p, SIGNAL_CALL))
      && (!WaitsOn(st, p, id) ==> !WaitsOn(st', p, id) && SameSignal(st, st', p))
      && st'.table == st.table[id := st'.table[id]]
  {
    var w := st.table[id].waiting;
    if w != [] {
      assert w == [w[0]] + w[1..];
    }
  }

  lemma {:induction false} SignalledTimesSignals(st: Sems, prio: nat -> int, id: int, n: nat, p: nat)
    requires id in st.table
    ensures var st' := SignalledTimes(st, prio, id, n);
      && (SameSignal(st, st', p) || WokenWith(st', p, SIGNAL_CALL))
      && (WaitsOn(st, p, id) ==> WaitsOn(st', p, id) || WokenWith(st', p, SIGNAL_CALL))
      && (!WaitsOn(st, p, id) ==> !WaitsOn(st', p, id) && SameSignal(st, st', p))
      && st'.table == st.table[id := st'.table[id]]
  {
    if n > 0 {
      SignalledTimesSignals(st, prio, id, n - 1, p);
      SignalledSignals(SignalledTimes(st, prio, id, n - 1), prio, id, p);
    }
  }

  lemma EffectOutcome(st: Sems, c: Call, prio: nat -> int, p: nat, id: int)
    requires SemOk(st, prio) && Callable(st, c) && WaitsOn(st, p, id) && Code(st, c) >= 0
    ensures WaitsOn(Effect(st, c, prio), p, id) || WokenWith(Effect(st, c, prio), p, WakingCode(c))
  {
    assert Waiters(st, id);
    match c
    case Wait(other) =>
      JoinedMembers(st.table[other].waiting, prio, st.cpu.pid);
    case Signal(other) =>
      SignalledSignals(st, prio, other, p);
    case SignalN(other, n) =>
      SignalledTimesSignals(st, prio, other, n, p);
    case Delete(other) =>
      assert Waiters(st, other);
      AllUnblockedSignals(st, prio, other, SDELETE_CALL, p);
    case Reset(other, count) =>
      assert Waiters(st, other);
      AllUnblockedSignals(st, prio, other, SRESET_CALL, p);
    case _ =>
  }

  /** A call of another process leaves p waiting, or wakes it with its own code. */
  lemma WaiterOutcome(st: Sems, c: Call, prio: nat -> int, p: nat, id: int)
    requires SemOk(st, prio) && Callable(st, c) && WaitsOn(st, p, id)
    ensures WaitsOn(Do(st, c, prio), p, id) || WokenWith(Do(st, c, prio), p, WakingCode(c))
  {
    if Code(st, c) >= 0 {
      EffectOutcome(st, c, prio, p, id);
    }
  }

  /** A process that neither runs nor waits keeps the code it was woken with. */
  lemma CodeKept(st: Sems, c: Call, prio: nat -> int, p: nat)
    requires SemOk(st, prio) && Callable(st, c) && p != st.cpu.pid && forall id :: !WaitsOn(st, p, id)
    ensures SameSignal(st, Do(st, c, prio), p)
  {
    if Code(st, c) >= 0 {
      match c
      case Wait(other) =>
        JoinedMembers(st.table[other].waiting, prio, st.cpu.pid);
      case Signal(other) =>
        SignalledSignals(st, prio, other, p);
      case SignalN(other, n) =>
        SignalledTimesSignals(st, prio, other, n, p);
      case Delete(other) =>
        assert Waiters(st, other);
        AllUnblockedSignals(st, prio, other, SDELETE_CALL, p);
      case Reset(other, count) =>
        assert Waiters(st, other);
        AllUnblockedSignals(st, prio, other, SRESET_CALL, p);
      case _ =>
    }
  }

  /** A run of calls during which p never gets the processor. */
  ghost predicate Without(st: Sems, cs: seq<Call>, p: nat, prio: nat -> int)
    requires SemOk(st, prio)
    decreases |cs|
  {
    cs == [] ||
    (Callable(st, cs[0]) && st.cpu.pid != p
     && SemOk(Do(st, cs[0], prio), prio) && Without(Do(st, cs[0], prio), cs[1..], p, prio))
  }

  ghost function Run(st: Sems, cs: seq<Call>, p: nat, prio: nat -> int): (r: Sems)
    requires SemOk(st, prio) && Without(st, cs, p, prio)
    ensures SemOk(r, prio)
    decreases |cs|
  {
    if cs == [] then st else Run(Do(st, cs[0], prio), cs[1..], p, prio)
  }

  datatype Waker = Nobody | By(c: Call)

  /** The first call of the run after which p does not wait on semaphore id any more. */
  ghost function WokenBy(st: Sems, cs: seq<Call>, p: nat, id: int, prio: nat -> int): Waker
    requires SemOk(st, prio) && Without(st, cs, p, prio)
    decreases |cs|
  {
    if cs == [] then Nobody
    else if !WaitsOn(Do(st, cs[0], prio), p, id) then By(cs[0])
    else WokenBy(Do(st, cs[0], prio), cs[1..], p, id, prio)
  }

  lemma {:induction false} CodeStays(st: Sems, cs: seq<Call>, p: nat, prio: nat -> int)
    requires SemOk(st, prio) && Without(st, cs, p, prio) && forall id :: !WaitsOn(st, p, id)
    ensures SameSignal(st, Run(st, cs, p, prio), p)
    decreases |cs|
  {
    if cs != [] {
      CodeKept(st, cs[0], prio, p);
      forall id | WaitsOn(Do(st, cs[0], prio), p, id) ensures WaitsOn(st, p, id) {
        StillThere(st, cs[0], prio, p, id);
      }
      CodeStays(Do(st, cs[0], prio), cs[1..], p, prio);
    }
  }

  lemma NotElsewhere(st: Sems, c: Call, prio: nat -> int, p: nat, id: int)
    requires SemOk(st, prio) && Callable(st, c) && p != st.cpu.pid && WaitsOn(st, p, id)
    requires !WaitsOn(Do(st, c, prio), p, id)
    ensures forall other :: !WaitsOn(Do(st, c, prio), p, other)
  {
    forall other | WaitsOn(Do(st, c, prio), p, other) ensures other == id {
      StillThere(st, c, prio, p, other);
      OneList(st, prio, p, id, other);
    }
  }

  lemma OneList(st: Sems, prio: nat -> int, p: nat, id: int, other: int)
    requires SemOk(st, prio) && WaitsOn(st, p, id) && WaitsOn(st, p, other)
    ensures id == other
  {
    assert Waiters(st, id) && Waiters(st, other);
    assert Sleeps(st, id, p) && Sleeps(st, other, p);
  }

  /** Only the running process can start to wait. */
  lemma StillThere(st: Sems, c: Call, prio: nat -> int, p: nat, id: int)
    requires SemOk(st, prio) && Callable(st, c) && p != st.cpu.pid && WaitsOn(Do(st, c, prio), p, id)
    ensures WaitsOn(st, p, id)
  {
    if Code(st, c) >= 0 {
      match c
      case Wait(other) =>
        JoinedMembers(st.table[other].waiting, prio, st.cpu.pid);
      case Signal(other) =>
        SignalledSignals(st, prio, other, p);
      case SignalN(other, n) =>
        SignalledTimesSignals(st, prio, other, n, p);
      case Delete(other) =>
        assert Waiters(st, other);
        AllUnblockedSignals(st, prio, other, SDELETE_CALL, p);
      case Reset(other, count) =>
        assert Waiters(st, other);
        AllUnblockedSignals(st, prio, other, SRESET_CALL, p);
      case _ =>
    }
  }

  /**
   When a process blocked in wait gets the processor back, the code it returns is that of the call
   that woke it - 0 for a signal, -3 for sdelete, -4 for sreset - whatever has happened since.
   */
  lemma {:induction false} WaitReturnsWakersCode(st: Sems, cs: seq<Call>, p: nat, id: int, prio: nat -> int)
    requires SemOk(st, prio) && Without(st, cs, p, prio) && WaitsOn(st, p, id)
    ensures match WokenBy(st, cs, p, id, prio)
      case Nobody => WaitsOn(Run(st, cs, p, prio), p, id)
      case By(c) => WokenWith(Run(st, cs, p, prio), p, if c.Delete? then -3 else if c.Reset? then -4 else 0)
    decreases |cs|
  {
    if cs != [] {
      var st' := Do(st, cs[0], prio);
      WaiterOutcome(st, cs[0], prio, p, id);
      if WaitsOn(st', p, id) {
        WaitReturnsWakersCode(st', cs[1..], p, id, prio);
      } else {
        NotElsewhere(st, cs[0], prio, p, id);
        CodeStays(st', cs[1..], p, prio);
      }
    }
  }

  // ----- the order in which waiters are woken -----

  lemma {:induction false} UnblockingArrivals(st: Sems, prio: nat -> int, id: int, code: int)
    requires id in st.table
    ensures AllUnblocked(st, prio, id, code).arrived == st.arrived
    decreases |st.table[id].waiting|
  {
    if st.table[id].waiting != [] {
      UnblockingArrivals(Unblocked(st, prio, id, code), prio, id, code);
    }
  }

  lemma {:induction false} SignallingArrivals(st: Sems, prio: nat -> int, id: int, n: nat)
    requires id in st.table
    ensures SignalledTimes(st, prio, id, n).arrived == st.arrived
  {
    if n > 0 {
      SignallingArrivals(st, prio, id, n - 1);
    }
  }

  /** Both wait on the semaphore; p is more important, or as important and older. */
  ghost predicate AheadOf(st: Sems, p: nat, q: nat, id: int, prio: nat -> int) {
    WaitsOn(st, p, id) && WaitsOn(st, q, id) && Before(p, q, prio, ByArrival(st.arrived))
  }

  /** signal wakes the waiter that is ahead of all the others. */
  lemma SignalWakesFirst(st: Sems, prio: nat -> int, id: int) returns (p: nat)
    requires id in st.table && SemOk(st, prio) && MIN_COUNT <= st.table[id].count < 0
    ensures WaitsOn(st, p, id) && forall q :: WaitsOn(st, q, id) && q != p ==> AheadOf(st, p, q, id, prio)
    ensures Admits(st, Signalled(st, prio, id), p)
    ensures forall q :: WaitsOn(st, q, id) ==> (WaitsOn(Signalled(st, prio, id), q, id) <==> q != p)
  {
    assert Waiters(st, id) && Line(st, prio, id);
    var w := st.table[id].waiting;
    p := w[0];
    SignalledWakes(st, prio, id);
    HeadOnce(w);
    assert w == [p] + w[1..];
    forall q | q in w && q != p ensures AheadOf(st, p, q, id, prio) {
      var j :| 0 <= j < |w| && w[j] == q;
      assert Pair(0, j);
    }
  }

  /** Whoever is ahead is in front. */
  lemma AheadInFront(w: seq<nat>, prio: nat -> int, age: nat -> int, p: nat, q: nat, k: nat)
    requires InLine(w, prio, age) && Before(p, q, prio, age) && q in w && k <= |w| && p in w[k..]
    ensures q in w[k..]
  {
    var i :| 0 <= i < |w| - k && w[k..][i] == p;
    var j :| 0 <= j < |w| && w[j] == q;
    assert Pair(j, k + i);
    assert j >= k ==> w[k..][j - k] == q;
  }

  lemma EffectStaysAhead(st: Sems, c: Call, prio: nat -> int, p: nat, q: nat, id: int)
    requires SemOk(st, prio) && Callable(st, c) && Code(st, c) >= 0 && AheadOf(st, p, q, id, prio) && WaitsOn(Effect(st, c, prio), p, id)
    ensures AheadOf(Effect(st, c, prio), p, q, id, prio)
  {
    assert Waiters(st, id) && Line(st, prio, id);
    match c
    case Wait(other) =>
      NotInLine(st, prio);
      JoinedMembers(st.table[other].waiting, prio, st.cpu.pid);
    case Signal(other) =>
      assert Waiters(st, other);
      SignalStaysAhead(st, prio, p, q, id, other, 1, Signalled(st, prio, other));
    case SignalN(other, n) =>
      SignalStaysAhead(st, prio, p, q, id, other, n, SignalledTimes(st, prio, other, n));
    case Delete(other) =>
      assert Waiters(st, other);
      UnblockingArrivals(st, prio, other, SDELETE_CALL);
      AllUnblockedSignals(st, prio, other, SDELETE_CALL, p);
    case Reset(other, count) =>
      assert Waiters(st, other);
      UnblockingArrivals(st, prio, other, SRESET_CALL);
      AllUnblockedSignals(st, prio, other, SRESET_CALL, p);
    case _ =>
  }

  lemma SignalStaysAhead(st: Sems, prio: nat -> int, p: nat, q: nat, id: int, other: int, n: nat, st': Sems)
    requires SemOk(st, prio) && other in st.table && st.table[other].count + n <= MAX_COUNT
    requires st' == SignalledTimes(st, prio, other, n) || (n == 1 && st' == Signalled(st, prio, other))
    requires AheadOf(st, p, q, id, prio) && WaitsOn(st', p, id)
    ensures AheadOf(st', p, q, id, prio)
  {
    assert n == 1 ==> SignalledTimes(st, prio, other, 0) == st;
    assert st' == SignalledTimes(st, prio, other, n);
    assert Line(st, prio, id);
    SignalledTimesSignals(st, prio, other, n, p);
    SignallingArrivals(st, prio, other, n);
    SignalledTimesServes(st, prio, other, n);
    AheadAfterSignals(st, st', prio, p, q, id, other, n);
  }

  /** As long as p waits on, a call does not wake anybody whom p is ahead of. */
  lemma StaysAhead(st: Sems, c: Call, prio: nat -> int, p: nat, q: nat, id: int)
    requires SemOk(st, prio) && Callable(st, c) && AheadOf(st, p, q, id, prio) && WaitsOn(Do(st, c, prio), p, id)
    ensures AheadOf(Do(st, c, prio), p, q, id, prio)
  {
    if Code(st, c) >= 0 {
      EffectStaysAhead(st, c, prio, p, q, id);
    }
  }

  lemma AheadAfterSignals(st: Sems, st': Sems, prio: nat -> int, p: nat, q: nat, id: int, other: int, n: nat)
    requires id in st.table && Line(st, prio, id) && AheadOf(st, p, q, id, prio) && WaitsOn(st', p, id) && Served(st, st', other, n)
    requires st'.table == st.table[other := st'.table[other]] && st'.arrived == st.arrived
    ensures AheadOf(st', p, q, id, prio)
  {
    if other == id {
      var w := st.table[id].waiting;
      AheadInFront(w, prio, ByArrival(st.arrived), p, q, Min(n, |w|));
    }
  }

  /**
   Nobody is overtaken, over whole runs: of two processes that wait on a semaphore, the one behind is
   not woken while the one ahead still waits.
   */
  lemma {:induction false} NobodyOvertakes(st: Sems, cs: seq<Call>, p: nat, q: nat, id: int, prio: nat -> int)
    requires SemOk(st, prio) && Without(st, cs, p, prio) && Without(st, cs, q, prio) && AheadOf(st, p, q, id, prio)
    requires WokenBy(st, cs, p, id, prio) == Nobody
    ensures WokenBy(st, cs, q, id, prio) == Nobody
    ensures AheadOf(Run(st, cs, p, prio), p, q, id, prio)
    decreases |cs|
  {
    if cs != [] {
      StaysAhead(st, cs[0], prio, p, q, id);
      NobodyOvertakes(Do(st, cs[0], prio), cs[1..], p, q, id, prio);
    }
  }
}
