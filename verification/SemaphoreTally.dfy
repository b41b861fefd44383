/**
 What semaphores count (src/kernel/sync/semaphore_api.c:117-366): over every run of calls the count of a
 semaphore is its initial count plus the signals minus the waits, and no more processes are past their
 wait than it was created for.
 */
module SemaphoreTally {
  import opened Marks
  import opened QueueSpec
  import opened Scheduler
  import opened SchedulerRuns
  import opened Semaphores
  import opened SemaphoreRuns

  // ----- runs of calls -----

  ghost predicate CanRun(st: Sems, cs: seq<Call>, prio: nat -> int)
    requires SemOk(st, prio)
    decreases |cs|
  {
    cs == [] ||
    (Callable(st, cs[0]) && SemOk(Do(st, cs[0], prio), prio) && CanRun(Do(st, cs[0], prio), cs[1..], prio))
  }

  ghost function RunAll(st: Sems, cs: seq<Call>, prio: nat -> int): (r: Sems)
    requires SemOk(st, prio) && CanRun(st, cs, prio)
    ensures SemOk(r, prio)
    decreases |cs|
  {
    if cs == [] then st else RunAll(Do(st, cs[0], prio), cs[1..], prio)
  }

  // ----- the accounts -----

  /** Since the semaphore was created or reset: its count then, and the signals and waits that were not refused. */
  datatype Tally = Tally(initial: int, signals: nat, waits: nat)

  /** The accounts after one more call, whatever the call does to the semaphores. */
  function Noted(t: map<int, Tally>, st: Sems, c: Call): map<int, Tally>
    requires t.Keys == st.table.Keys
  {
    if Code(st, c) < 0 then t
    else
      match c
      case Create(id, count) => t[id := Tally(count, 0, 0)]
      case Reset(id, count) => t[id := Tally(count % 65536, 0, 0)]
      case Delete(id) => t - {id}
      case Signal(id) => t[id := t[id].(signals := t[id].signals + 1)]
      case SignalN(id, n) => t[id := t[id].(signals := t[id].signals + n)]
      case Wait(id) => t[id := t[id].(waits := t[id].waits + 1)]
      case TryWait(id) => t[id := t[id].(waits := t[id].waits + 1)]
      case Tick(_) => t
  }

  /** The accounts are right, for every semaphore there is. */
  ghost predicate Accounted(st: Sems, t: map<int, Tally>) {
    && t.Keys == st.table.Keys
    && forall id {:trigger t[id]} :: id in t ==> st.table[id].count == t[id].initial + t[id].signals - t[id].waits
  }

  /** Nothing but the entry of semaphore id changes in the table, and its count becomes n. */
  ghost predicate Counts(st: Sems, st': Sems, id: int, n: int) {
    && id in st.table && st'.table.Keys == st.table.Keys && st'.table[id].count == n
    && forall other :: other in st.table && other != id ==> st'.table[other] == st.table[other]
  }

  lemma SignalledCounts(st: Sems, prio: nat -> int, id: int, n: nat)
    requires SemOk(st, prio) && id in st.table && st.table[id].count + n <= MAX_COUNT
    ensures Counts(st, SignalledTimes(st, prio, id, n), id, st.table[id].count + n)
  {
    SignalledTimesServes(st, prio, id, n);
    SignalledTimesSignals(st, prio, id, n, 0);
  }

  lemma SignalIsOne(st: Sems, prio: nat -> int, id: int)
    requires id in st.table
    ensures Signalled(st, prio, id) == SignalledTimes(st, prio, id, 1)
  {
    assert SignalledTimes(st, prio, id, 0) == st;
  }

  lemma {:induction false} UnblockedCounts(st: Sems, prio: nat -> int, id: int, code: int)
    requires id in st.table
    ensures Counts(st, AllUnblocked(st, prio, id, code), id, st.table[id].count)
    decreases |st.table[id].waiting|
  {
    if st.table[id].waiting != [] {
      UnblockedCounts(Unblocked(st, prio, id, code), prio, id, code);
    }
  }

  lemma SameWithout(m: map<int, Sem>, m': map<int, Sem>, id: int)
    requires m.Keys == m'.Keys && forall other :: other in m && other != id ==> m'[other] == m[other]
    ensures m' - {id} == m - {id}
  {
  }

  /** What a call that is not refused does to the counts. */
  ghost predicate Recounted(st: Sems, c: Call, st': Sems) {
    match c
    case Create(id, count) => st'.table == st.table[id := Sem(count, [])]
    case Reset(id, count) => Counts(st, st', id, count % 65536)
    case Delete(id) => st'.table == st.table - {id}
    case Signal(id) => id in st.table && Counts(st, st', id, st.table[id].count + 1)
    case SignalN(id, n) => id in st.table && Counts(st, st', id, st.table[id].count + n)
    case Wait(id) => id in st.table && Counts(st, st', id, st.table[id].count - 1)
    case TryWait(id) => id in st.table && Counts(st, st', id, st.table[id].count - 1)
    case Tick(_) => st'.table == st.table
  }

  lemma EffectCounts(st: Sems, c: Call, prio: nat -> int)
    requires SemOk(st, prio) && Callable(st, c) && Code(st, c) >= 0
    ensures Recounted(st, c, Effect(st, c, prio))
  {
    match c
    case Reset(id, count) => UnblockedCounts(st, prio, id, SRESET_CALL);
    case Delete(id) => DeletedCounts(st, prio, id);
    case Signal(id) => OneSignalCounts(st, prio, id);
    case SignalN(id, n) => SignalledCounts(st, prio, id, n);
    case _ =>
  }

  lemma DeletedCounts(st: Sems, prio: nat -> int, id: int)
    requires id in st.table
    ensures Deleted(st, prio, id).table == st.table - {id}
  {
    UnblockedCounts(st, prio, id, SDELETE_CALL);
    SameWithout(st.table, AllUnblocked(st, prio, id, SDELETE_CALL).table, id);
  }

  lemma OneSignalCounts(st: Sems, prio: nat -> int, id: int)
    requires SemOk(st, prio) && id in st.table && st.table[id].count != MAX_COUNT
    ensures Counts(st, Signalled(st, prio, id), id, st.table[id].count + 1)
  {
    assert Waiters(st, id);
    SignalIsOne(st, prio, id);
    SignalledCounts(st, prio, id, 1);
  }

  lemma DoTable(st: Sems, c: Call, prio: nat -> int)
    requires SemOk(st, prio)
    ensures Do(st, c, prio).table == if Code(st, c) < 0 then st.table else Effect(st, c, prio).table
  {
  }

  /** One call keeps the accounts right. */
  lemma CallAccounted(st: Sems, t: map<int, Tally>, c: Call, prio: nat -> int)
    requires SemOk(st, prio) && Callable(st, c) && Accounted(st, t)
    ensures Accounted(Do(st, c, prio), Noted(t, st, c))
  {
    DoTable(st, c, prio);
    if Code(st, c) >= 0 {
      EffectCounts(st, c, prio);
      NotedRight(st, t, c, Effect(st, c, prio));
    }
  }

  lemma NotedRight(st: Sems, t: map<int, Tally>, c: Call, st': Sems)
    requires Accounted(st, t) && Code(st, c) >= 0 && Recounted(st, c, st')
    ensures Accounted(st', Noted(t, st, c))
  {
  }

  ghost function RunNoted(t: map<int, Tally>, st: Sems, cs: seq<Call>, prio: nat -> int): map<int, Tally>
    requires SemOk(st, prio) && CanRun(st, cs, prio) && Accounted(st, t)
    decreases |cs|
  {
    if cs == [] then t
    else
      CallAccounted(st, t, cs[0], prio);
      RunNoted(Noted(t, st, cs[0]), Do(st, cs[0], prio), cs[1..], prio)
  }

  /**
   Over every run of calls, for every semaphore: the count is the initial one plus the signals that were
   not refused minus the waits and try_waits that were not, since it was created or reset.
   */
  lemma {:induction false} CountIsBalance(st: Sems, t: map<int, Tally>, cs: seq<Call>, prio: nat -> int)
    requires SemOk(st, prio) && CanRun(st, cs, prio) && Accounted(st, t)
    ensures Accounted(RunAll(st, cs, prio), RunNoted(t, st, cs, prio))
    decreases |cs|
  {
    if cs != [] {
      CallAccounted(st, t, cs[0], prio);
      CountIsBalance(Do(st, cs[0], prio), Noted(t, st, cs[0]), cs[1..], prio);
    }
  }

  // ----- who blocks -----

  /** wait blocks the caller, and nobody else, exactly if the count is not positive; it is refused exactly at -32768. */
  lemma WaitBlocksIff(st: Sems, id: int, prio: nat -> int)
    requires SemOk(st, prio) && id in st.table && st.cpu.ready != []
    ensures Code(st, Wait(id)) < 0 <==> st.table[id].count == -32768
    ensures WaitsOn(Do(st, Wait(id), prio), st.cpu.pid, id) <==> -32768 < st.table[id].count <= 0
    ensures forall q :: q != st.cpu.pid ==> (WaitsOn(Do(st, Wait(id), prio), q, id) <==> WaitsOn(st, q, id))
  {
    assert Waiters(st, id);
    PidNotWaiting(st, id, prio);
    JoinedMembers(st.table[id].waiting, prio, st.cpu.pid);
  }

  lemma PidNotWaiting(st: Sems, id: int, prio: nat -> int)
    requires SemOk(st, prio) && id in st.table
    ensures !WaitsOn(st, st.cpu.pid, id)
  {
    assert Waiters(st, id);
    assert WaitsOn(st, st.cpu.pid, id) ==> Sleeps(st, id, st.cpu.pid);
  }

  /** try_wait succeeds exactly when wait would not block, and then does the same to the semaphores. */
  lemma TryWaitIff(st: Sems, id: int, prio: nat -> int)
    requires SemOk(st, prio) && id in st.table && st.cpu.ready != []
    ensures Code(st, TryWait(id)) >= 0 <==> Code(st, Wait(id)) >= 0 && !WaitsOn(Do(st, Wait(id), prio), st.cpu.pid, id)
    ensures Code(st, TryWait(id)) >= 0 ==> Do(st, TryWait(id), prio).table == Do(st, Wait(id), prio).table
  {
    WaitBlocksIff(st, id, prio);
  }

  /** signal and signaln are refused exactly if the count would exceed 32767. */
  lemma SignalRefusedIff(st: Sems, id: int, n: nat)
    requires id in st.table && st.table[id].count <= MAX_COUNT
    ensures Code(st, Signal(id)) < 0 <==> st.table[id].count + 1 > 32767
    ensures Code(st, SignalN(id, n)) < 0 <==> st.table[id].count + n > 32767
  {
  }

  /** What the codes mean: -1 a bad argument, -2 a count that would not fit 16 bits, -3 that the caller would block. */
  lemma CodeMeans(st: Sems, c: Call)
    requires !c.Create? && !c.Tick? && (c.id in st.table ==> Counted(st.table[c.id]))
    ensures Code(st, c) == -1 <==> c.id !in st.table || (c.SignalN? && c.n < 0) || (c.Reset? && c.count < 0)
    ensures Code(st, c) == -2 <==>
      (&& c.id in st.table
       && ((c.Wait? && st.table[c.id].count - 1 < -32768) || (c.Signal? && st.table[c.id].count + 1 > 32767)
           || (c.SignalN? && c.n >= 0 && st.table[c.id].count + c.n > 32767)))
    ensures Code(st, c) == -3 <==> c.id in st.table && c.TryWait? && st.table[c.id].count <= 0
    ensures -3 <= Code(st, c) <= 0
  {
  }

  // ----- mutual exclusion -----

  /** The processes that the call lets past semaphore id: the caller of a wait that does not block, those that a signal wakes. */
  ghost function Entering(st: Sems, c: Call, id: int, prio: nat -> int): multiset<nat>
    requires SemOk(st, prio) && id in st.table && id in Do(st, c, prio).table
  {
    if Code(st, c) < 0 then multiset{}
    else if c == Wait(id) || c == TryWait(id) then
      if WaitsOn(Do(st, c, prio), st.cpu.pid, id) then multiset{} else multiset{st.cpu.pid as nat}
    else multiset(st.table[id].waiting) - multiset(Do(st, c, prio).table[id].waiting)
  }

  /** How many signals the caller gives. */
  function Given(st: Sems, c: Call, id: int): nat {
    if Code(st, c) < 0 then 0
    else if c == Signal(id) then 1
    else if c.SignalN? && c.id == id then if c.n < 0 then 0 else c.n
    else 0
  }

  /** Whoever signals has waited before, as often; the semaphore is neither deleted nor reset. */
  ghost predicate Disciplined(st: Sems, h: multiset<nat>, c: Call, id: int)
    requires st.cpu.pid >= 0
  {
    h[st.cpu.pid as nat] >= Given(st, c, id) && !(c.Delete? && c.id == id) && !(c.Reset? && c.id == id)
  }

  /** The processes past their wait, once for every wait, after the call. */
  ghost function Holding(h: multiset<nat>, st: Sems, c: Call, id: int, prio: nat -> int): multiset<nat>
    requires SemOk(st, prio) && Disciplined(st, h, c, id) && id in st.table && id in Do(st, c, prio).table
  {
    var p := st.cpu.pid as nat;
    h[p := h[p] - Given(st, c, id)] + Entering(st, c, id, prio)
  }

  function Positive(n: int): nat {
    if n > 0 then n else 0
  }

  lemma Fewer(h: multiset<nat>, p: nat, n: nat)
    requires n <= h[p]
    ensures |h[p := h[p] - n]| == |h| - n
  {
    assert h == h[p := h[p] - n] + multiset{}[p := n];
  }

  lemma SuffixLeft(w: seq<nat>, k: nat)
    requires k <= |w|
    ensures multiset(w) - multiset(w[k..]) == multiset(w[..k]) && |multiset(w[..k])| == k
  {
    assert w == w[..k] + w[k..];
  }

  /** n signals let the first n waiters in. */
  lemma SignalsEnter(st: Sems, id: int, prio: nat -> int, n: nat)
    requires SemOk(st, prio) && id in st.table && st.table[id].count + n <= MAX_COUNT
    ensures var st' := SignalledTimes(st, prio, id, n);
      && id in st'.table && st'.table[id].count == st.table[id].count + n
      && |multiset(st.table[id].waiting) - multiset(st'.table[id].waiting)| == Positive(-st.table[id].count) - Positive(-st.table[id].count - n)
  {
    assert Waiters(st, id);
    var w := st.table[id].waiting;
    SignalledTimesServes(st, prio, id, n);
    SuffixLeft(w, Min(n, |w|));
  }

  lemma WaitEnters(st: Sems, c: Call, id: int, prio: nat -> int)
    requires SemOk(st, prio) && Callable(st, c) && id in st.table && (c == Wait(id) || c == TryWait(id)) && Code(st, c) >= 0
    ensures id in Do(st, c, prio).table && Do(st, c, prio).table[id].count == st.table[id].count - 1
    ensures |Entering(st, c, id, prio)| == if st.table[id].count > 0 then 1 else 0
  {
    DoTable(st, c, prio);
    PidNotWaiting(st, id, prio);
    if c.Wait? {
      WaitBlocksIff(st, id, prio);
    }
  }

  lemma OthersEnter(st: Sems, c: Call, id: int, prio: nat -> int)
    requires SemOk(st, prio) && Callable(st, c) && id in st.table && Code(st, c) >= 0 && (c.Create? || c.Tick? || c.id != id)
    ensures id in Do(st, c, prio).table && Do(st, c, prio).table[id] == st.table[id] && Entering(st, c, id, prio) == multiset{}
  {
    DoTable(st, c, prio);
    EffectCounts(st, c, prio);
  }

  lemma SignalEnters(st: Sems, c: Call, id: int, prio: nat -> int)
    requires SemOk(st, prio) && id in st.table && (c == Signal(id) || (c.SignalN? && c.id == id)) && Code(st, c) >= 0
    ensures id in Do(st, c, prio).table && Do(st, c, prio).table[id].count == st.table[id].count + Given(st, c, id)
    ensures |Entering(st, c, id, prio)| == Positive(-st.table[id].count) - Positive(-st.table[id].count - Given(st, c, id))
  {
    DoTable(st, c, prio);
    assert Waiters(st, id);
    SignalIsOne(st, prio, id);
    SignalsEnter(st, id, prio, Given(st, c, id));
  }

  /** How many come in, against the change of the count. */
  lemma EnteringIs(st: Sems, c: Call, id: int, prio: nat -> int)
    requires SemOk(st, prio) && Callable(st, c) && id in st.table && !(c.Delete? && c.id == id) && !(c.Reset? && c.id == id)
    ensures id in Do(st, c, prio).table
    ensures |Entering(st, c, id, prio)| ==
            Given(st, c, id) + Positive(st.table[id].count) - Positive(Do(st, c, prio).table[id].count)
  {
    if Code(st, c) < 0 {
      DoTable(st, c, prio);
    } else if c.Create? || c.Tick? || c.id != id {
      OthersEnter(st, c, id, prio);
    } else if c.Signal? || c.SignalN? {
      SignalEnters(st, c, id, prio);
    } else {
      WaitEnters(st, c, id, prio);
    }
  }

  /** A call on the semaphore, or on another one: as many are past it as the count has been lowered below its initial value. */
  lemma CallHolds(st: Sems, h: multiset<nat>, c: Call, id: int, prio: nat -> int, initial: nat)
    requires SemOk(st, prio) && Callable(st, c) && id in st.table && Disciplined(st, h, c, id)
    requires |h| + Positive(st.table[id].count) == initial
    ensures id in Do(st, c, prio).table
    ensures |Holding(h, st, c, id, prio)| + Positive(Do(st, c, prio).table[id].count) == initial
  {
    Fewer(h, st.cpu.pid, Given(st, c, id));
    EnteringIs(st, c, id, prio);
  }

  ghost predicate AllDisciplined(st: Sems, h: multiset<nat>, cs: seq<Call>, id: int, prio: nat -> int)
    requires SemOk(st, prio) && CanRun(st, cs, prio)
    decreases |cs|
  {
    cs == [] ||
    (&& id in st.table && Disciplined(st, h, cs[0], id) && id in Do(st, cs[0], prio).table
     && AllDisciplined(Do(st, cs[0], prio), Holding(h, st, cs[0], id, prio), cs[1..], id, prio))
  }

  /** The processes past their wait after a run. */
  ghost function Holders(st: Sems, h: multiset<nat>, cs: seq<Call>, id: int, prio: nat -> int): multiset<nat>
    requires SemOk(st, prio) && CanRun(st, cs, prio) && AllDisciplined(st, h, cs, id, prio)
    decreases |cs|
  {
    if cs == [] then h else Holders(Do(st, cs[0], prio), Holding(h, st, cs[0], id, prio), cs[1..], id, prio)
  }

  /** Over every disciplined run of calls, a semaphore created with count n never has more than n processes past it. */
  lemma {:induction false} AtMostInitial(st: Sems, h: multiset<nat>, cs: seq<Call>, id: int, prio: nat -> int, initial: nat)
    requires SemOk(st, prio) && CanRun(st, cs, prio) && id in st.table && AllDisciplined(st, h, cs, id, prio)
    requires |h| + Positive(st.table[id].count) == initial
    ensures |Holders(st, h, cs, id, prio)| <= initial
    decreases |cs|
  {
    if cs != [] {
      CallHolds(st, h, cs[0], id, prio, initial);
      AtMostInitial(Do(st, cs[0], prio), Holding(h, st, cs[0], id, prio), cs[1..], id, prio, initial);
    }
  }

  /** With an initial count of 1, two processes are never past it at the same time. */
  lemma MutualExclusion(st: Sems, cs: seq<Call>, id: int, prio: nat -> int, p: nat, q: nat)
    requires SemOk(st, prio) && CanRun(st, cs, prio) && id in st.table && st.table[id].count == 1
    requires AllDisciplined(st, multiset{}, cs, id, prio)
    requires p in Holders(st, multiset{}, cs, id, prio) && q in Holders(st, multiset{}, cs, id, prio)
    ensures p == q && Holders(st, multiset{}, cs, id, prio)[p] == 1
  {
    AtMostInitial(st, multiset{}, cs, id, prio, 1);
    var h := Holders(st, multiset{}, cs, id, prio);
    assert |h - multiset{p}| == |h| - 1;
  }
}
