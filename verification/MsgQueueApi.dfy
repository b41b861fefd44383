/**
 The message queue calls (src/kernel/sync/msgqueue.c:33-203) on a queue's own state: the ring, the
 two lists of blocked processes, and the kernel. What a call returns after it has blocked is read
 when the process runs again.
 */
module MsgQueueApi {
  import opened QueueSpec
  import opened Scheduler
  import opened SchedulerRuns
  import opened MsgQueues
  import opened MsgQueueRuns
  import opened Ring

  const SUCCES: int := 0
  const FAILURE: int := -1

  class MsgQueue {
    const kernel: Kernel
    const ring: MsgRing
    var blocked_cons: seq<nat>
    var blocked_prod: seq<nat>
    var boxes: map<nat, Box>      // the field `message` of every process

    ghost predicate Whole()
      reads this, ring, ring.msg_arr
    {
      ring.Valid()
    }

    ghost function View(): MQ
      requires Whole()
      reads this, kernel, ring, ring.msg_arr
    {
      MQ(kernel.View(), ring.size, ring.Buffer(), blocked_cons, blocked_prod, boxes)
    }

    ghost predicate Valid()
      reads this, kernel, ring, ring.msg_arr
    {
      Whole() && MqOk(View(), kernel.prio)
    }

    /** pcreate: an empty queue for a running system. */
    constructor (k: Kernel, count: nat, messages: map<nat, Box>)
      requires k.Valid() && Runs(k.View()) && NobodyTwice(k.View())
      ensures Valid() && kernel == k && fresh(ring) && fresh(ring.msg_arr) && k.View() == old(k.View())
      ensures View() == MQ(k.View(), count, [], [], [], messages) && Accounted(View(), Log([], [], [], 0))
    {
      kernel := k;
      ring := new MsgRing(count);
      blocked_cons, blocked_prod, boxes := [], [], messages;
      new;
      forall p ensures All(View())[p] <= 1 {
        assert Everyone(k.View())[p] <= 1;
      }
    }

    /** psend hands its message to the first blocked consumer. */
    method HandOver(message: int)
      requires Whole() && blocked_cons != []
      modifies this, kernel
      ensures Whole() && View() == HandedOver(old(View()), kernel.prio, message)
    {
      var blocked := Last(blocked_cons);
      blocked_cons := ButLast(blocked_cons);
      kernel.mode := kernel.mode[blocked := ACTIVATABLE];
      kernel.ready := Inserted<nat>(kernel.ready, kernel.prio, blocked);
      boxes := boxes[blocked := Box(message, RECEIVED)];
    }

    /** psend blocks. */
    method BlockSender(message: int)
      requires Whole() && kernel.pid >= 0
      modifies this, kernel
      ensures Whole() && View() == SenderBlocked(old(View()), kernel.prio, message)
    {
      var p: nat := kernel.pid;
      boxes := boxes[p := Box(message, BoxOf(boxes, p).status)];
      kernel.mode := kernel.mode[p := BLOCKEDQUEUE];
      blocked_prod := Inserted<nat>(blocked_prod, kernel.prio, p);
    }

    /** The call of the scheduler. */
    method Reschedule()
      requires Whole() && kernel.Valid()
      modifies kernel
      ensures Whole() && View() == Rescheduled(old(View()), kernel.prio)
    {
      kernel.Schedule();
    }

    /** psend, up to and including its call of the scheduler. */
    method Send(message: int)
      requires Valid() && (Blocks(View(), Call.Send(message)) ==> kernel.ready != [])
      modifies this, kernel, ring, ring.msg_arr
      ensures Valid() && View() == Do(old(View()), Call.Send(message), kernel.prio)
    {
      ghost var q, q' := View(), Do(View(), Call.Send(message), kernel.prio);
      SendCases(q, message, kernel.prio);
      var full := ring.IsFull();
      var empty := ring.IsEmpty();
      if empty && blocked_cons != [] {
        HandOver(message);
        Reschedule();
        assert View() == q';
      } else if full {
        BlockSender(message);
        Reschedule();
        assert View() == q';
      } else {
        ring.Add(message);
        assert View() == q';
      }
    }

    /** The rest of a psend that has blocked, when process p runs again. */
    method SendReturn(p: nat) returns (rc: int)
      ensures rc == if BoxOf(boxes, p).status == SENT then SUCCES else FAILURE
    {
      if BoxOf(boxes, p).status != SENT {
        return FAILURE;
      }
      rc := SUCCES;
    }

    /** preceive takes over the message of the first blocked producer. */
    method TakeOver() returns (message: int)
      requires Whole() && blocked_prod != []
      modifies this, kernel
      ensures Whole() && View() == TakenOver(old(View()), kernel.prio)
      ensures message == BoxOf(old(boxes), Last(old(blocked_prod))).value
    {
      var blocked := Last(blocked_prod);
      blocked_prod := ButLast(blocked_prod);
      message := BoxOf(boxes, blocked).value;
      boxes := boxes[blocked := Box(message, SENT)];
      kernel.ready := Inserted<nat>(kernel.ready, kernel.prio, blocked);
    }

    /** preceive blocks. */
    method BlockReceiver()
      requires Whole() && kernel.pid >= 0
      modifies this, kernel
      ensures Whole() && View() == ReceiverBlocked(old(View()), kernel.prio)
    {
      var p: nat := kernel.pid;
      kernel.mode := kernel.mode[p := BLOCKEDQUEUE];
      blocked_cons := Inserted<nat>(blocked_cons, kernel.prio, p);
    }

    /** preceive takes the oldest message, and the first blocked producer's message fills the gap. */
    method Refill() returns (message: int)
      requires Whole() && blocked_prod != [] && ring.Buffer() != []
      modifies this, kernel, ring, ring.msg_arr
      ensures Whole() && View() == Refilled(old(View()), kernel.prio)
      ensures message == old(ring.Buffer())[0]
    {
      message := ring.Pop();
      var blocked := Last(blocked_prod);
      blocked_prod := ButLast(blocked_prod);
      ring.Add(BoxOf(boxes, blocked).value);
      boxes := boxes[blocked := Box(BoxOf(boxes, blocked).value, SENT)];
      kernel.mode := kernel.mode[blocked := ACTIVATABLE];
      kernel.ready := Inserted<nat>(kernel.ready, kernel.prio, blocked);
    }

    /** preceive on an empty buffer. */
    method ReceiveDirectly() returns (message: int)
      requires Valid() && ring.Buffer() == [] && (blocked_prod == [] ==> kernel.ready != [])
      modifies this, kernel
      ensures Valid() && View() == Do(old(View()), Call.Receive, kernel.prio)
      ensures old(blocked_prod) != [] ==> message == BoxOf(old(boxes), Last(old(blocked_prod))).value
    {
      ReceiveCases(View(), kernel.prio);
      if blocked_prod != [] {
        message := TakeOver();
      } else {
        message := 0;
        BlockReceiver();
      }
      Reschedule();
    }

    /** preceive on a buffer with messages. */
    method ReceiveStored() returns (message: int)
      requires Valid() && ring.Buffer() != []
      modifies this, kernel, ring, ring.msg_arr
      ensures Valid() && View() == Do(old(View()), Call.Receive, kernel.prio)
      ensures message == old(ring.Buffer())[0]
    {
      ghost var q' := Do(View(), Call.Receive, kernel.prio);
      ReceiveCases(View(), kernel.prio);
      var full := ring.IsFull();
      if full && blocked_prod != [] {
        message := Refill();
        Reschedule();
      } else {
        message := ring.Pop();
      }
      assert View() == q';
    }

    /** preceive, up to and including its call of the scheduler. A call that does not block has its message. */
    method Receive() returns (message: int)
      requires Valid() && (Blocks(View(), Call.Receive) ==> kernel.ready != [])
      modifies this, kernel, ring, ring.msg_arr
      ensures Valid() && View() == Do(old(View()), Call.Receive, kernel.prio)
      ensures !Blocks(old(View()), Call.Receive) ==> Delivers(old(View()), Call.Receive) == [message]
    {
      var empty := ring.IsEmpty();
      if empty {
        message := ReceiveDirectly();
      } else {
        message := ReceiveStored();
      }
    }

    /** The rest of a preceive that has blocked, when process p runs again. */
    method ReceiveReturn(p: nat) returns (rc: int, message: int)
      ensures rc == if BoxOf(boxes, p).status == RECEIVED then SUCCES else FAILURE
      ensures rc == SUCCES ==> message == BoxOf(boxes, p).value
    {
      if BoxOf(boxes, p).status != RECEIVED {
        return FAILURE, 0;
      }
      return SUCCES, BoxOf(boxes, p).value;
    }

    /** pcount: the calls of psend minus those of preceive, since the queue was created or reset. */
    method PCount(ghost log: Log) returns (count: int)
      requires Valid() && Accounted(View(), log)
      ensures count == |log.sent| - log.receives
    {
      if blocked_cons != [] {
        count := -|blocked_cons|;
      } else {
        count := ring.number_of_msgs + |blocked_prod|;
      }
    }

    /** free_blocked_queue on the consumers, one round. */
    method FreeConsumer()
      requires Whole() && blocked_cons != []
      modifies this, kernel
      ensures Whole() && View() == ConsFreedOne(old(View()), kernel.prio)
    {
      var curr := Last(blocked_cons);
      blocked_cons := ButLast(blocked_cons);
      boxes := boxes[curr := Box(BoxOf(boxes, curr).value, ERROR)];
      kernel.mode := kernel.mode[curr := ACTIVATABLE];
      kernel.ready := Inserted<nat>(kernel.ready, kernel.prio, curr);
    }

    method FreeConsumers()
      requires Whole()
      modifies this, kernel
      ensures Whole() && View() == ConsFreed(old(View()), kernel.prio)
    {
      ghost var q := View();
      while blocked_cons != []
        invariant Whole() && ConsFreed(View(), kernel.prio) == ConsFreed(q, kernel.prio)
        decreases |blocked_cons|
      {
        FreeConsumer();
      }
    }

    /** free_blocked_queue on the producers, one round. */
    method FreeProducer()
      requires Whole() && blocked_prod != []
      modifies this, kernel
      ensures Whole() && View() == ProdFreedOne(old(View()), kernel.prio)
    {
      var curr := Last(blocked_prod);
      blocked_prod := ButLast(blocked_prod);
      boxes := boxes[curr := Box(BoxOf(boxes, curr).value, ERROR)];
      kernel.mode := kernel.mode[curr := ACTIVATABLE];
      kernel.ready := Inserted<nat>(kernel.ready, kernel.prio, curr);
    }

    method FreeProducers()
      requires Whole()
      modifies this, kernel
      ensures Whole() && View() == ProdFreed(old(View()), kernel.prio)
    {
      ghost var q := View();
      while blocked_prod != []
        invariant Whole() && ProdFreed(View(), kernel.prio) == ProdFreed(q, kernel.prio)
        decreases |blocked_prod|
      {
        FreeProducer();
      }
    }

    /** preset: the messages are abandoned, and everybody who is blocked wakes up with ERROR. */
    method Reset()
      requires Valid()
      modifies this, kernel, ring, ring.msg_arr
      ensures Valid() && View() == Do(old(View()), Call.Reset, kernel.prio)
      ensures View().buffer == [] && blocked_cons == [] && blocked_prod == []
    {
      ghost var q := View();
      MsgQueues.DoKeeps(q, Call.Reset, kernel.prio);
      ResetKeeps(q, kernel.prio);
      ring.Clear();
      FreeConsumers();
      FreeProducers();
      Reschedule();
    }

    /** pdelete, which frees the blocked processes in the same way; the queue itself is gone afterwards. */
    method Delete()
      requires Valid()
      modifies this, kernel
      ensures Whole() && blocked_cons == [] && blocked_prod == []
      ensures View() == Rescheduled(ProdFreed(ConsFreed(old(View()), kernel.prio), kernel.prio), kernel.prio)
    {
      ghost var q := View();
      ConsFreedKeeps(q, kernel.prio);
      ProdFreedKeeps(ConsFreed(q, kernel.prio), kernel.prio);
      FreeConsumers();
      FreeProducers();
      Reschedule();
    }
  }
}
