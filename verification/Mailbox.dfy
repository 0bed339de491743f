/** Mailboxes in the form of ipc.c: words in a fixed array between two offsets that wrap,
    an entry count and two lists of suspended threads, updated in place. */
module MailboxObject {
  import opened Lists
  import opened IpcList
  import S = MailboxSpec

  datatype Result = Done(value: int) | Refused | Waiting

  class Mailbox {
    const size: nat
    const flag: Flag
    const pool: array<int>
    var inOffset: nat
    var outOffset: nat
    var entry: nat
    var receivers: seq<Waiter<()>>
    var senders: seq<Waiter<int>>
    ghost var m: S.Mailbox

    /** The array position of the `k`-th stored word. */
    ghost function Slot(k: nat): int
      reads this
    {
      if outOffset + k < size then outOffset + k else outOffset + k - size
    }

    /** The array holds the words of the abstract queue, from outOffset on. */
    ghost predicate Holds(queue: seq<int>)
      reads this, pool
    {
      && pool.Length == size && entry == |queue| <= size
      && (if size == 0 then inOffset == outOffset == 0 else outOffset < size && inOffset == Slot(entry))
      && forall k :: 0 <= k < |queue| ==> pool[Slot(k)] == queue[k]
    }

    ghost predicate Linked()
      reads this, pool
    {
      m.size == size && m.flag == flag && receivers == m.receivers && senders == m.senders && Holds(m.queue)
    }

    ghost predicate Valid()
      reads this, pool
    {
      Linked() && S.Inv(m)
    }

    constructor (capacity: nat, order: Flag)
      ensures Valid() && fresh(pool) && m == S.Init(capacity, order)
    {
      size, flag := capacity, order;
      pool := new int[capacity];
      inOffset, outOffset, entry := 0, 0, 0;
      receivers, senders := [], [];
      m := S.Init(capacity, order);
    }

    /** The store of rt_mb_send_wait. */
    method Put(value: int, ghost queue: seq<int>)
      requires Holds(queue) && entry < size
      modifies pool, this`inOffset, this`entry
      ensures Holds(queue + [value])
    {
      pool[inOffset] := value;
      inOffset := inOffset + 1;
      if inOffset >= size { inOffset := 0; }
      entry := entry + 1;
    }

    /** The fetch of rt_mb_recv. */
    method Get(ghost queue: seq<int>) returns (value: int)
      requires Holds(queue) && entry > 0
      modifies this`outOffset, this`entry
      ensures value == queue[0] && Holds(queue[1..])
    {
      value := pool[outOffset];
      assert pool[Slot(0)] == queue[0];
      outOffset := outOffset + 1;
      if outOffset >= size { outOffset := 0; }
      entry := entry - 1;
      forall k | 0 <= k < |queue| - 1
        ensures Slot(k) == old(Slot(k + 1)) && pool[Slot(k)] == queue[1..][k]
      {
        assert pool[old(Slot(k + 1))] == queue[k + 1];
      }
    }

    /** rt_mb_send_wait from a point with interrupts off to the next with interrupts on. */
    method SendPass(t: nat, priority: nat, value: int, wait: bool, ghost woken: bool)
        returns (r: Result, resumed: Option<nat>)
      requires Linked() && S.Running(m, t, false, woken)
      modifies this`inOffset, this`entry, this`receivers, this`senders, this`m, pool
      ensures Valid() && m == S.Send(old(m), t, priority, value, wait)
      ensures r == if |old(m).queue| < size then Done(value) else if wait then Waiting else Refused
      ensures resumed == if r.Done? && old(m).receivers != [] then Some(old(m).receivers[0].thread) else None
    {
      hide S.Inv, S.Running, Enqueue;
      resumed := None;
      S.SendInv(m, t, priority, value, wait, woken);
      if entry == size {
        if !wait { return Refused, None; }
        senders := Suspend(senders, Waiter(t, priority, value), flag);
        m := S.Send(m, t, priority, value, wait);
        return Waiting, None;
      }
      Put(value, m.queue);
      if receivers != [] {
        resumed := Some(receivers[0].thread);
        receivers := receivers[1..];
      }
      m := S.Send(m, t, priority, value, wait);
      r := Done(value);
    }

    /** rt_mb_recv, likewise. */
    method RecvPass(t: nat, priority: nat, wait: bool, ghost woken: bool) returns (r: Result, resumed: Option<nat>)
      requires Linked() && S.Running(m, t, woken, false)
      modifies this`outOffset, this`entry, this`receivers, this`senders, this`m
      ensures Valid() && m == S.Recv(old(m), t, priority, wait)
      ensures r == if old(m).queue != [] then Done(old(m).queue[0]) else if wait then Waiting else Refused
      ensures resumed == if r.Done? && old(m).senders != [] then Some(old(m).senders[0].thread) else None
    {
      hide S.Inv, S.Running, Enqueue;
      resumed := None;
      S.RecvInv(m, t, priority, wait, woken);
      if entry == 0 {
        if !wait { return Refused, None; }
        receivers := Suspend(receivers, Waiter(t, priority, ()), flag);
        m := S.Recv(m, t, priority, wait);
        return Waiting, None;
      }
      var value := Get(m.queue);
      if senders != [] {
        resumed := Some(senders[0].thread);
        senders := senders[1..];
      }
      m := S.Recv(m, t, priority, wait);
      r := Done(value);
    }

    /** A thread calls rt_mb_send_wait, or comes back in it after a wakeup. */
    method Send(t: nat, priority: nat, value: int, wait: bool, ghost again: bool)
        returns (r: Result, resumed: Option<nat>)
      requires Valid() && if again then t in m.wokenSenders && m.wokenSenders[t] == value else S.Idle(m, t)
      modifies this, pool
      ensures Valid()
      ensures m == S.Do(old(m), if again then S.SendAgain(t, priority, wait) else S.SendStep(t, priority, value, wait))
      ensures r == if |old(m).queue| < size then Done(value) else if wait then Waiting else Refused
      ensures resumed == if r.Done? && old(m).receivers != [] then Some(old(m).receivers[0].thread) else None
    {
      if again {
        S.SizeWithout(m.wokenSenders, t);
        m := S.SenderRuns(m, t);
      }
      r, resumed := SendPass(t, priority, value, wait, again);
    }

    method Recv(t: nat, priority: nat, wait: bool, ghost again: bool) returns (r: Result, resumed: Option<nat>)
      requires Valid() && if again then t in m.wokenReceivers else S.Idle(m, t)
      modifies this, pool
      ensures Valid()
      ensures m == S.Do(old(m), if again then S.RecvAgain(t, priority, wait) else S.RecvStep(t, priority, wait))
      ensures r == if old(m).queue != [] then Done(old(m).queue[0]) else if wait then Waiting else Refused
      ensures resumed == if r.Done? && old(m).senders != [] then Some(old(m).senders[0].thread) else None
    {
      if again {
        m := S.ReceiverRuns(m, t);
      }
      r, resumed := RecvPass(t, priority, wait, again);
    }

    /** rt_thread_timeout takes a suspended thread off its list. */
    method Timeout(k: nat, receiving: bool)
      requires Valid() && if receiving then k < |receivers| else k < |senders|
      modifies this`receivers, this`senders, this`m
      ensures Valid() && m == S.Do(old(m), if receiving then S.ReceiverTimeout(k) else S.SenderTimeout(k))
    {
      ghost var step := if receiving then S.ReceiverTimeout(k) else S.SenderTimeout(k);
      S.StepInv(m, step);
      if receiving {
        receivers := receivers[..k] + receivers[k + 1..];
      } else {
        senders := senders[..k] + senders[k + 1..];
      }
      m := S.Do(m, step);
    }

    /** rt_mb_control with RT_IPC_CMD_RESET: resumes every waiting thread with an error. */
    method Reset() returns (resumed: seq<nat>)
      requires Valid()
      modifies this
      ensures Valid() && m == S.Reset(old(m))
      ensures forall t :: t in resumed <==> Waits(old(m).receivers, t) || Waits(old(m).senders, t)
    {
      S.ResetInv(m);
      resumed := ResumeAll(receivers);
      var more := ResumeAll(senders);
      receivers, senders, resumed := [], [], resumed + more;
      entry, inOffset, outOffset := 0, 0, 0;
      m := S.Reset(m);
    }
  }
}
