/** Message queues in the form of ipc.c: nodes in a pool, linked through their next fields
    into a free list and a queue with head and tail, changed in place. */
module MessageQueueObject {
  import opened Lists
  import opened IpcList
  import opened MessageQueueSpec

  const NULL := -1

  function First(s: seq<nat>): int { if s == [] then NULL else s[0] }

  function Last(s: seq<nat>): int { if s == [] then NULL else s[|s| - 1] }

  ghost predicate LinkedAt(next: seq<int>, s: seq<nat>, i: int)
    requires 0 <= i < |s|
  {
    s[i] < |next| && next[s[i]] == if i + 1 < |s| then s[i + 1] else NULL
  }

  /** Following next from `p` visits the nodes of `s` and ends. */
  ghost predicate Chain(next: seq<int>, p: int, s: seq<nat>) {
    p == First(s) && forall i {:trigger LinkedAt(next, s, i)} :: 0 <= i < |s| ==> LinkedAt(next, s, i)
  }

  lemma ChainNil(next: seq<int>)
    ensures Chain(next, NULL, [])
  {}

  lemma ChainElsewhere(next: seq<int>, p: int, s: seq<nat>, n: nat, v: int)
    requires Chain(next, p, s) && n !in s && n < |next|
    ensures Chain(next[n := v], p, s)
  {
    var next' := next[n := v];
    forall i | 0 <= i < |s|
      ensures LinkedAt(next', s, i)
    {
      assert LinkedAt(next, s, i) && s[i] in s;
    }
  }

  lemma ChainPop(next: seq<int>, p: int, s: seq<nat>)
    requires Chain(next, p, s) && s != []
    ensures 0 <= p < |next| && p == s[0] && Chain(next, next[p], s[1..])
  {
    assert LinkedAt(next, s, 0);
    forall i | 0 <= i < |s| - 1
      ensures LinkedAt(next, s[1..], i)
    {
      assert LinkedAt(next, s, i + 1);
    }
  }

  lemma ChainPush(next: seq<int>, p: int, s: seq<nat>, n: nat)
    requires Chain(next, p, s) && n !in s && n < |next|
    ensures Chain(next[n := p], n, [n] + s)
  {
    ChainElsewhere(next, p, s, n, p);
    var next', s' := next[n := p], [n] + s;
    forall i | 0 <= i < |s'|
      ensures LinkedAt(next', s', i)
    {
      if i > 0 { assert LinkedAt(next', s, i - 1); }
    }
  }

  lemma ChainAppend(next: seq<int>, p: int, s: seq<nat>, n: nat)
    requires Chain(next, p, s) && Distinct(s) && n !in s && n < |next| && next[n] == NULL
    ensures s == [] ==> Chain(next, n, s + [n])
    ensures s != [] ==> 0 <= Last(s) < |next| && Chain(next[Last(s) := n], p, s + [n])
  {
    var next' := if s == [] then next else assert LinkedAt(next, s, |s| - 1); next[Last(s) := n];
    var s' := s + [n];
    forall i | 0 <= i < |s'|
      ensures LinkedAt(next', s', i)
    {
      if i < |s| { assert LinkedAt(next, s, i); }
    }
  }

  function Blank(size: nat): seq<int> { seq(size, _ => 0) }

  /** The same value for the nodes of a pool of `max`. */
  function Everywhere<V>(max: nat, v: V): (m: map<nat, V>)
    ensures forall n: nat :: (n in m <==> n < max) && (n in m ==> m[n] == v)
  {
    if max == 0 then map[] else Everywhere(max - 1, v)[max - 1 := v]
  }

  datatype Result = Done | Failed | Waiting

  class MessageQueue {
    const msgSize: nat
    const max: nat
    const flag: Flag
    const next: array<int>
    const data: array<seq<int>>
    var head: int
    var tail: int
    var free: int
    var entry: nat
    var receivers: seq<Waiter<()>>
    ghost var q: Queue

    ghost predicate Lists(q: Queue)
      reads this, next, data
    {
      && q.msgSize == msgSize && q.max == max && q.flag == flag && q.receivers == receivers
      && next.Length == max && data.Length == max && (forall n :: 0 <= n < max ==> n in q.data && data[n] == q.data[n])
      && Chain(next[..], free, q.free) && Chain(next[..], head, q.queue) && tail == Last(q.queue) && entry == |q.queue|
      && forall t :: t in q.sending && q.sending[t].filled && !q.sending[t].urgent ==> Ends(q.sending[t].node)
    }

    ghost predicate Ends(n: int)
      reads next
    {
      0 <= n < next.Length && next[n] == NULL
    }

    ghost predicate Valid()
      reads this, next, data
    {
      Lists(q) && Inv(q)
    }

    /** rt_mq_init over a pool that holds `count` messages of `size` bytes. */
    constructor (size: nat, count: nat, order: Flag)
      ensures Valid() && Initial(q) && q.max == count && q.msgSize == size && q.flag == order
      ensures fresh(next) && fresh(data)
    {
      hide Inv, Chain, InitFree;
      msgSize, max, flag := size, count, order;
      next := new int[count];
      data := new seq<int>[count](_ => Blank(size));
      head, tail, free, entry, receivers := NULL, NULL, NULL, 0, [];
      q := Queue(size, count, order, InitFree(count), [], Everywhere(count, Blank(size)), Everywhere(count, Free),
                 map[], map[], [], {}, {}, []);
      new;
      InitInv(q);
      ThreadFree();
      ChainNil(next[..]);
    }

    /** The loop of rt_mq_init: pushes every node on the free list. */
    method ThreadFree()
      requires free == NULL && next.Length == max
      modifies next, this`free
      ensures Chain(next[..], free, InitFree(max))
    {
      hide Chain;
      assert Chain(next[..], free, InitFree(0)) by { ChainNil(next[..]); }
      for temp := 0 to max
        invariant Chain(next[..], free, InitFree(temp))
      {
        ChainPush(next[..], free, InitFree(temp), temp);
        ghost var was, p := next[..], free;
        next[temp] := free;
        assert next[..] == was[temp := p];
        free := temp;
      }
    }

    /** The first critical region of rt_mq_send and rt_mq_urgent. */
    method Take(t: nat, buffer: seq<int>, urgent: bool) returns (r: Result, msg: int)
      requires Valid() && Idle(q, t)
      modifies this
      ensures Valid() && q == SendTake(old(q), t, buffer, urgent)
      ensures r == Done <==> old(q).free != [] && |buffer| <= msgSize
      ensures r == Done || r == Failed
      ensures r == Done ==> t in q.sending && q.sending[t].node == msg
    {
      hide Conserved, Stored, Placed, Chain, Distinct;
      TakeInv(q, t, buffer, urgent);
      ChainHead(next[..], free, q.free);
      if |buffer| > msgSize { return Failed, NULL; }
      msg := free;
      if msg == NULL { return Failed, NULL; }
      ChainPop(next[..], free, q.free);
      free := next[msg];
      q := SendTake(q, t, buffer, urgent);
      r := Done;
    }

    /** The copy into the node, with interrupts on; rt_mq_send also ends the chain here. */
    method Fill(t: nat, msg: nat, buffer: seq<int>, urgent: bool)
      requires Valid() && t in q.sending && q.sending[t] == SendHand(msg, buffer, urgent, false)
      modifies this`q, next, data
      ensures Valid() && q == SendFill(old(q), t)
    {
      hide Conserved, Stored, Placed, Chain, Distinct;
      FillInv(q, t);
      HandNode(q, t);
      SizeKnown(q, msg);
      if !urgent {
        ChainElsewhere(next[..], free, q.free, msg, NULL);
        ChainElsewhere(next[..], head, q.queue, msg, NULL);
        next[msg] := NULL;
        assert next[..] == old(next[..])[msg := NULL];
      }
      data[msg] := buffer + data[msg][|buffer|..];
      q := SendFill(q, t);
    }

    /** The second critical region of rt_mq_send and rt_mq_urgent. */
    method LinkMessage(t: nat, msg: int, urgent: bool) returns (resumed: Option<nat>)
      requires Valid() && t in q.sending && q.sending[t].node == msg && q.sending[t].urgent == urgent
               && q.sending[t].filled
      modifies this, next
      ensures Valid() && q == SendLink(old(q), t)
      ensures resumed == if old(q).receivers == [] then None else Some(old(q).receivers[0].thread)
    {
      hide Conserved, Stored, Placed, Chain, Distinct;
      SendInv(q, t);
      LinkNode(t, msg, urgent);
      resumed := None;
      if receivers != [] {
        resumed := Some(receivers[0].thread);
        receivers := receivers[1..];
      }
      q := Wake(q);
    }

    method LinkNode(t: nat, msg: nat, urgent: bool)
      requires Valid() && t in q.sending && q.sending[t].node == msg && q.sending[t].urgent == urgent
               && q.sending[t].filled
      modifies this`head, this`tail, this`entry, this`q, next
      ensures Lists(q) && q == Linked(old(q), t)
    {
      hide Conserved, Stored, Placed, Chain, Distinct;
      HandNode(q, t);
      QueueNodes(q);
      if urgent {
        PutFirst(msg, q.queue, q.free);
      } else {
        assert Ends(msg);
        Append(msg, q.queue, q.free);
      }
      q := Linked(q, t);
    }

    /** Puts a node behind the last of the queue. */
    method Append(msg: nat, ghost queue: seq<nat>, ghost rest: seq<nat>)
      requires Chain(next[..], head, queue) && tail == Last(queue) && Distinct(queue) && Chain(next[..], free, rest)
      requires msg !in queue && Ends(msg) && forall n :: n in queue ==> n !in rest
      modifies this`head, this`tail, this`entry, next
      ensures Chain(next[..], head, queue + [msg]) && tail == msg && Chain(next[..], free, rest)
              && entry == old(entry) + 1
      ensures forall n :: 0 <= n < next.Length && n !in queue ==> next[n] == old(next[n])
    {
      hide Chain, Distinct;
      ChainHead(next[..], head, queue);
      ChainAppend(next[..], head, queue, msg);
      if tail != NULL {
        assert queue[|queue| - 1] in queue;
        ChainElsewhere(next[..], free, rest, tail, msg);
        next[tail] := msg;
        assert next[..] == old(next[..])[old(tail) := msg];
      }
      tail := msg;
      if head == NULL { head := msg; }
      entry := entry + 1;
    }

    /** Puts a node before the first of the queue. */
    method PutFirst(msg: nat, ghost queue: seq<nat>, ghost rest: seq<nat>)
      requires Chain(next[..], head, queue) && tail == Last(queue) && Chain(next[..], free, rest)
      requires msg < next.Length && msg !in queue && msg !in rest
      modifies this`head, this`tail, this`entry, next
      ensures Chain(next[..], head, [msg] + queue) && tail == Last([msg] + queue) && Chain(next[..], free, rest)
              && entry == old(entry) + 1
      ensures forall n :: 0 <= n < next.Length && n != msg ==> next[n] == old(next[n])
    {
      hide Chain;
      ChainHead(next[..], head, queue);
      ChainPush(next[..], head, queue, msg);
      ChainElsewhere(next[..], free, rest, msg, head);
      next[msg] := head;
      assert next[..] == old(next[..])[msg := old(head)];
      head := msg;
      if tail == NULL { tail := msg; }
      entry := entry + 1;
    }

    /** Takes the first node off the queue. */
    method Unqueue(ghost queue: seq<nat>) returns (msg: int)
      requires Chain(next[..], head, queue) && tail == Last(queue) && Distinct(queue) && entry == |queue| > 0
      modifies this`head, this`tail, this`entry
      ensures msg == queue[0] && msg < next.Length
      ensures Chain(next[..], head, queue[1..]) && tail == Last(queue[1..]) && entry == |queue| - 1
              && (head == NULL <==> queue[1..] == [])
    {
      ChainPop(next[..], head, queue);
      msg := head;
      head := next[msg];
      if tail == msg { tail := NULL; }
      entry := entry - 1;
    }

    /** rt_mq_recv from a point with interrupts off to the next with interrupts on. A woken
        thread is no longer counted as such when it gets here. */
    method RecvPass(t: nat, priority: nat, wait: bool, ghost again: bool) returns (r: Result, msg: int)
      requires Valid() && if again then t in q.woken else Idle(q, t)
      modifies this
      ensures Valid() && q == Recv(if again then ReceiverRuns(old(q), t) else old(q), t, priority, wait)
      ensures r == if old(q).queue != [] then Done else if wait then Waiting else Failed
      ensures r == Done ==>
                t in q.receiving && q.receiving[t].node == msg && q.receiving[t].message == old(q).messages[0]
    {
      hide Conserved, Stored, Chain, Placed, NoLostWakeup, Idle, Enqueue, Distinct;
      SameLength(q);
      if again { RecvAgainInv(q, t, priority, wait); } else { RecvInv(q, t, priority, wait); }
      ghost var q' := Recv(if again then ReceiverRuns(q, t) else q, t, priority, wait);
      msg := NULL;
      if entry == 0 {
        r := if wait then Waiting else Failed;
        if wait { receivers := Suspend(receivers, Waiter(t, priority, ()), flag); }
        q := q';
        return;
      }
      QueueNode(q, 0);
      msg := Unqueue(q.queue);
      q := q';
      r := Done;
    }

    /** The copy out of the node, with interrupts on. */
    method Copy(t: nat, msg: int, size: nat) returns (buffer: seq<int>)
      requires Valid() && t in q.receiving && q.receiving[t].node == msg
      ensures buffer == Read(q, t, size)
    {
      var n := if size > msgSize then msgSize else size;
      SizeKnown(q, msg);
      buffer := data[msg][..n];
    }

    /** The last critical region of rt_mq_recv: the node goes back to the free list. */
    method Release(t: nat, msg: int)
      requires Valid() && t in q.receiving && q.receiving[t].node == msg
      modifies this, next
      ensures Valid() && q == RecvRelease(old(q), t)
    {
      hide Conserved, Stored, Placed, Chain, Distinct;
      ReleaseInv(q, t);
      RecvNode(q, t);
      ChainPush(next[..], free, q.free, msg);
      ChainElsewhere(next[..], head, q.queue, msg, free);
      next[msg] := free;
      assert next[..] == old(next[..])[msg := old(free)];
      free := msg;
      q := RecvRelease(q, t);
    }

    /** rt_mq_control with RT_IPC_CMD_RESET. */
    method ResetAll() returns (resumed: seq<nat>)
      requires Valid()
      modifies this, next
      ensures Valid() && q == Reset(old(q))
      ensures |resumed| == |old(q).receivers|
      ensures forall i :: 0 <= i < |resumed| ==> resumed[i] == old(q).receivers[i].thread
    {
      hide Conserved, Chain, Distinct, Placed;
      ResetInv(q);
      ResetPlaced(q);
      resumed := ResumeAll(receivers);
      receivers := [];
      q := q.(receivers := [], failed := q.failed + ThreadsOf(q.receivers));
      ChainHead(next[..], head, q.queue);
      while head != NULL
        invariant Lists(q) && Conserved(q) && Stored(q) && DropAll(q) == Reset(old(q))
                  && (head == NULL <==> q.queue == [])
        decreases |q.queue|
      {
        DropFirst();
      }
    }

    method DropFirst()
      requires Lists(q) && Conserved(q) && Stored(q) && q.queue != []
      modifies this`head, this`tail, this`free, this`entry, this`q, next
      ensures Lists(q) && Conserved(q) && Stored(q) && q == Drop(old(q)) && (head == NULL <==> q.queue == [])
    {
      hide Conserved, Chain, Distinct;
      DropConserved(q);
      QueueNode(q, 0);
      var msg := Unqueue(q.queue);
      ChainPush(next[..], free, q.free, msg);
      ChainElsewhere(next[..], head, q.queue[1..], msg, free);
      next[msg] := free;
      assert next[..] == old(next[..])[msg := old(free)];
      free := msg;
      q := Drop(q);
    }
  }

  lemma ChainHead(next: seq<int>, p: int, s: seq<nat>)
    requires Chain(next, p, s)
    ensures p == NULL <==> s == []
  {}

  /** A node in a sender's hands is in no list and in nobody else's hands. */
  lemma HandNode(q: Queue, t: nat)
    requires Conserved(q) && t in q.sending
    ensures var n := q.sending[t].node; n < q.max && n !in q.free && n !in q.queue
    ensures Distinct(q.queue) && forall u :: u in q.sending && u != t ==> q.sending[u].node != q.sending[t].node
  {}

  lemma RecvNode(q: Queue, t: nat)
    requires Conserved(q) && t in q.receiving
    ensures var n := q.receiving[t].node; n < q.max && n !in q.free && n !in q.queue
    ensures forall u :: u in q.sending ==> q.sending[u].node != q.receiving[t].node
  {}

  lemma QueueNode(q: Queue, i: nat)
    requires Conserved(q) && i < |q.queue|
    ensures q.queue[i] < q.max && q.queue[i] !in q.free
    ensures forall u :: u in q.sending ==> q.sending[u].node != q.queue[i]
    ensures Distinct(q.queue) && (i == 0 ==> q.queue[0] !in q.queue[1..])
  {
    assert q.queue[i] in q.queue;
  }

  lemma QueueNodes(q: Queue)
    requires Conserved(q)
    ensures forall n :: n in q.queue ==> n !in q.free
    ensures forall u :: u in q.sending ==> q.sending[u].node !in q.queue
  {}

  lemma SameLength(q: Queue)
    requires Stored(q)
    ensures |q.messages| == |q.queue|
  {}

  lemma SizeKnown(q: Queue, n: int)
    requires Inv(q) && ((exists t :: t in q.sending && q.sending[t].node == n)
             || (exists t :: t in q.receiving && q.receiving[t].node == n))
    ensures 0 <= n < q.max && n in q.data && |q.data[n]| == q.msgSize
    ensures forall t :: t in q.sending ==> |q.sending[t].buffer| <= q.msgSize
  {}
}
