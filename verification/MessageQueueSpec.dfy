/** Message queues (ipc.c): fixed message nodes that move between a free list, the queue
    and the hands of a thread that copies a message with interrupts on. */
module MessageQueueSpec {
  import opened Lists
  import opened IpcList

  datatype Owner = Free | Queued | Sender(thread: nat) | Receiver(thread: nat)

  /** A sender between its two critical regions. */
  datatype SendHand = SendHand(node: nat, buffer: seq<int>, urgent: bool, filled: bool)

  datatype RecvHand = RecvHand(node: nat, message: seq<int>)

  /** `messages` is the deque of buffers the queue stands for; `owner` says where each node is. */
  datatype Queue = Queue(
    msgSize: nat, max: nat, flag: Flag,
    free: seq<nat>, queue: seq<nat>, data: map<nat, seq<int>>, owner: map<nat, Owner>,
    sending: map<nat, SendHand>, receiving: map<nat, RecvHand>,
    receivers: seq<Waiter<()>>, woken: set<nat>, failed: set<nat>,
    messages: seq<seq<int>>)

  ghost predicate Idle(q: Queue, t: nat) {
    t !in q.sending && t !in q.receiving && !Waits(q.receivers, t) && t !in q.woken && t !in q.failed
  }

  /** A list holds the nodes with a given owner, each once. */
  ghost predicate Owns(owner: map<nat, Owner>, list: seq<nat>, o: Owner) {
    Distinct(list) && forall n :: n in list <==> n in owner && owner[n] == o
  }

  /** A node is in a thread's hands exactly when it is the node the thread holds. */
  ghost predicate Held(owner: map<nat, Owner>, sending: map<nat, SendHand>, receiving: map<nat, RecvHand>) {
    && (forall t :: t in sending ==> sending[t].node in owner && owner[sending[t].node] == Sender(t))
    && (forall t :: t in receiving ==> receiving[t].node in owner && owner[receiving[t].node] == Receiver(t))
    && (forall n :: n in owner && owner[n].Sender? ==> owner[n].thread in sending && sending[owner[n].thread].node == n)
    && (forall n :: n in owner && owner[n].Receiver? ==>
         owner[n].thread in receiving && receiving[owner[n].thread].node == n)
  }

  /** Every node is in exactly the place its owner says, and none is lost. */
  ghost predicate Conserved(q: Queue) {
    && (forall n: nat :: n in q.owner <==> n < q.max)
    && Owns(q.owner, q.free, Free) && Owns(q.owner, q.queue, Queued)
    && Held(q.owner, q.sending, q.receiving)
    && |q.free| + |q.queue| + |q.sending| + |q.receiving| == q.max
  }

  ghost predicate Starts(data: map<nat, seq<int>>, n: nat, message: seq<int>) { n in data && message <= data[n] }

  /** The nodes hold the messages of the deque, and of the threads that copy. */
  ghost predicate Stored(q: Queue) {
    && (forall n: nat :: n < q.max ==> n in q.data && |q.data[n]| == q.msgSize)
    && |q.messages| == |q.queue|
    && (forall i :: 0 <= i < |q.queue| ==> Starts(q.data, q.queue[i], q.messages[i]))
    && (forall t :: t in q.receiving ==> Starts(q.data, q.receiving[t].node, q.receiving[t].message))
    && (forall t :: t in q.sending ==> |q.sending[t].buffer| <= q.msgSize)
    && (forall t :: t in q.sending && q.sending[t].filled ==> Starts(q.data, q.sending[t].node, q.sending[t].buffer))
  }

  /** Threads are in one place only, and the waiting ones in their order. */
  ghost predicate Placed(q: Queue) {
    && Unique(q.receivers) && InOrder(q.receivers, q.flag)
    && (forall t :: Waits(q.receivers, t) ==> t !in q.woken && t !in q.failed && t !in q.sending && t !in q.receiving)
    && q.woken !! q.failed && (forall t :: t in q.woken || t in q.failed ==> t !in q.sending && t !in q.receiving)
    && q.sending.Keys !! q.receiving.Keys
  }

  /** A receiver is left waiting only while those already woken can take every message. */
  ghost predicate NoLostWakeup(q: Queue) { q.receivers != [] ==> |q.queue| <= |q.woken| }

  ghost predicate Inv(q: Queue) { Conserved(q) && Stored(q) && Placed(q) && NoLostWakeup(q) }

  // ---- the steps ----

  function Move(q: Queue, n: nat, o: Owner): Queue { q.(owner := q.owner[n := o]) }

  /** rt_mq_send or rt_mq_urgent takes a free node; without one the call fails and nothing changes. */
  function SendTake(q: Queue, t: nat, buffer: seq<int>, urgent: bool): Queue {
    if q.free == [] || |buffer| > q.msgSize then q
    else Move(q, q.free[0], Sender(t)).(free := q.free[1..],
      sending := q.sending[t := SendHand(q.free[0], buffer, urgent, false)])
  }

  function Overwrite(bytes: seq<int>, buffer: seq<int>): seq<int>
    requires |buffer| <= |bytes|
  {
    buffer + bytes[|buffer|..]
  }

  function SendFill(q: Queue, t: nat): Queue
    requires t in q.sending && q.sending[t].node in q.data && |q.sending[t].buffer| <= |q.data[q.sending[t].node]|
  {
    var hand := q.sending[t];
    q.(data := q.data[hand.node := Overwrite(q.data[hand.node], hand.buffer)],
      sending := q.sending[t := hand.(filled := true)])
  }

  function Wake(q: Queue): Queue {
    if q.receivers == [] then q
    else q.(receivers := q.receivers[1..], woken := q.woken + {q.receivers[0].thread})
  }

  function Linked(q: Queue, t: nat): Queue
    requires t in q.sending
  {
    var hand := q.sending[t];
    Move(q, hand.node, Queued).(sending := q.sending - {t},
      queue := if hand.urgent then [hand.node] + q.queue else q.queue + [hand.node],
      messages := if hand.urgent then [hand.buffer] + q.messages else q.messages + [hand.buffer])
  }

  function SendLink(q: Queue, t: nat): Queue
    requires t in q.sending
  {
    Wake(Linked(q, t))
  }

  /** One pass of rt_mq_recv: waits, or takes the first message node. */
  function Recv(q: Queue, t: nat, priority: nat, wait: bool): Queue {
    if q.queue == [] || q.messages == [] then
      if wait then q.(receivers := Enqueue(q.receivers, Waiter(t, priority, ()), q.flag)) else q
    else
      Move(q, q.queue[0], Receiver(t)).(queue := q.queue[1..], messages := q.messages[1..],
        receiving := q.receiving[t := RecvHand(q.queue[0], q.messages[0])])
  }

  function ReceiverRuns(q: Queue, t: nat): Queue { q.(woken := q.woken - {t}) }

  /** The bytes rt_mq_recv copies out. */
  function Read(q: Queue, t: nat, size: nat): seq<int>
    requires t in q.receiving && q.receiving[t].node in q.data && |q.data[q.receiving[t].node]| == q.msgSize
  {
    q.data[q.receiving[t].node][..if size > q.msgSize then q.msgSize else size]
  }

  function RecvRelease(q: Queue, t: nat): Queue
    requires t in q.receiving
  {
    var n := q.receiving[t].node;
    Move(q, n, Free).(free := [n] + q.free, receiving := q.receiving - {t})
  }

  function Timeout(q: Queue, k: nat): Queue
    requires k < |q.receivers|
  {
    q.(receivers := Cut(q.receivers, k), failed := q.failed + {q.receivers[k].thread})
  }

  /** The first queued message goes back to the free list. */
  function Drop(q: Queue): Queue
    requires q.queue != [] && q.messages != []
  {
    Move(q, q.queue[0], Free).(free := [q.queue[0]] + q.free, queue := q.queue[1..], messages := q.messages[1..])
  }

  function DropAll(q: Queue): Queue
    decreases |q.queue|
  {
    if q.queue == [] || q.messages == [] then q else DropAll(Drop(q))
  }

  function Reset(q: Queue): Queue {
    DropAll(q.(receivers := [], failed := q.failed + ThreadsOf(q.receivers)))
  }

  datatype Step =
    | Take(t: nat, buffer: seq<int>, urgent: bool)
    | Fill(t: nat)
    | Link(t: nat)
    | RecvStep(t: nat, priority: nat, wait: bool)
    | RecvAgain(t: nat, priority: nat, wait: bool)
    | Release(t: nat)
    | TimeoutStep(k: nat)
    | ReturnError(t: nat)
    | ResetStep

  ghost predicate Enabled(q: Queue, s: Step) {
    match s
    case Take(t, _, _) => Idle(q, t)
    case Fill(t) => t in q.sending && !q.sending[t].filled
    case Link(t) => t in q.sending && q.sending[t].filled
    case RecvStep(t, _, _) => Idle(q, t)
    case RecvAgain(t, _, _) => t in q.woken
    case Release(t) => t in q.receiving
    case TimeoutStep(k) => k < |q.receivers|
    case ReturnError(t) => t in q.failed
    case ResetStep => true
  }

  ghost function Do(q: Queue, s: Step): Queue
    requires Inv(q) && Enabled(q, s)
  {
    match s
    case Take(t, buffer, urgent) => SendTake(q, t, buffer, urgent)
    case Fill(t) => SendFill(q, t)
    case Link(t) => SendLink(q, t)
    case RecvStep(t, p, wait) => Recv(q, t, p, wait)
    case RecvAgain(t, p, wait) => Recv(ReceiverRuns(q, t), t, p, wait)
    case Release(t) => RecvRelease(q, t)
    case TimeoutStep(k) => Timeout(q, k)
    case ReturnError(t) => q.(failed := q.failed - {t})
    case ResetStep => Reset(q)
  }

  // ---- list and map facts ----

  lemma Pop(owner: map<nat, Owner>, s: seq<nat>, o: Owner, o': Owner)
    requires Owns(owner, s, o) && s != [] && o' != o
    ensures s[0] in owner && owner[s[0]] == o && Owns(owner[s[0] := o'], s[1..], o)
  {
    assert s[0] in s && s == [s[0]] + s[1..];
  }

  lemma Push(owner: map<nat, Owner>, s: seq<nat>, o: Owner, n: nat)
    requires Owns(owner, s, o) && n in owner && owner[n] != o
    ensures Owns(owner[n := o], [n] + s, o) && Owns(owner[n := o], s + [n], o)
  {
    assert n !in s;
  }

  lemma Elsewhere(owner: map<nat, Owner>, s: seq<nat>, o: Owner, n: nat, o': Owner)
    requires Owns(owner, s, o) && n in owner && owner[n] != o && o' != o
    ensures Owns(owner[n := o'], s, o)
  {}

  lemma HandSender(owner: map<nat, Owner>, sending: map<nat, SendHand>, receiving: map<nat, RecvHand>, t: nat,
      hand: SendHand)
    requires Held(owner, sending, receiving) && t !in sending && hand.node in owner
             && (owner[hand.node].Free? || owner[hand.node].Queued?)
    ensures Held(owner[hand.node := Sender(t)], sending[t := hand], receiving)
  {}

  lemma HandReceiver(owner: map<nat, Owner>, sending: map<nat, SendHand>, receiving: map<nat, RecvHand>, t: nat,
      hand: RecvHand)
    requires Held(owner, sending, receiving) && t !in receiving && hand.node in owner
             && (owner[hand.node].Free? || owner[hand.node].Queued?)
    ensures Held(owner[hand.node := Receiver(t)], sending, receiving[t := hand])
  {}

  lemma UnhandSender(owner: map<nat, Owner>, sending: map<nat, SendHand>, receiving: map<nat, RecvHand>, t: nat,
      o: Owner)
    requires Held(owner, sending, receiving) && t in sending && (o.Free? || o.Queued?)
    ensures sending[t].node in owner && owner[sending[t].node] == Sender(t)
            && Held(owner[sending[t].node := o], sending - {t}, receiving)
  {}

  lemma UnhandReceiver(owner: map<nat, Owner>, sending: map<nat, SendHand>, receiving: map<nat, RecvHand>, t: nat,
      o: Owner)
    requires Held(owner, sending, receiving) && t in receiving && (o.Free? || o.Queued?)
    ensures receiving[t].node in owner && owner[receiving[t].node] == Receiver(t)
            && Held(owner[receiving[t].node := o], sending, receiving - {t})
  {}

  lemma HandSame(owner: map<nat, Owner>, sending: map<nat, SendHand>, receiving: map<nat, RecvHand>, t: nat,
      hand: SendHand)
    requires Held(owner, sending, receiving) && t in sending && hand.node == sending[t].node
    ensures Held(owner, sending[t := hand], receiving)
  {}

  lemma MapAdd<V>(m: map<nat, V>, t: nat, v: V)
    requires t !in m
    ensures |m[t := v]| == |m| + 1
  {
    assert m[t := v].Keys == m.Keys + {t} && |m[t := v]| == |m[t := v].Keys| && |m| == |m.Keys|;
  }

  lemma MapSet<V>(m: map<nat, V>, t: nat, v: V)
    requires t in m
    ensures |m[t := v]| == |m|
  {
    assert m[t := v].Keys == m.Keys && |m[t := v]| == |m[t := v].Keys| && |m| == |m.Keys|;
  }

  lemma MapDrop<V>(m: map<nat, V>, t: nat)
    requires t in m
    ensures |m - {t}| == |m| - 1
  {
    assert (m - {t}).Keys == m.Keys - {t} && |m - {t}| == |(m - {t}).Keys| && |m| == |m.Keys|;
  }

  // ---- nodes are conserved ----

  lemma TakeConserved(q: Queue, t: nat, buffer: seq<int>, urgent: bool)
    requires Conserved(q) && t !in q.sending
    ensures Conserved(SendTake(q, t, buffer, urgent))
  {
    hide Owns, Held;
    if q.free != [] && |buffer| <= q.msgSize {
      Pop(q.owner, q.free, Free, Sender(t));
      Elsewhere(q.owner, q.queue, Queued, q.free[0], Sender(t));
      HandSender(q.owner, q.sending, q.receiving, t, SendHand(q.free[0], buffer, urgent, false));
      MapAdd(q.sending, t, SendHand(q.free[0], buffer, urgent, false));
    }
  }

  lemma FillConserved(q: Queue, t: nat)
    requires Conserved(q) && Stored(q) && t in q.sending
    ensures Conserved(SendFill(q, t))
  {
    hide Owns, Starts, Held;
    MapSet(q.sending, t, q.sending[t].(filled := true));
    HandSame(q.owner, q.sending, q.receiving, t, q.sending[t].(filled := true));
  }

  lemma LinkConserved(q: Queue, t: nat)
    requires Conserved(q) && t in q.sending
    ensures Conserved(Linked(q, t))
  {
    hide Owns, Held;
    var n := q.sending[t].node;
    UnhandSender(q.owner, q.sending, q.receiving, t, Queued);
    Push(q.owner, q.queue, Queued, n);
    Elsewhere(q.owner, q.free, Free, n, Queued);
    MapDrop(q.sending, t);
  }

  lemma RecvConserved(q: Queue, t: nat, priority: nat, wait: bool)
    requires Conserved(q) && t !in q.receiving
    ensures Conserved(Recv(q, t, priority, wait))
  {
    hide Owns, Held;
    if q.queue != [] && q.messages != [] {
      Pop(q.owner, q.queue, Queued, Receiver(t));
      Elsewhere(q.owner, q.free, Free, q.queue[0], Receiver(t));
      HandReceiver(q.owner, q.sending, q.receiving, t, RecvHand(q.queue[0], q.messages[0]));
      MapAdd(q.receiving, t, RecvHand(q.queue[0], q.messages[0]));
    }
  }

  lemma ReleaseConserved(q: Queue, t: nat)
    requires Conserved(q) && t in q.receiving
    ensures Conserved(RecvRelease(q, t))
  {
    hide Owns, Held;
    var n := q.receiving[t].node;
    UnhandReceiver(q.owner, q.sending, q.receiving, t, Free);
    Push(q.owner, q.free, Free, n);
    Elsewhere(q.owner, q.queue, Queued, n, Free);
    MapDrop(q.receiving, t);
  }

  lemma DropConserved(q: Queue)
    requires Conserved(q) && q.queue != [] && q.messages != []
    ensures Conserved(Drop(q))
  {
    hide Owns;
    Pop(q.owner, q.queue, Queued, Free);
    Push(q.owner, q.free, Free, q.queue[0]);
  }

  // ---- messages stay where they are ----

  lemma TakeStored(q: Queue, t: nat, buffer: seq<int>, urgent: bool)
    requires Stored(q)
    ensures Stored(SendTake(q, t, buffer, urgent))
  {}

  lemma OneHolder(q: Queue, t: nat)
    requires Conserved(q) && t in q.sending
    ensures q.sending[t].node < q.max && q.sending[t].node !in q.queue
    ensures forall u :: u in q.sending && u != t ==> q.sending[u].node != q.sending[t].node
    ensures forall u :: u in q.receiving ==> q.receiving[u].node != q.sending[t].node
  {}

  lemma FillElsewhere(q: Queue, t: nat)
    requires t in q.sending && q.sending[t].node in q.data && |q.sending[t].buffer| <= |q.data[q.sending[t].node]|
    ensures Starts(SendFill(q, t).data, q.sending[t].node, q.sending[t].buffer)
    ensures forall n, m :: Starts(q.data, n, m) && n != q.sending[t].node ==> Starts(SendFill(q, t).data, n, m)
  {}

  lemma FillStored(q: Queue, t: nat)
    requires Conserved(q) && Stored(q) && t in q.sending
    ensures Stored(SendFill(q, t))
  {
    var hand, q' := q.sending[t], SendFill(q, t);
    hide Conserved, Starts;
    OneHolder(q, t);
    FillElsewhere(q, t);
  }

  lemma LinkStored(q: Queue, t: nat)
    requires Stored(q) && t in q.sending && q.sending[t].filled
    ensures Stored(Linked(q, t))
  {}

  lemma RecvStored(q: Queue, t: nat, priority: nat, wait: bool)
    requires Stored(q)
    ensures Stored(Recv(q, t, priority, wait))
  {}

  // ---- threads ----

  lemma WakePlaced(q: Queue)
    requires Placed(q)
    ensures Placed(Wake(q)) && (Wake(q).receivers != [] ==> |Wake(q).woken| == |q.woken| + 1)
  {
    if q.receivers != [] {
      assert Waits(q.receivers, q.receivers[0].thread);
      CutHead(q.receivers);
      CutThreads(q.receivers, 0, q.flag);
    }
  }

  /** `woken` is 1 when the receiver was counted among the woken until now. */
  lemma RecvPlaced(q: Queue, t: nat, priority: nat, wait: bool, woken: nat)
    requires |q.messages| == |q.queue| && Placed(q) && Idle(q, t) && woken <= 1
    requires q.receivers != [] ==> |q.queue| <= |q.woken| + woken
    ensures Placed(Recv(q, t, priority, wait)) && NoLostWakeup(Recv(q, t, priority, wait))
  {
    hide Waits, Unique, InOrder, Enqueue;
    if q.queue == [] {
      EnqueueFacts(q.receivers, Waiter(t, priority, ()), q.flag);
      EnqueueThreads(q.receivers, Waiter(t, priority, ()), q.flag);
    }
  }

  lemma TimeoutPlaced(q: Queue, k: nat)
    requires Placed(q) && k < |q.receivers|
    ensures Placed(Timeout(q, k))
  {
    CutThreads(q.receivers, k, q.flag);
    assert Waits(q.receivers, q.receivers[k].thread);
  }

  // ---- every step keeps the invariant ----

  lemma SendInv(q: Queue, t: nat)
    requires Inv(q) && t in q.sending && q.sending[t].filled
    ensures Inv(SendLink(q, t))
  {
    hide Conserved, Stored, Waits, Unique, InOrder;
    LinkConserved(q, t);
    LinkStored(q, t);
    WakePlaced(Linked(q, t));
    WakeNodes(Linked(q, t));
  }

  /** Waking a thread moves no node. */
  lemma WakeNodes(q: Queue)
    requires Conserved(q) && Stored(q)
    ensures Conserved(Wake(q)) && Stored(Wake(q))
  {}

  lemma RecvAgainInv(q: Queue, t: nat, priority: nat, wait: bool)
    requires Inv(q) && t in q.woken
    ensures Inv(Recv(ReceiverRuns(q, t), t, priority, wait))
  {
    hide Conserved, Waits, Unique, InOrder, Recv;
    var q1 := ReceiverRuns(q, t);
    assert Conserved(q1) by { RunsNodes(q, t); }
    RecvConserved(q1, t, priority, wait);
    RecvStored(q1, t, priority, wait);
    RecvPlaced(q1, t, priority, wait, 1);
  }

  lemma RunsNodes(q: Queue, t: nat)
    requires Conserved(q)
    ensures Conserved(ReceiverRuns(q, t))
  {}

  lemma RecvInv(q: Queue, t: nat, priority: nat, wait: bool)
    requires Inv(q) && Idle(q, t)
    ensures Inv(Recv(q, t, priority, wait))
  {
    hide Conserved, Waits, Unique, InOrder, Recv;
    RecvConserved(q, t, priority, wait);
    RecvStored(q, t, priority, wait);
    RecvPlaced(q, t, priority, wait, 0);
  }

  lemma {:induction false} DropAllInv(q: Queue)
    requires Conserved(q) && Stored(q) && Placed(q) && q.receivers == []
    ensures Inv(DropAll(q)) && DropAll(q).queue == [] && DropAll(q).messages == []
    ensures DropAll(q).sending == q.sending && DropAll(q).receiving == q.receiving && DropAll(q).receivers == []
    ensures |DropAll(q).free| == |q.free| + |q.queue| && DropAll(q).woken == q.woken && DropAll(q).failed == q.failed
    decreases |q.queue|
  {
    hide Conserved, Waits, Unique, InOrder;
    if q.queue != [] {
      DropConserved(q);
      DropAllInv(Drop(q));
    }
  }

  lemma ResetPlaced(q: Queue)
    requires Inv(q)
    ensures var q1 := q.(receivers := [], failed := q.failed + ThreadsOf(q.receivers));
            Placed(q1) && Conserved(q1) && Stored(q1)
  {
    assert forall t :: t in ThreadsOf(q.receivers) <==> Waits(q.receivers, t);
  }

  /** A reset frees every queued message, leaves the copying threads alone, and fails every waiter. */
  lemma ResetInv(q: Queue)
    requires Inv(q)
    ensures var q' := Reset(q);
            && Inv(q') && q'.queue == [] && q'.messages == [] && q'.receivers == []
            && q'.sending == q.sending && q'.receiving == q.receiving && |q'.free| == |q.free| + |q.queue|
            && q'.woken == q.woken && q'.failed == q.failed + ThreadsOf(q.receivers)
  {
    hide DropAll;
    ResetPlaced(q);
    DropAllInv(q.(receivers := [], failed := q.failed + ThreadsOf(q.receivers)));
  }

  lemma TakeInv(q: Queue, t: nat, buffer: seq<int>, urgent: bool)
    requires Inv(q) && Idle(q, t)
    ensures Inv(SendTake(q, t, buffer, urgent))
  {
    hide Conserved, Stored, Waits, Unique, InOrder;
    TakeConserved(q, t, buffer, urgent);
    TakeStored(q, t, buffer, urgent);
  }

  lemma FillInv(q: Queue, t: nat)
    requires Inv(q) && t in q.sending
    ensures Inv(SendFill(q, t))
  {
    hide Conserved, Waits, Unique, InOrder;
    FillConserved(q, t);
    FillStored(q, t);
  }

  lemma ReleaseInv(q: Queue, t: nat)
    requires Inv(q) && t in q.receiving
    ensures Inv(RecvRelease(q, t))
  {
    hide Conserved, Waits, Unique, InOrder;
    ReleaseConserved(q, t);
  }

  lemma TimeoutInv(q: Queue, k: nat)
    requires Inv(q) && k < |q.receivers|
    ensures Inv(Timeout(q, k))
  {
    hide Waits, Unique, InOrder;
    TimeoutPlaced(q, k);
  }

  lemma ReturnErrorInv(q: Queue, t: nat)
    requires Inv(q)
    ensures Inv(q.(failed := q.failed - {t}))
  {}

  lemma StepInv(q: Queue, s: Step)
    requires Inv(q) && Enabled(q, s)
    ensures Inv(Do(q, s))
  {
    hide Conserved, Stored, Placed, NoLostWakeup, Idle, SendTake, SendLink, Recv, Reset, RecvRelease, Timeout;
    match s
    case Take(t, buffer, urgent) => TakeInv(q, t, buffer, urgent);
    case Fill(t) => FillInv(q, t);
    case Link(t) => SendInv(q, t);
    case RecvStep(t, p, wait) => RecvInv(q, t, p, wait);
    case RecvAgain(t, p, wait) => RecvAgainInv(q, t, p, wait);
    case Release(t) => ReleaseInv(q, t);
    case TimeoutStep(k) => TimeoutInv(q, k);
    case ReturnError(t) => ReturnErrorInv(q, t);
    case ResetStep => ResetInv(q);
  }

  // ---- runs ----

  /** The free list that rt_mq_init builds: the last node of the pool first. */
  function InitFree(max: nat): (s: seq<nat>)
    ensures |s| == max && forall i :: 0 <= i < max ==> s[i] == max - 1 - i
  {
    if max == 0 then [] else [max - 1] + InitFree(max - 1)
  }

  ghost predicate Initial(q: Queue) {
    && q.free == InitFree(q.max) && q.queue == [] && q.messages == [] && q.sending == map[] && q.receiving == map[]
    && q.receivers == [] && q.woken == {} && q.failed == {}
    && (forall n: nat :: n in q.owner <==> n < q.max) && (forall n :: n in q.owner ==> q.owner[n] == Free)
    && (forall n: nat :: n < q.max ==> n in q.data && |q.data[n]| == q.msgSize)
  }

  lemma InitInv(q: Queue)
    requires Initial(q)
    ensures Inv(q)
  {
    forall n: nat | n < q.max
      ensures n in q.free
    {
      assert q.free[q.max - 1 - n] == n;
    }
  }

  ghost predicate Moves(qs: seq<Queue>, ss: seq<Step>, i: int)
    requires |qs| == |ss| + 1 && 0 <= i < |ss|
  {
    Inv(qs[i]) ==> Enabled(qs[i], ss[i]) && qs[i + 1] == Do(qs[i], ss[i])
  }

  ghost predicate IsRun(qs: seq<Queue>, ss: seq<Step>) {
    && |qs| == |ss| + 1 && Initial(qs[0])
    && forall i {:trigger Moves(qs, ss, i)} :: 0 <= i < |ss| ==> Moves(qs, ss, i)
  }

  /** However the critical regions interleave, no node is lost or shared, the queue is the
      deque of messages, and no receiver sleeps while a message waits for it. */
  lemma {:induction false} RunInv(qs: seq<Queue>, ss: seq<Step>, n: nat)
    requires IsRun(qs, ss) && n < |qs|
    ensures Inv(qs[n])
  {
    hide Inv, Do, Enabled, Initial;
    if n == 0 {
      InitInv(qs[0]);
    } else {
      RunInv(qs, ss, n - 1);
      assert Moves(qs, ss, n - 1);
      StepInv(qs[n - 1], ss[n - 1]);
    }
  }

  /** What a receiver copies out, whenever it gets to copy, starts with the message that was
      first in the deque when it took its node. */
  lemma Delivered(qs: seq<Queue>, ss: seq<Step>, i: nat, j: nat, t: nat, size: nat)
    requires IsRun(qs, ss) && i < j < |qs| && t !in qs[i].receiving
    requires forall k :: i < k <= j ==> t in qs[k].receiving
    ensures qs[i].messages != [] && Inv(qs[j])
    ensures var m, got := qs[i].messages[0], Read(qs[j], t, size);
            && |got| == (if size <= qs[j].msgSize then size else qs[j].msgSize)
            && if size <= |m| then got == m[..size] else m <= got
  {
    hide Do, Enabled;
    RunInv(qs, ss, i);
    HandKept(qs, ss, i, j, t);
    RunInv(qs, ss, j);
    var hand := qs[j].receiving[t];
    assert Starts(qs[j].data, hand.node, hand.message);
  }

  /** While it copies, a receiver holds the node and message it took. */
  lemma {:induction false} HandKept(qs: seq<Queue>, ss: seq<Step>, i: nat, j: nat, t: nat)
    requires IsRun(qs, ss) && i < j < |qs| && t !in qs[i].receiving && Inv(qs[i])
    requires forall k :: i < k <= j ==> t in qs[k].receiving
    ensures qs[i].messages != [] && qs[j].receiving[t].message == qs[i].messages[0]
  {
    hide Inv, Do, Enabled, Initial;
    assert Moves(qs, ss, j - 1);
    RunInv(qs, ss, j - 1);
    if i + 1 < j {
      HandKept(qs, ss, i, j - 1, t);
      HandStep(qs[j - 1], ss[j - 1], t);
    } else {
      TakesHead(qs[i], ss[i], t);
    }
  }

  lemma HandStep(q: Queue, s: Step, t: nat)
    requires Inv(q) && Enabled(q, s) && t in q.receiving && t in Do(q, s).receiving
    ensures Do(q, s).receiving[t] == q.receiving[t]
  {
    hide Conserved, Stored, Unique, InOrder, Enqueue;
    if s.ResetStep? { ResetInv(q); }
  }

  lemma TakesHead(q: Queue, s: Step, t: nat)
    requires Inv(q) && Enabled(q, s) && t !in q.receiving && t in Do(q, s).receiving
    ensures q.messages != [] && Do(q, s).receiving[t].message == q.messages[0]
  {
    hide Conserved, Stored, Unique, InOrder, Enqueue;
    if s.ResetStep? { ResetInv(q); }
  }

  // ---- the order of delivery ----

  datatype Message = Message(buffer: seq<int>, urgent: bool)

  /** What thread `t` last called rt_mq_send or rt_mq_urgent with, before step `n`. */
  ghost function Called(ss: seq<Step>, n: nat, t: nat): Option<Message>
    requires n <= |ss|
  {
    if n == 0 then None
    else if ss[n - 1].Take? && ss[n - 1].t == t then Some(Message(ss[n - 1].buffer, ss[n - 1].urgent))
    else Called(ss, n - 1, t)
  }

  /** The messages that receivers have taken since the last reset. */
  ghost function Taken(qs: seq<Queue>, ss: seq<Step>, n: nat): seq<seq<int>>
    requires n <= |ss| && |qs| == |ss| + 1
  {
    if n == 0 || ss[n - 1].ResetStep? then []
    else if (ss[n - 1].RecvStep? || ss[n - 1].RecvAgain?) && qs[n - 1].messages != [] then
      Taken(qs, ss, n - 1) + [qs[n - 1].messages[0]]
    else Taken(qs, ss, n - 1)
  }

  /** The messages put in the queue since the last reset, in the order in which they are due:
      one that is sent comes last, an urgent one next. */
  ghost function Due(qs: seq<Queue>, ss: seq<Step>, n: nat): seq<seq<int>>
    requires n <= |ss| && |qs| == |ss| + 1
  {
    if n == 0 || ss[n - 1].ResetStep? then []
    else
      var due := Due(qs, ss, n - 1);
      if ss[n - 1].Link? && Called(ss, n - 1, ss[n - 1].t).Some? then
        var m, k := Called(ss, n - 1, ss[n - 1].t).value, |Taken(qs, ss, n - 1)|;
        if m.urgent && k <= |due| then due[..k] + [m.buffer] + due[k..] else due + [m.buffer]
      else due
  }

  /** A thread that sends holds the message it was called with. */
  ghost predicate Carries(q: Queue, ss: seq<Step>, n: nat)
    requires n <= |ss|
  {
    forall t :: t in q.sending ==> Called(ss, n, t) == Some(Message(q.sending[t].buffer, q.sending[t].urgent))
  }

  lemma SendingAfter(q: Queue, s: Step)
    requires Inv(q) && Enabled(q, s)
    ensures forall t :: t in Do(q, s).sending ==>
              if s.Take? && s.t == t then
                t in q.sending || (Do(q, s).sending[t].buffer == s.buffer && Do(q, s).sending[t].urgent == s.urgent)
              else
                && t in q.sending && Do(q, s).sending[t].buffer == q.sending[t].buffer
                && Do(q, s).sending[t].urgent == q.sending[t].urgent
  {
    hide Conserved, Stored, Unique, InOrder, Enqueue, Waits;
    if s.ResetStep? { ResetInv(q); }
  }

  lemma CarriesOn(q: Queue, ss: seq<Step>, n: nat)
    requires n < |ss| && Inv(q) && Enabled(q, ss[n]) && Carries(q, ss, n)
    ensures Carries(Do(q, ss[n]), ss, n + 1)
  {
    assert ss[n].Take? ==> ss[n].t !in q.sending;
    hide Inv, Do, Enabled;
    SendingAfter(q, ss[n]);
  }

  /** What a step does to the messages of the queue. */
  lemma NextMessages(q: Queue, s: Step)
    requires Inv(q) && Enabled(q, s)
    ensures var messages' := Do(q, s).messages;
            match s
            case Link(t) =>
              var m := q.sending[t];
              messages' == if m.urgent then [m.buffer] + q.messages else q.messages + [m.buffer]
            case RecvStep(_, _, _) => messages' == if q.messages != [] then q.messages[1..] else []
            case RecvAgain(_, _, _) => messages' == if q.messages != [] then q.messages[1..] else []
            case ResetStep => messages' == []
            case _ => messages' == q.messages
  {
    hide Conserved, Unique, InOrder, Enqueue, Waits;
    if s.ResetStep? { ResetInv(q); }
  }

  /** Messages are taken in the order in which they are due, whatever interleaves: in every
      state of every run those taken are the first of them and the queue holds the rest. */
  lemma {:induction false} InDueOrder(qs: seq<Queue>, ss: seq<Step>, n: nat)
    requires IsRun(qs, ss) && n < |qs|
    ensures Taken(qs, ss, n) + qs[n].messages == Due(qs, ss, n)
    ensures Carries(qs[n], ss, n)
  {
    hide Inv, Do, Enabled, Taken, Due;
    if n == 0 {
      NothingDue(qs, ss);
    } else {
      InDueOrder(qs, ss, n - 1);
      RunInv(qs, ss, n - 1);
      assert Moves(qs, ss, n - 1);
      CarriesOn(qs[n - 1], ss, n - 1);
      NextDue(qs, ss, n - 1);
    }
  }

  lemma NothingDue(qs: seq<Queue>, ss: seq<Step>)
    requires |qs| == |ss| + 1
    ensures Taken(qs, ss, 0) == [] && Due(qs, ss, 0) == []
  {}

  lemma NextDue(qs: seq<Queue>, ss: seq<Step>, n: nat)
    requires n < |ss| && |qs| == |ss| + 1 && Inv(qs[n]) && Enabled(qs[n], ss[n]) && qs[n + 1] == Do(qs[n], ss[n])
    requires Carries(qs[n], ss, n) && Taken(qs, ss, n) + qs[n].messages == Due(qs, ss, n)
    ensures Taken(qs, ss, n + 1) + qs[n + 1].messages == Due(qs, ss, n + 1)
  {
    hide Inv, Do, Called;
    NextMessages(qs[n], ss[n]);
    var taken, rest := Taken(qs, ss, n), qs[n].messages;
    assert rest != [] ==> taken + [rest[0]] + rest[1..] == taken + rest;
    assert (taken + rest)[..|taken|] == taken && (taken + rest)[|taken|..] == rest;
    forall m
      ensures taken + (rest + [m]) == taken + rest + [m] && taken + ([m] + rest) == taken + [m] + rest
    {}
  }

  /** The messages of the sends that were completed, in that order, by the calls alone. */
  ghost function Completed(ss: seq<Step>, n: nat): seq<seq<int>>
    requires n <= |ss|
  {
    if n == 0 then []
    else if ss[n - 1].Link? && Called(ss, n - 1, ss[n - 1].t).Some? then
      Completed(ss, n - 1) + [Called(ss, n - 1, ss[n - 1].t).value.buffer]
    else Completed(ss, n - 1)
  }

  lemma {:induction false} NeverUrgent(ss: seq<Step>, n: nat, t: nat)
    requires n <= |ss| && forall i :: 0 <= i < n ==> !(ss[i].Take? && ss[i].urgent)
    ensures Called(ss, n, t).Some? ==> !Called(ss, n, t).value.urgent
  {
    if n > 0 { NeverUrgent(ss, n - 1, t); }
  }

  lemma {:induction false} DueIsCompleted(qs: seq<Queue>, ss: seq<Step>, n: nat)
    requires |qs| == |ss| + 1 && n <= |ss|
    requires forall i :: 0 <= i < n ==> !(ss[i].Take? && ss[i].urgent) && !ss[i].ResetStep?
    ensures Due(qs, ss, n) == Completed(ss, n)
  {
    if n > 0 {
      DueIsCompleted(qs, ss, n - 1);
      if ss[n - 1].Link? { NeverUrgent(ss, n - 1, ss[n - 1].t); }
    }
  }

  /** First in, first out: in a run without urgent messages and resets, the messages taken are
      the first of those sent, in the order in which the sends were completed. */
  lemma FirstInFirstOut(qs: seq<Queue>, ss: seq<Step>, n: nat)
    requires IsRun(qs, ss) && n < |qs|
    requires forall i :: 0 <= i < n ==> !(ss[i].Take? && ss[i].urgent) && !ss[i].ResetStep?
    ensures Taken(qs, ss, n) + qs[n].messages == Completed(ss, n)
  {
    InDueOrder(qs, ss, n);
    DueIsCompleted(qs, ss, n);
  }

  /** The step neither takes a message nor puts an urgent one before the others. */
  ghost predicate LeavesFirst(q: Queue, s: Step) {
    match s
    case RecvStep(_, _, _) => q.messages == []
    case RecvAgain(_, _, _) => q.messages == []
    case Link(t) => t in q.sending && !q.sending[t].urgent
    case ResetStep => false
    case _ => true
  }

  lemma {:induction false} FirstStays(qs: seq<Queue>, ss: seq<Step>, i: nat, j: nat)
    requires IsRun(qs, ss) && i <= j < |qs| && qs[i].messages != []
    requires forall k :: i <= k < j ==> LeavesFirst(qs[k], ss[k])
    ensures qs[j].messages != [] && qs[j].messages[0] == qs[i].messages[0]
  {
    hide Inv, Do, Enabled;
    if i < j {
      FirstStays(qs, ss, i, j - 1);
      RunInv(qs, ss, j - 1);
      assert Moves(qs, ss, j - 1);
      NextMessages(qs[j - 1], ss[j - 1]);
      assert LeavesFirst(qs[j - 1], ss[j - 1]);
    }
  }

  /** An urgent message is the next one taken, unless another urgent one or a reset comes
      before. */
  lemma UrgentNext(qs: seq<Queue>, ss: seq<Step>, i: nat, j: nat)
    requires IsRun(qs, ss) && i < j < |ss| && ss[i].Link? && (ss[j].RecvStep? || ss[j].RecvAgain?)
    requires Called(ss, i, ss[i].t).Some? && Called(ss, i, ss[i].t).value.urgent
    requires forall k :: i < k < j ==> LeavesFirst(qs[k], ss[k])
    ensures var t, m := ss[j].t, Called(ss, i, ss[i].t).value;
            t in qs[j + 1].receiving && qs[j + 1].receiving[t].message == m.buffer
  {
    hide Inv, Do, Called, LeavesFirst;
    RunInv(qs, ss, i);
    RunInv(qs, ss, j);
    assert Moves(qs, ss, i) && Moves(qs, ss, j);
    InDueOrder(qs, ss, i);
    NextMessages(qs[i], ss[i]);
    FirstStays(qs, ss, i + 1, j);
    ReceivesFirst(qs[j], ss[j]);
  }

  lemma ReceivesFirst(q: Queue, s: Step)
    requires Inv(q) && Enabled(q, s) && (s.RecvStep? || s.RecvAgain?) && q.messages != []
    ensures s.t in Do(q, s).receiving && Do(q, s).receiving[s.t].message == q.messages[0]
  {
    hide Conserved, Unique, InOrder, Enqueue, Waits;
  }

  // ---- the threads ----

  /** Where a thread is: outside, with a node to fill, with a full one to put in the queue,
      waiting, woken and about to run, with a node to read, or about to return an error. */
  datatype Phase = Outside | Fills | Puts | WaitsToReceive | RunsToReceive | Reads | Fails

  ghost function PhaseOf(q: Queue, t: nat): Phase {
    if t in q.sending then (if q.sending[t].filled then Puts else Fills)
    else if t in q.receiving then Reads
    else if Waits(q.receivers, t) then WaitsToReceive
    else if t in q.woken then RunsToReceive
    else if t in q.failed then Fails
    else Outside
  }

  ghost function NextPhase(q: Queue, s: Step, t: nat): Phase
    requires Enabled(q, s)
  {
    var received := if q.queue != [] then Reads else Outside;
    match s
    case Take(u, buffer, _) =>
      if t != u then PhaseOf(q, t) else if q.free != [] && |buffer| <= q.msgSize then Fills else Outside
    case Fill(u) => if t == u then Puts else PhaseOf(q, t)
    case Link(u) =>
      if t == u then Outside
      else if q.receivers != [] && t == q.receivers[0].thread then RunsToReceive
      else PhaseOf(q, t)
    case RecvStep(u, _, wait) =>
      if t != u then PhaseOf(q, t) else if q.queue == [] && wait then WaitsToReceive else received
    case RecvAgain(u, _, wait) =>
      if t != u then PhaseOf(q, t) else if q.queue == [] && wait then WaitsToReceive else received
    case Release(u) => if t == u then Outside else PhaseOf(q, t)
    case TimeoutStep(k) => if t == q.receivers[k].thread then Fails else PhaseOf(q, t)
    case ReturnError(u) => if t == u then Outside else PhaseOf(q, t)
    case ResetStep => if PhaseOf(q, t).WaitsToReceive? then Fails else PhaseOf(q, t)
  }

  lemma RecvPhases(q: Queue, t: nat, u: nat, priority: nat, wait: bool)
    requires |q.messages| == |q.queue| && Placed(q) && Idle(q, u)
    ensures PhaseOf(Recv(q, u, priority, wait), t) ==
              if t != u then PhaseOf(q, t)
              else if q.queue == [] then (if wait then WaitsToReceive else Outside)
              else Reads
  {
    hide Waits, Unique, InOrder, Enqueue;
    if q.queue == [] { EnqueueThreads(q.receivers, Waiter(u, priority, ()), q.flag); }
  }

  lemma SendPhases(q: Queue, s: Step, t: nat)
    requires Inv(q) && Enabled(q, s) && (s.Take? || s.Fill? || s.Release?)
    ensures PhaseOf(Do(q, s), t) == NextPhase(q, s, t)
  {
    hide Conserved, Starts, Waits, Unique, InOrder;
  }

  lemma LinkPhases(q: Queue, u: nat, t: nat)
    requires Placed(q) && u in q.sending
    ensures PhaseOf(SendLink(q, u), t) ==
              if t == u then Outside
              else if q.receivers != [] && t == q.receivers[0].thread then RunsToReceive
              else PhaseOf(q, t)
  {
    hide Waits, Unique, InOrder;
    if q.receivers != [] { HeadLeaves(q.receivers, q.flag); }
  }

  lemma EndPhases(q: Queue, s: Step, t: nat)
    requires Inv(q) && Enabled(q, s) && (s.TimeoutStep? || s.ReturnError? || s.ResetStep?)
    ensures PhaseOf(Do(q, s), t) == NextPhase(q, s, t)
  {
    hide Conserved, Stored, Waits, Unique, InOrder, Reset;
    match s
    case TimeoutStep(k) =>
      CutThreads(q.receivers, k, q.flag);
      ThreadsWait(q.receivers, k);
    case ReturnError(_) =>
    case ResetStep =>
      ResetInv(q);
      ThreadsWait(q.receivers, 0);
      NobodyWaits(t);
  }

  /** A receiver that starts to wait joins the list behind all that are as urgent, or behind all. */
  lemma Joins(q: Queue, t: nat, priority: nat)
    requires Inv(q) && q.queue == []
    ensures var q' := Recv(q, t, priority, true);
            exists k :: InsertedAt(q.receivers, Waiter(t, priority, ()), q.flag, q'.receivers, k)
  {
    var w := Waiter(t, priority, ());
    EnqueueFacts(q.receivers, w, q.flag);
    hide InsertedAt, Enqueue;
    assert Recv(q, t, priority, true).receivers == Enqueue(q.receivers, w, q.flag);
    assert InsertedAt(q.receivers, w, q.flag, Enqueue(q.receivers, w, q.flag),
      if q.flag == Fifo then |q.receivers| else Position(q.receivers, w.priority));
  }

  /** Every step moves exactly the threads it should: its own, the one it wakes, the one that
      timed out, or all that wait. */
  lemma Phases(q: Queue, s: Step, t: nat)
    requires Inv(q) && Enabled(q, s)
    ensures PhaseOf(Do(q, s), t) == NextPhase(q, s, t)
  {
    hide Conserved, Starts, Waits, Unique, InOrder, Recv, Reset, SendLink;
    match s
    case RecvStep(u, p, wait) => RecvPhases(q, t, u, p, wait);
    case RecvAgain(u, p, wait) => RecvPhases(ReceiverRuns(q, u), t, u, p, wait);
    case Link(u) => LinkPhases(q, u, t);
    case TimeoutStep(_) => EndPhases(q, s, t);
    case ReturnError(_) => EndPhases(q, s, t);
    case ResetStep => EndPhases(q, s, t);
    case _ => SendPhases(q, s, t);
  }

  lemma ThreadsWait(q: seq<Waiter<()>>, k: nat)
    ensures forall t :: t in ThreadsOf(q) <==> Waits(q, t)
    ensures k < |q| ==> Waits(q, q[k].thread)
  {}

  lemma NobodyWaits(t: nat)
    ensures !Waits<()>([], t)
  {}
}
