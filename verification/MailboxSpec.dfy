/** Mailboxes (ipc.c): a bounded ring of words with threads that wait to receive and to
    send. A woken thread runs later and checks its condition again, so other threads can
    come between; each region with interrupts off is one step. */
module MailboxSpec {
  import opened Lists
  import opened IpcList

  /** `wokenReceivers` and `wokenSenders` are resumed but have not run yet; `failed` have
      timed out or were reset. */
  datatype Mailbox = Mailbox(
    size: nat, flag: Flag, queue: seq<int>,
    receivers: seq<Waiter<()>>, senders: seq<Waiter<int>>,
    wokenReceivers: set<nat>, wokenSenders: map<nat, int>, failed: set<nat>)

  function Init(size: nat, flag: Flag): Mailbox {
    Mailbox(size, flag, [], [], [], {}, map[], {})
  }

  ghost predicate Idle(m: Mailbox, t: nat) {
    && !Waits(m.receivers, t) && !Waits(m.senders, t)
    && t !in m.wokenReceivers && t !in m.wokenSenders && t !in m.failed
  }

  /** Every thread is in one place only. */
  ghost predicate Placed(m: Mailbox) {
    && Unique(m.receivers) && Unique(m.senders)
    && (forall t :: Waits(m.receivers, t) ==>
         !Waits(m.senders, t) && t !in m.wokenReceivers && t !in m.wokenSenders && t !in m.failed)
    && (forall t :: Waits(m.senders, t) ==> t !in m.wokenReceivers && t !in m.wokenSenders && t !in m.failed)
    && m.wokenReceivers !! m.wokenSenders.Keys && m.wokenReceivers !! m.failed && m.wokenSenders.Keys !! m.failed
  }

  /** No wakeup is lost: a thread is left waiting only while the threads already woken can
      use up everything it could wait for. */
  ghost predicate NoLostWakeup(m: Mailbox) {
    && (m.receivers != [] ==> |m.queue| <= |m.wokenReceivers|)
    && (m.senders != [] ==> m.size - |m.queue| <= |m.wokenSenders|)
  }

  ghost predicate Inv(m: Mailbox) {
    && |m.queue| <= m.size
    && Placed(m)
    && InOrder(m.receivers, m.flag) && InOrder(m.senders, m.flag)
    && NoLostWakeup(m)
  }

  // ---- the steps ----

  function WakeReceiver(m: Mailbox): Mailbox {
    if m.receivers == [] then m
    else m.(receivers := m.receivers[1..], wokenReceivers := m.wokenReceivers + {m.receivers[0].thread})
  }

  function WakeSender(m: Mailbox): Mailbox {
    if m.senders == [] then m
    else m.(senders := m.senders[1..], wokenSenders := m.wokenSenders[m.senders[0].thread := m.senders[0].arg])
  }

  /** One pass of rt_mb_send_wait up to its next interrupt-enabled point. */
  function Send(m: Mailbox, t: nat, priority: nat, value: int, wait: bool): Mailbox {
    if |m.queue| == m.size then
      if wait then m.(senders := Enqueue(m.senders, Waiter(t, priority, value), m.flag)) else m
    else
      WakeReceiver(m.(queue := m.queue + [value]))
  }

  /** One pass of rt_mb_recv. */
  function Recv(m: Mailbox, t: nat, priority: nat, wait: bool): Mailbox {
    if m.queue == [] then
      if wait then m.(receivers := Enqueue(m.receivers, Waiter(t, priority, ()), m.flag)) else m
    else
      WakeSender(m.(queue := m.queue[1..]))
  }

  /** A woken thread is about to run its next pass. */
  function SenderRuns(m: Mailbox, t: nat): Mailbox { m.(wokenSenders := m.wokenSenders - {t}) }

  function ReceiverRuns(m: Mailbox, t: nat): Mailbox { m.(wokenReceivers := m.wokenReceivers - {t}) }

  /** rt_mb_control with RT_IPC_CMD_RESET. */
  function Reset(m: Mailbox): Mailbox {
    m.(queue := [], receivers := [], senders := [],
       failed := m.failed + ThreadsOf(m.receivers) + ThreadsOf(m.senders))
  }

  datatype Step =
    | SendStep(t: nat, priority: nat, value: int, wait: bool)
    | RecvStep(t: nat, priority: nat, wait: bool)
    | SendAgain(t: nat, priority: nat, wait: bool)
    | RecvAgain(t: nat, priority: nat, wait: bool)
    | SenderTimeout(k: nat)
    | ReceiverTimeout(k: nat)
    | ReturnError(t: nat)
    | ResetStep

  ghost predicate Enabled(m: Mailbox, s: Step) {
    match s
    case SendStep(t, _, _, _) => Idle(m, t)
    case RecvStep(t, _, _) => Idle(m, t)
    case SendAgain(t, _, _) => t in m.wokenSenders
    case RecvAgain(t, _, _) => t in m.wokenReceivers
    case SenderTimeout(k) => k < |m.senders|
    case ReceiverTimeout(k) => k < |m.receivers|
    case ReturnError(t) => t in m.failed
    case ResetStep => true
  }

  function Do(m: Mailbox, s: Step): Mailbox
    requires Enabled(m, s)
  {
    match s
    case SendStep(t, p, v, wait) => Send(m, t, p, v, wait)
    case RecvStep(t, p, wait) => Recv(m, t, p, wait)
    case SendAgain(t, p, wait) => Send(SenderRuns(m, t), t, p, m.wokenSenders[t], wait)
    case RecvAgain(t, p, wait) => Recv(ReceiverRuns(m, t), t, p, wait)
    case SenderTimeout(k) => m.(senders := Cut(m.senders, k), failed := m.failed + {m.senders[k].thread})
    case ReceiverTimeout(k) => m.(receivers := Cut(m.receivers, k), failed := m.failed + {m.receivers[k].thread})
    case ReturnError(t) => m.(failed := m.failed - {t})
    case ResetStep => Reset(m)
  }

  // ---- every step keeps the invariant ----

  /** The invariant while thread `t` runs a pass: a woken thread no longer counts, but
      what was promised to it may still be there. */
  ghost predicate Running(m: Mailbox, t: nat, receiver: bool, sender: bool) {
    && |m.queue| <= m.size && Placed(m) && Idle(m, t)
    && InOrder(m.receivers, m.flag) && InOrder(m.senders, m.flag)
    && (m.receivers != [] ==> |m.queue| <= |m.wokenReceivers| + if receiver then 1 else 0)
    && (m.senders != [] ==> m.size - |m.queue| <= |m.wokenSenders| + if sender then 1 else 0)
  }

  lemma WakeReceiverInv(m: Mailbox)
    requires Placed(m) && InOrder(m.receivers, m.flag)
    ensures var m' := WakeReceiver(m);
            && Placed(m') && InOrder(m'.receivers, m.flag)
            && (m'.receivers != [] ==> |m'.wokenReceivers| == |m.wokenReceivers| + 1)
  {
    hide Waits, Unique, InOrder;
    if m.receivers != [] { HeadLeaves(m.receivers, m.flag); }
  }

  lemma WakeSenderInv(m: Mailbox)
    requires Placed(m) && InOrder(m.senders, m.flag)
    ensures var m' := WakeSender(m);
            && Placed(m') && InOrder(m'.senders, m.flag)
            && (m'.senders != [] ==> |m'.wokenSenders| == |m.wokenSenders| + 1)
  {
    hide Waits, Unique, InOrder;
    if m.senders != [] { HeadLeaves(m.senders, m.flag); }
  }

  lemma SendInv(m: Mailbox, t: nat, priority: nat, value: int, wait: bool, sender: bool)
    requires Running(m, t, false, sender)
    ensures Inv(Send(m, t, priority, value, wait))
  {
    hide Waits, Unique, Enqueue, InOrder;
    if |m.queue| < m.size {
      WakeReceiverInv(m.(queue := m.queue + [value]));
    } else {
      EnqueueFacts(m.senders, Waiter(t, priority, value), m.flag);
      EnqueueThreads(m.senders, Waiter(t, priority, value), m.flag);
    }
  }

  lemma RecvInv(m: Mailbox, t: nat, priority: nat, wait: bool, receiver: bool)
    requires Running(m, t, receiver, false)
    ensures Inv(Recv(m, t, priority, wait))
  {
    hide Waits, Unique, Enqueue, InOrder;
    if m.queue != [] {
      WakeSenderInv(m.(queue := m.queue[1..]));
    } else {
      EnqueueFacts(m.receivers, Waiter(t, priority, ()), m.flag);
      EnqueueThreads(m.receivers, Waiter(t, priority, ()), m.flag);
    }
  }

  lemma SendAgainInv(m: Mailbox, t: nat, priority: nat, wait: bool)
    requires Inv(m) && t in m.wokenSenders
    ensures Inv(Send(SenderRuns(m, t), t, priority, m.wokenSenders[t], wait))
  {
    hide Waits, Unique, InOrder, Send;
    SizeWithout(m.wokenSenders, t);
    SendInv(SenderRuns(m, t), t, priority, m.wokenSenders[t], wait, true);
  }

  lemma RecvAgainInv(m: Mailbox, t: nat, priority: nat, wait: bool)
    requires Inv(m) && t in m.wokenReceivers
    ensures Inv(Recv(ReceiverRuns(m, t), t, priority, wait))
  {
    hide Waits, Unique, InOrder, Recv;
    RecvInv(ReceiverRuns(m, t), t, priority, wait, true);
  }

  lemma SenderTimeoutInv(m: Mailbox, k: nat)
    requires Inv(m) && k < |m.senders|
    ensures Inv(m.(senders := Cut(m.senders, k), failed := m.failed + {m.senders[k].thread}))
  {
    hide Waits, Unique, InOrder;
    CutThreads(m.senders, k, m.flag);
    WaitsAt(m.senders, k);
  }

  lemma ReceiverTimeoutInv(m: Mailbox, k: nat)
    requires Inv(m) && k < |m.receivers|
    ensures Inv(m.(receivers := Cut(m.receivers, k), failed := m.failed + {m.receivers[k].thread}))
  {
    hide Waits, Unique, InOrder;
    CutThreads(m.receivers, k, m.flag);
    WaitsAt(m.receivers, k);
  }

  lemma EntersInv(m: Mailbox, t: nat)
    requires Inv(m) && Idle(m, t)
    ensures Running(m, t, false, false)
  {}

  lemma ReturnErrorInv(m: Mailbox, t: nat)
    requires Inv(m)
    ensures Inv(m.(failed := m.failed - {t}))
  {}

  lemma StepInv(m: Mailbox, s: Step)
    requires Inv(m) && Enabled(m, s)
    ensures Inv(Do(m, s))
  {
    hide Inv, Running, Idle, Send, Recv, Reset;
    match s
    case SendStep(t, p, v, wait) => EntersInv(m, t); SendInv(m, t, p, v, wait, false);
    case RecvStep(t, p, wait) => EntersInv(m, t); RecvInv(m, t, p, wait, false);
    case SendAgain(t, p, wait) => SendAgainInv(m, t, p, wait);
    case RecvAgain(t, p, wait) => RecvAgainInv(m, t, p, wait);
    case SenderTimeout(k) => SenderTimeoutInv(m, k);
    case ReceiverTimeout(k) => ReceiverTimeoutInv(m, k);
    case ReturnError(t) => ReturnErrorInv(m, t);
    case ResetStep => ResetInv(m);
  }

  lemma SizeWithout(w: map<nat, int>, t: nat)
    requires t in w
    ensures |w - {t}| == |w| - 1
  {
    assert (w - {t}).Keys == w.Keys - {t};
    assert |w| == |w.Keys| && |w - {t}| == |(w - {t}).Keys|;
  }

  lemma WaitsAt<T>(q: seq<Waiter<T>>, k: nat)
    requires k < |q|
    ensures Waits(q, q[k].thread)
  {}

  lemma ThreadsWait<T>(q: seq<Waiter<T>>)
    ensures forall t :: t in ThreadsOf(q) <==> Waits(q, t)
  {}

  lemma ResetInv(m: Mailbox)
    requires Inv(m)
    ensures Inv(Reset(m))
  {
    ThreadsWait(m.receivers);
    ThreadsWait(m.senders);
  }

  // ---- runs ----

  ghost predicate IsRun(ms: seq<Mailbox>, ss: seq<Step>) {
    && |ms| == |ss| + 1
    && forall i {:trigger Moves(ms, ss, i)} :: 0 <= i < |ss| ==> Moves(ms, ss, i)
  }

  ghost predicate Moves(ms: seq<Mailbox>, ss: seq<Step>, i: int)
    requires |ms| == |ss| + 1 && 0 <= i < |ss|
  {
    Enabled(ms[i], ss[i]) && ms[i + 1] == Do(ms[i], ss[i])
  }

  /** No run of sends, receives, retries, timeouts and resets, in whatever order, loses a
      wakeup. */
  lemma {:induction false} RunInv(size: nat, flag: Flag, ms: seq<Mailbox>, ss: seq<Step>, n: nat)
    requires IsRun(ms, ss) && ms[0] == Init(size, flag) && n < |ms|
    ensures Inv(ms[n])
  {
    hide Inv, Do, Enabled;
    if n == 0 {
      InitInv(size, flag);
    } else {
      RunInv(size, flag, ms, ss, n - 1);
      assert Moves(ms, ss, n - 1);
      StepInv(ms[n - 1], ss[n - 1]);
    }
  }

  lemma InitInv(size: nat, flag: Flag)
    ensures Inv(Init(size, flag))
  {}

  /** Once every woken thread has run, a thread still waits only for what is not there. */
  lemma Quiescent(size: nat, flag: Flag, ms: seq<Mailbox>, ss: seq<Step>, n: nat)
    requires IsRun(ms, ss) && ms[0] == Init(size, flag) && n < |ms|
    requires ms[n].wokenReceivers == {} && ms[n].wokenSenders == map[]
    ensures ms[n].receivers != [] ==> ms[n].queue == []
    ensures ms[n].senders != [] ==> |ms[n].queue| == ms[n].size
  {
    RunInv(size, flag, ms, ss, n);
  }

  // ---- the words ----

  /** The word that thread `t` last called rt_mb_send_wait with, before step `n`. */
  ghost function Called(ss: seq<Step>, n: nat, t: nat): Option<int>
    requires n <= |ss|
  {
    if n == 0 then None
    else if ss[n - 1].SendStep? && ss[n - 1].t == t then Some(ss[n - 1].value)
    else Called(ss, n - 1, t)
  }

  /** The words callers have sent since the last reset, in the order in which their calls
      found room: at once, or after a wait. */
  ghost function Sent(ms: seq<Mailbox>, ss: seq<Step>, n: nat): seq<int>
    requires n <= |ss| && |ms| == |ss| + 1
  {
    if n == 0 then []
    else
      var words, room := Sent(ms, ss, n - 1), |ms[n - 1].queue| < ms[n - 1].size;
      match ss[n - 1]
      case SendStep(_, _, value, _) => if room then words + [value] else words
      case SendAgain(t, _, _) =>
        if room && Called(ss, n - 1, t).Some? then words + [Called(ss, n - 1, t).value] else words
      case ResetStep => []
      case _ => words
  }

  /** The words that receivers have returned with since the last reset. */
  ghost function Received(ms: seq<Mailbox>, ss: seq<Step>, n: nat): seq<int>
    requires n <= |ss| && |ms| == |ss| + 1
  {
    if n == 0 then []
    else
      var words, queue := Received(ms, ss, n - 1), ms[n - 1].queue;
      if ss[n - 1].ResetStep? then []
      else if (ss[n - 1].RecvStep? || ss[n - 1].RecvAgain?) && queue != [] then words + [queue[0]]
      else words
  }

  /** A waiting or woken sender still carries the word it was called with. */
  ghost predicate Carries(m: Mailbox, ss: seq<Step>, n: nat)
    requires n <= |ss|
  {
    && (forall w :: w in m.senders ==> Called(ss, n, w.thread) == Some(w.arg))
    && (forall t :: t in m.wokenSenders ==> Called(ss, n, t) == Some(m.wokenSenders[t]))
  }

  lemma SendersAfter(m: Mailbox, s: Step)
    requires Inv(m) && Enabled(m, s)
    ensures var m' := Do(m, s);
            && (forall w :: w in m'.senders ==>
                  || w in m.senders || (s.SendStep? && w.thread == s.t && w.arg == s.value)
                  || (s.SendAgain? && w.thread == s.t && w.arg == m.wokenSenders[s.t]))
            && (forall t :: t in m'.wokenSenders ==>
                  || (t in m.wokenSenders && m'.wokenSenders[t] == m.wokenSenders[t])
                  || (m.senders != [] && t == m.senders[0].thread && m'.wokenSenders[t] == m.senders[0].arg))
  {
    hide Unique, InOrder, Placed, Waits, Enqueue, Cut;
    match s
    case SendStep(t, p, v, wait) => EnqueueMembers(m.senders, Waiter(t, p, v), m.flag);
    case SendAgain(t, p, wait) => EnqueueMembers(m.senders, Waiter(t, p, m.wokenSenders[t]), m.flag);
    case SenderTimeout(k) => CutMembers(m.senders, k);
    case _ =>
  }

  lemma CarriesOn(m: Mailbox, ss: seq<Step>, n: nat)
    requires n < |ss| && Inv(m) && Enabled(m, ss[n]) && Carries(m, ss, n)
    ensures Carries(Do(m, ss[n]), ss, n + 1)
  {
    var s, m' := ss[n], Do(m, ss[n]);
    assert s.SendStep? ==> Idle(m, s.t);
    assert forall i :: 0 <= i < |m.senders| ==> Waits(m.senders, m.senders[i].thread);
    hide Inv, Do, Unique, InOrder, Placed, Waits;
    SendersAfter(m, s);
    assert m.senders != [] ==> m.senders[0] in m.senders;
  }

  /** Every word that is sent is received, once and in order: what receivers return is, in
      every state of every run, the first part of what callers sent, and the mailbox holds
      the rest. */
  lemma {:induction false} Words(size: nat, flag: Flag, ms: seq<Mailbox>, ss: seq<Step>, n: nat)
    requires IsRun(ms, ss) && ms[0] == Init(size, flag) && n < |ms|
    ensures Received(ms, ss, n) + ms[n].queue == Sent(ms, ss, n)
    ensures Carries(ms[n], ss, n)
  {
    hide Inv, Do, Enabled, Sent, Received;
    if n == 0 {
      NoWords(ms, ss);
    } else {
      Words(size, flag, ms, ss, n - 1);
      RunInv(size, flag, ms, ss, n - 1);
      assert Moves(ms, ss, n - 1);
      CarriesOn(ms[n - 1], ss, n - 1);
      NextWords(ms, ss, n - 1);
    }
  }

  lemma NoWords(ms: seq<Mailbox>, ss: seq<Step>)
    requires |ms| == |ss| + 1
    ensures Sent(ms, ss, 0) == [] && Received(ms, ss, 0) == []
  {}

  lemma NextWords(ms: seq<Mailbox>, ss: seq<Step>, n: nat)
    requires n < |ss| && |ms| == |ss| + 1 && Inv(ms[n]) && Enabled(ms[n], ss[n]) && ms[n + 1] == Do(ms[n], ss[n])
    requires Carries(ms[n], ss, n) && Received(ms, ss, n) + ms[n].queue == Sent(ms, ss, n)
    ensures Received(ms, ss, n + 1) + ms[n + 1].queue == Sent(ms, ss, n + 1)
  {
    hide Inv, Do, Called;
    NextQueue(ms[n], ss[n]);
    var words, queue := Received(ms, ss, n), ms[n].queue;
    assert queue != [] ==> words + [queue[0]] + queue[1..] == words + queue;
    forall v
      ensures words + (queue + [v]) == words + queue + [v]
    {}
  }

  /** What a step does to the words in the mailbox. */
  lemma NextQueue(m: Mailbox, s: Step)
    requires Inv(m) && Enabled(m, s)
    ensures var room, queue' := |m.queue| < m.size, Do(m, s).queue;
            match s
            case SendStep(_, _, value, _) => queue' == if room then m.queue + [value] else m.queue
            case SendAgain(t, _, _) => queue' == if room then m.queue + [m.wokenSenders[t]] else m.queue
            case RecvStep(_, _, _) => queue' == if m.queue != [] then m.queue[1..] else []
            case RecvAgain(_, _, _) => queue' == if m.queue != [] then m.queue[1..] else []
            case ResetStep => queue' == []
            case _ => queue' == m.queue
  {}

  // ---- the threads ----

  /** Where a thread is: outside, waiting, woken and about to run, or about to return an error. */
  datatype Phase = Outside | WaitsToReceive | WaitsToSend | RunsToReceive | RunsToSend | Fails

  ghost function PhaseOf(m: Mailbox, t: nat): Phase {
    if Waits(m.receivers, t) then WaitsToReceive
    else if Waits(m.senders, t) then WaitsToSend
    else if t in m.wokenReceivers then RunsToReceive
    else if t in m.wokenSenders then RunsToSend
    else if t in m.failed then Fails
    else Outside
  }

  /** A pass of a call ends it, or makes its thread wait, and wakes the first thread of the
      other kind when it succeeds. */
  ghost function AfterPass(m: Mailbox, t: nat, caller: nat, wait: bool, succeeds: bool, waits: Phase, woken: Phase)
      : Phase
  {
    var others := if waits == WaitsToSend then ThreadsInOrder(m.receivers) else ThreadsInOrder(m.senders);
    if t == caller then (if !succeeds && wait then waits else Outside)
    else if succeeds && others != [] && others[0] == t then woken
    else PhaseOf(m, t)
  }

  ghost function ThreadsInOrder<T>(q: seq<Waiter<T>>): seq<nat> {
    seq(|q|, i requires 0 <= i < |q| => q[i].thread)
  }

  ghost function NextPhase(m: Mailbox, s: Step, t: nat): Phase
    requires Enabled(m, s)
  {
    var room, word := |m.queue| < m.size, m.queue != [];
    match s
    case SendStep(u, _, _, wait) => AfterPass(m, t, u, wait, room, WaitsToSend, RunsToReceive)
    case SendAgain(u, _, wait) => AfterPass(m, t, u, wait, room, WaitsToSend, RunsToReceive)
    case RecvStep(u, _, wait) => AfterPass(m, t, u, wait, word, WaitsToReceive, RunsToSend)
    case RecvAgain(u, _, wait) => AfterPass(m, t, u, wait, word, WaitsToReceive, RunsToSend)
    case SenderTimeout(k) => if t == m.senders[k].thread then Fails else PhaseOf(m, t)
    case ReceiverTimeout(k) => if t == m.receivers[k].thread then Fails else PhaseOf(m, t)
    case ReturnError(u) => if t == u then Outside else PhaseOf(m, t)
    case ResetStep => if PhaseOf(m, t).WaitsToReceive? || PhaseOf(m, t).WaitsToSend? then Fails else PhaseOf(m, t)
  }

  lemma SendPhases(m: Mailbox, t: nat, u: nat, priority: nat, value: int, wait: bool, sender: bool)
    requires Running(m, u, false, sender)
    ensures PhaseOf(Send(m, u, priority, value, wait), t) ==
            AfterPass(m, t, u, wait, |m.queue| < m.size, WaitsToSend, RunsToReceive)
  {
    hide Waits, Unique, Enqueue, InOrder;
    if |m.queue| < m.size {
      if m.receivers != [] { HeadLeaves(m.receivers, m.flag); }
    } else {
      EnqueueThreads(m.senders, Waiter(u, priority, value), m.flag);
    }
  }

  lemma RecvPhases(m: Mailbox, t: nat, u: nat, priority: nat, wait: bool, receiver: bool)
    requires Running(m, u, receiver, false)
    ensures PhaseOf(Recv(m, u, priority, wait), t) ==
            AfterPass(m, t, u, wait, m.queue != [], WaitsToReceive, RunsToSend)
  {
    hide Waits, Unique, Enqueue, InOrder;
    if m.queue != [] {
      if m.senders != [] { HeadLeaves(m.senders, m.flag); }
    } else {
      EnqueueThreads(m.receivers, Waiter(u, priority, ()), m.flag);
    }
  }

  /** Every step moves exactly the threads it should: its own, the one it wakes, the one that
      timed out, or all that wait. */
  lemma Phases(m: Mailbox, s: Step, t: nat)
    requires Inv(m) && Enabled(m, s)
    ensures PhaseOf(Do(m, s), t) == NextPhase(m, s, t)
  {
    hide Waits, Unique, InOrder, Send, Recv, Reset;
    match s
    case SendStep(u, p, v, wait) => SendPhases(m, t, u, p, v, wait, false);
    case RecvStep(u, p, wait) => RecvPhases(m, t, u, p, wait, false);
    case SendAgain(u, p, wait) => SendAgainPhases(m, t, u, p, wait);
    case RecvAgain(u, p, wait) => RecvPhases(ReceiverRuns(m, u), t, u, p, wait, true);
    case _ => EndPhases(m, s, t);
  }

  lemma SendAgainPhases(m: Mailbox, t: nat, u: nat, priority: nat, wait: bool)
    requires Inv(m) && u in m.wokenSenders
    ensures PhaseOf(Send(SenderRuns(m, u), u, priority, m.wokenSenders[u], wait), t) ==
            AfterPass(m, t, u, wait, |m.queue| < m.size, WaitsToSend, RunsToReceive)
  {
    hide Waits, Unique, InOrder, Send;
    SizeWithout(m.wokenSenders, u);
    SendPhases(SenderRuns(m, u), t, u, priority, m.wokenSenders[u], wait, true);
  }

  lemma EndPhases(m: Mailbox, s: Step, t: nat)
    requires Inv(m) && Enabled(m, s) && (s.SenderTimeout? || s.ReceiverTimeout? || s.ReturnError? || s.ResetStep?)
    ensures PhaseOf(Do(m, s), t) == NextPhase(m, s, t)
  {
    hide Waits, Unique, InOrder, AfterPass;
    match s
    case SenderTimeout(k) =>
      CutThreads(m.senders, k, m.flag);
      WaitsAt(m.senders, k);
    case ReceiverTimeout(k) =>
      CutThreads(m.receivers, k, m.flag);
      WaitsAt(m.receivers, k);
    case ReturnError(u) =>
    case ResetStep =>
      ThreadsWait(m.receivers);
      ThreadsWait(m.senders);
      NobodyWaits<()>(t);
      NobodyWaits<int>(t);
  }

  lemma NobodyWaits<T>(t: nat)
    ensures !Waits<T>([], t)
  {}

  /** A thread that starts to wait joins its list behind all that are as urgent, or behind
      all; the other list loses at most its first thread. */
  lemma Joins(m: Mailbox, t: nat, priority: nat, value: int)
    requires Inv(m)
    ensures |m.queue| == m.size ==> var m' := Send(m, t, priority, value, true);
            && m'.receivers == m.receivers
            && exists k :: InsertedAt(m.senders, Waiter(t, priority, value), m.flag, m'.senders, k)
    ensures m.queue == [] ==> var m' := Recv(m, t, priority, true);
            && m'.senders == m.senders
            && exists k :: InsertedAt(m.receivers, Waiter(t, priority, ()), m.flag, m'.receivers, k)
  {
    hide InsertedAt, Enqueue, Position;
    EnqueueFacts(m.senders, Waiter(t, priority, value), m.flag);
    EnqueueFacts(m.receivers, Waiter(t, priority, ()), m.flag);
  }
}
