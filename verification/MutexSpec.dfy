/** A recursive mutex with priority inheritance and a list of waiters in priority order
    (ipc.c, RT_IPC_FLAG_PRIO), on values. */
module MutexSpec {
  import opened Lists
  import opened IpcList

  /** `hold` is an 8-bit counter. `priority` are the threads' current priorities, smaller
      more urgent, and `base` those they run at on their own. `held` counts, for each thread,
      its successful takes minus its releases. */
  datatype Mutex = Mutex(
    value: nat, owner: Option<nat>, original: nat, hold: nat,
    waiters: seq<Waiter<()>>, priority: map<nat, nat>, base: map<nat, nat>, held: map<nat, nat>)

  const NO_PRIORITY: nat := 0xFF

  ghost predicate Initial(m: Mutex) {
    && m.value == 1 && m.owner == None && m.original == NO_PRIORITY && m.hold == 0 && m.waiters == []
    && m.priority == m.base && m.held.Keys == m.base.Keys && forall t :: t in m.held ==> m.held[t] == 0
  }

  ghost predicate Queue(m: Mutex) {
    && Unique(m.waiters) && Sorted(m.waiters)
    && forall w :: w in m.waiters ==> w.thread in m.base && w.priority == m.base[w.thread]
  }

  /** Owner, value and hold agree; only the owner holds the mutex. */
  ghost predicate Ownership(m: Mutex) {
    match m.owner
    case None => m.value == 1 && m.hold == 0 && m.waiters == [] && m.original == NO_PRIORITY
      && forall t :: t in m.held ==> m.held[t] == 0
    case Some(o) =>
      && m.value == 0 && o in m.held && m.held[o] > 0 && m.hold == m.held[o] % 256
      && !Waits(m.waiters, o) && forall t :: t in m.held && t != o ==> m.held[t] == 0
  }

  /** The owner runs at least as urgently as every waiter, everyone else at their own priority. */
  ghost predicate Inheritance(m: Mutex) {
    && m.priority.Keys == m.base.Keys == m.held.Keys
    && (forall t :: t in m.base && m.owner != Some(t) ==> m.priority[t] == m.base[t])
    && (m.owner.Some? && m.owner.value in m.base ==>
          && m.original == m.base[m.owner.value] && m.priority[m.owner.value] <= m.base[m.owner.value]
          && forall w :: w in m.waiters ==> m.priority[m.owner.value] <= w.priority)
  }

  ghost predicate Inv(m: Mutex) { Queue(m) && Ownership(m) && Inheritance(m) }

  /** Every thread in play has a priority and a count. */
  lemma Known(m: Mutex)
    requires Inv(m)
    ensures m.priority.Keys == m.base.Keys == m.held.Keys && forall w :: w in m.waiters ==> w.thread in m.base
    ensures m.owner.Some? ==> m.owner.value in m.base && m.held[m.owner.value] > 0
  {}

  // ---- the operations ----

  function Increment(hold: nat): nat { (hold + 1) % 256 }

  function Decrement(hold: nat): nat { if hold == 0 then 255 else hold - 1 }

  /** rt_mutex_take up to the point where the thread returns or waits. */
  function Take(m: Mutex, t: nat, wait: bool): Mutex
    requires t in m.priority && t in m.held && (m.owner.Some? ==> m.owner.value in m.priority)
  {
    if m.owner == Some(t) then
      m.(hold := Increment(m.hold), held := m.held[t := m.held[t] + 1])
    else if m.value > 0 then
      m.(value := m.value - 1, owner := Some(t), original := m.priority[t], hold := Increment(m.hold),
        held := m.held[t := m.held[t] + 1])
    else if !wait || m.owner.None? then
      m
    else
      var o := m.owner.value;
      m.(priority := if m.priority[t] < m.priority[o] then m.priority[o := m.priority[t]] else m.priority,
         waiters := Enqueue(m.waiters, Waiter(t, m.priority[t], ()), Prio))
  }

  /** The owner gives the mutex away: back to its original priority, and the mutex to the
      first waiter or to nobody. */
  function GiveUp(m: Mutex, o: nat): Mutex
    requires forall w :: w in m.waiters ==> w.thread in m.priority && w.thread in m.held
  {
    var priority := m.priority[o := m.original];
    if m.waiters == [] then
      m.(hold := 0, priority := priority, value := m.value + 1, owner := None, original := NO_PRIORITY)
    else
      var w := m.waiters[0].thread;
      m.(hold := 1, priority := priority, owner := Some(w), original := priority[w], waiters := m.waiters[1..],
         held := m.held[w := m.held[w] + 1])
  }

  /** rt_mutex_release; a thread that is not the owner gets an error and changes nothing. */
  function Release(m: Mutex, t: nat): Mutex
    requires t in m.held && forall w :: w in m.waiters ==> w.thread in m.priority && w.thread in m.held
  {
    if m.owner != Some(t) then m
    else
      var m1 := m.(hold := Decrement(m.hold), held := m.held[t := if m.held[t] == 0 then 0 else m.held[t] - 1]);
      if m1.hold == 0 then GiveUp(m1, t) else m1
  }

  /** A waiter times out; the owner keeps its urgency until it releases. */
  function Timeout(m: Mutex, k: nat): Mutex
    requires k < |m.waiters|
  {
    m.(waiters := Cut(m.waiters, k))
  }

  /** The 8-bit counter reaches zero although the thread is inside more than one take. */
  predicate Wraps(m: Mutex, t: nat) { t in m.held && m.owner == Some(t) && m.held[t] > 1 && m.held[t] % 256 == 1 }

  // ---- every step keeps the invariant ----

  lemma TakeFreeInv(m: Mutex, t: nat, wait: bool)
    requires Inv(m) && t in m.base && !Waits(m.waiters, t) && (m.owner.None? || m.owner == Some(t))
    ensures Inv(Take(m, t, wait))
  {
    hide Waits, Unique, Sorted;
  }

  lemma TakeWaitInv(m: Mutex, t: nat, wait: bool)
    requires Inv(m) && t in m.base && !Waits(m.waiters, t) && m.owner.Some? && m.owner != Some(t)
    ensures Inv(Take(m, t, wait))
  {
    hide Waits, Unique, Sorted, Enqueue;
    if wait {
      var w := Waiter(t, m.priority[t], ());
      EnqueueFacts(m.waiters, w, Prio);
      EnqueueThreads(m.waiters, w, Prio);
      EnqueueMembers(m.waiters, w, Prio);
    }
  }

  lemma GiveUpInv(m: Mutex, o: nat)
    requires Queue(m) && Inheritance(m) && o in m.base && m.owner == Some(o) && m.value == 0 && !Waits(m.waiters, o)
    requires forall t :: t in m.held ==> m.held[t] == 0
    ensures Inv(GiveUp(m, o))
  {
    hide Waits, Unique;
    if m.waiters != [] {
      HeadWaits(m.waiters);
      CutThreads(m.waiters, 0, Prio);
    }
  }

  lemma HeadWaits(q: seq<Waiter<()>>)
    requires q != [] && Sorted(q)
    ensures Waits(q, q[0].thread) && q[0] in q && Cut(q, 0) == q[1..]
    ensures forall w :: w in q[1..] ==> w in q && q[0].priority <= w.priority
  {}

  lemma ReleaseInv(m: Mutex, t: nat)
    requires Inv(m) && t in m.base && !Wraps(m, t)
    ensures Inv(Release(m, t))
  {
    hide Waits, Unique, Sorted, GiveUp;
    if m.owner == Some(t) {
      var m1 := m.(hold := Decrement(m.hold), held := m.held[t := m.held[t] - 1]);
      if m1.hold == 0 { GiveUpInv(m1, t); }
    }
  }

  lemma TimeoutInv(m: Mutex, k: nat)
    requires Inv(m) && k < |m.waiters|
    ensures Inv(Timeout(m, k))
  {
    hide Waits, Unique, Sorted, Cut;
    CutThreads(m.waiters, k, Prio);
    CutMembers(m.waiters, k);
  }

  // ---- runs ----

  datatype Step = TakeStep(t: nat, wait: bool) | ReleaseStep(t: nat) | TimeoutStep(k: nat)

  /** Threads that wait do nothing else, and no release meets a wrapped counter. */
  ghost predicate Enabled(m: Mutex, s: Step) {
    match s
    case TakeStep(t, _) => t in m.base && !Waits(m.waiters, t)
    case ReleaseStep(t) => t in m.base && !Waits(m.waiters, t) && !Wraps(m, t)
    case TimeoutStep(k) => k < |m.waiters|
  }

  ghost function Do(m: Mutex, s: Step): Mutex
    requires Inv(m) && Enabled(m, s)
  {
    match s
    case TakeStep(t, wait) => Take(m, t, wait)
    case ReleaseStep(t) => Release(m, t)
    case TimeoutStep(k) => Timeout(m, k)
  }

  lemma StepInv(m: Mutex, s: Step)
    requires Inv(m) && Enabled(m, s)
    ensures Inv(Do(m, s))
  {
    hide Queue, Inheritance, Take, Release;
    match s
    case TakeStep(t, wait) =>
      if m.owner.None? || m.owner == Some(t) { TakeFreeInv(m, t, wait); } else { TakeWaitInv(m, t, wait); }
    case ReleaseStep(t) => ReleaseInv(m, t);
    case TimeoutStep(k) => TimeoutInv(m, k);
  }

  ghost predicate Moves(ms: seq<Mutex>, ss: seq<Step>, i: int)
    requires |ms| == |ss| + 1 && 0 <= i < |ss|
  {
    Inv(ms[i]) ==> Enabled(ms[i], ss[i]) && ms[i + 1] == Do(ms[i], ss[i])
  }

  ghost predicate IsRun(ms: seq<Mutex>, ss: seq<Step>) {
    && |ms| == |ss| + 1 && Initial(ms[0])
    && forall i {:trigger Moves(ms, ss, i)} :: 0 <= i < |ss| ==> Moves(ms, ss, i)
  }

  lemma {:induction false} RunInv(ms: seq<Mutex>, ss: seq<Step>, n: nat)
    requires IsRun(ms, ss) && n < |ms|
    ensures Inv(ms[n])
  {
    hide Inv, Do, Enabled;
    if n == 0 {
      InitInv(ms[0]);
    } else {
      RunInv(ms, ss, n - 1);
      assert Moves(ms, ss, n - 1);
      StepInv(ms[n - 1], ss[n - 1]);
    }
  }

  lemma InitInv(m: Mutex)
    requires Initial(m)
    ensures Inv(m)
  {}

  /** In every state of every run at most one thread holds the mutex, no thread it keeps
      waiting is more urgent than it runs, and everyone else runs at their own priority. */
  lemma Exclusion(ms: seq<Mutex>, ss: seq<Step>, n: nat, t: nat, u: nat)
    requires IsRun(ms, ss) && n < |ms| && t in ms[n].base && u in ms[n].base
    ensures var m := ms[n]; m.priority.Keys == m.base.Keys == m.held.Keys
    ensures var m := ms[n];
            && (m.held[t] > 0 && m.held[u] > 0 ==> t == u)
            && (m.held[t] > 0 <==> m.owner == Some(t))
            && (m.held[t] > 0 && Waits(m.waiters, u) ==> m.priority[t] <= m.base[u])
            && (m.held[t] == 0 ==> m.priority[t] == m.base[t])
  {
    RunInv(ms, ss, n);
    var m := ms[n];
    if Waits(m.waiters, u) {
      var i :| 0 <= i < |m.waiters| && m.waiters[i].thread == u;
      assert m.waiters[i] in m.waiters;
    }
  }

  function Min(x: nat, y: nat): nat { if x < y then x else y }

  /** Nothing but what is named changes in the counts and priorities of the threads. */
  ghost predicate SameBut(m: Mutex, m': Mutex, held: set<nat>, priority: set<nat>) {
    && m'.base == m.base && m'.held.Keys == m.held.Keys && m'.priority.Keys == m.priority.Keys
    && (forall t :: t in m.held && t !in held ==> m'.held[t] == m.held[t])
    && (forall t :: t in m.priority && t !in priority ==> m'.priority[t] == m.priority[t])
  }

  /** A take of a free mutex, or of one's own, succeeds and counts. */
  lemma TakeSucceeds(m: Mutex, t: nat, wait: bool)
    requires Inv(m) && t in m.base && !Waits(m.waiters, t) && (m.owner.None? || m.owner == Some(t))
    ensures var m' := Take(m, t, wait);
            && m'.owner == Some(t) && SameBut(m, m', {t}, {}) && m'.held[t] == m.held[t] + 1 && m'.waiters == m.waiters
  {
    hide Waits, Unique, Sorted;
  }

  /** A take of another thread's mutex is refused, or joins the waiters behind all that are as
      urgent and makes the owner as urgent as the thread, and no more. */
  lemma TakeWaits(m: Mutex, t: nat, wait: bool)
    requires Inv(m) && t in m.base && !Waits(m.waiters, t) && m.owner.Some? && m.owner != Some(t)
    ensures var m', o := Take(m, t, wait), m.owner.value;
            if !wait then m' == m
            else
              && m'.owner == m.owner && m'.hold == m.hold && SameBut(m, m', {}, {o})
              && o in m.priority && m'.priority[o] == Min(m.priority[o], m.base[t])
              && exists k :: InsertedAt(m.waiters, Waiter(t, m.base[t], ()), Prio, m'.waiters, k)
  {
    hide Waits, Unique, Sorted, InsertedAt, Enqueue;
    EnqueueFacts(m.waiters, Waiter(t, m.base[t], ()), Prio);
    assert InsertedAt(m.waiters, Waiter(t, m.base[t], ()), Prio, Enqueue(m.waiters, Waiter(t, m.base[t], ()), Prio),
      Position(m.waiters, m.base[t]));
  }

  /** A timeout takes its waiter out and changes nothing else; the owner keeps its urgency. */
  lemma TimeoutExact(m: Mutex, k: nat)
    requires Inv(m) && k < |m.waiters|
    ensures var m' := Timeout(m, k);
            && m' == m.(waiters := m'.waiters) && !Waits(m'.waiters, m.waiters[k].thread)
            && m'.waiters == m.waiters[..k] + m.waiters[k + 1..]
  {
    CutThreads(m.waiters, k, Prio);
  }

  /** The last release gives the owner its own priority back and the mutex to a most urgent
      waiter, the first; the others wait on. */
  lemma LastRelease(m: Mutex, t: nat)
    requires Inv(m) && t in m.held && m.held[t] == 1
    ensures var m' := Release(m, t);
            && m'.held[t] == 0 && m'.priority[t] == m.base[t]
            && (m.waiters == [] <==> m'.owner == None)
            && (m.waiters == [] ==> m'.waiters == [] && SameBut(m, m', {t}, {t}))
            && (m'.owner.Some? ==>
                 && m'.owner.value == m.waiters[0].thread && m'.waiters == m.waiters[1..]
                 && SameBut(m, m', {t, m'.owner.value}, {t}))
            && (m'.owner.Some? ==>
                 m'.owner.value in m.base && Waits(m.waiters, m'.owner.value) && m'.held[m'.owner.value] == 1)
            && (m'.owner.Some? ==> forall w :: w in m.waiters ==> m.base[m'.owner.value] <= w.priority)
  {
    if m.waiters != [] { HeadWaits(m.waiters); }
  }

  /** A release by a thread that does not own the mutex changes nothing. */
  lemma ForeignRelease(m: Mutex, t: nat)
    requires Inv(m) && t in m.held && m.owner != Some(t)
    ensures m.held[t] == 0 && Release(m, t) == m
  {}

  /** A release before the last keeps the mutex. */
  lemma InnerRelease(m: Mutex, t: nat)
    requires Inv(m) && t in m.held && m.held[t] > 1 && !Wraps(m, t)
    ensures var m' := Release(m, t);
            && m'.owner == Some(t) && m'.held[t] == m.held[t] - 1
            && m'.waiters == m.waiters && m'.priority == m.priority && SameBut(m, m', {t}, {})
  {}

  // ---- the 8-bit counter ----

  /** A release by the owner keeps the invariant exactly when the counter has not wrapped
      round to one. */
  lemma ReleaseExact(m: Mutex, t: nat)
    requires Inv(m) && t in m.base && m.owner == Some(t)
    ensures Inv(Release(m, t)) <==> !Wraps(m, t)
  {
    if Wraps(m, t) {
      if m.waiters != [] { HeadWaits(m.waiters); }
      assert Release(m, t).held[t] > 0 && Release(m, t).owner != Some(t);
    } else {
      ReleaseInv(m, t);
    }
  }

  ghost function Nest(m: Mutex, t: nat, n: nat): Mutex
    requires Inv(m) && t in m.base && !Waits(m.waiters, t) && (m.owner.None? || m.owner == Some(t))
    ensures var r := Nest(m, t, n);
            && Inv(r) && r.base == m.base && r.waiters == m.waiters && r.held[t] == m.held[t] + n
            && (r.owner.None? || r.owner == Some(t)) && (n > 0 ==> r.owner == Some(t))
  {
    if n == 0 then m
    else
      var r := Nest(m, t, n - 1);
      TakeFreeInv(r, t, true);
      Take(r, t, true)
  }

  /** After 257 nested takes, or any 256 * k + 1, one release frees the mutex, with all the
      other takes still open. */
  lemma WrapExample(m: Mutex, t: nat, n: nat)
    requires Initial(m) && t in m.base && n > 1 && n % 256 == 1
    ensures Inv(m) && (var m' := Release(Nest(m, t, n), t); m'.owner == None && m'.held[t] == n - 1 > 0)
  {
    hide Nest;
    InitInv(m);
  }
}
