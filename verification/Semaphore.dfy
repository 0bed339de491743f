/** Counting semaphores (ipc.c) with a 16-bit value and direct hand-off to a waiter. */
module SemaphoreSpec {
  import opened IpcList

  const MAX: nat := 0xFFFF

  datatype End = Granted | TimedOut | WasReset

  /** `ended` are threads whose blocked take is over but that have not returned. `initial`,
      `releases` and `grants` count since the last reset. */
  datatype Semaphore = Semaphore(
    value: nat, flag: Flag, waiters: seq<Waiter<()>>, ended: map<nat, End>,
    initial: nat, releases: nat, grants: nat)

  function Init(value: nat, flag: Flag): Semaphore { Semaphore(value, flag, [], map[], value, 0, 0) }

  ghost predicate Inv(s: Semaphore) {
    && s.value <= MAX && Unique(s.waiters) && InOrder(s.waiters, s.flag)
    && (forall t :: Waits(s.waiters, t) ==> t !in s.ended)
    && (s.value > 0 ==> s.waiters == [])
    && s.initial + s.releases == s.value + s.grants
  }

  /** rt_sem_take until the thread returns or waits. */
  function Take(s: Semaphore, t: nat, priority: nat, wait: bool): Semaphore {
    if s.value > 0 then s.(value := s.value - 1, grants := s.grants + 1)
    else if wait then s.(waiters := Enqueue(s.waiters, Waiter(t, priority, ()), s.flag))
    else s
  }

  /** rt_sem_release: to the first waiter, or to the value, which wraps round. */
  function Release(s: Semaphore): Semaphore {
    if s.waiters != [] then
      s.(waiters := s.waiters[1..], ended := s.ended[s.waiters[0].thread := Granted], grants := s.grants + 1,
        releases := s.releases + 1)
    else s.(value := (s.value + 1) % (MAX + 1), releases := s.releases + 1)
  }

  function Timeout(s: Semaphore, k: nat): Semaphore
    requires k < |s.waiters|
  {
    s.(waiters := Cut(s.waiters, k), ended := s.ended[s.waiters[k].thread := TimedOut])
  }

  function EndAll(ended: map<nat, End>, q: seq<Waiter<()>>): (r: map<nat, End>)
    ensures forall t :: t in r <==> t in ended || Waits(q, t)
    ensures forall t :: t in r ==> r[t] == if Waits(q, t) then WasReset else ended[t]
    decreases |q|
  {
    if q == [] then ended
    else
      var rest := EndAll(ended[q[0].thread := WasReset], q[1..]);
      assert q == [q[0]] + q[1..];
      assert forall t :: Waits(q, t) <==> t == q[0].thread || Waits(q[1..], t) by {
        forall t ensures Waits(q, t) <==> t == q[0].thread || Waits(q[1..], t) { WaitsCons(q, t); }
      }
      rest
  }

  /** rt_sem_control with RT_IPC_CMD_RESET. */
  function Reset(s: Semaphore, value: nat): Semaphore {
    var v := value % (MAX + 1);
    Semaphore(v, s.flag, [], EndAll(s.ended, s.waiters), v, 0, 0)
  }

  datatype Step =
    | TakeStep(t: nat, priority: nat, wait: bool)
    | ReleaseStep
    | TimeoutStep(k: nat)
    | ReturnStep(t: nat)
    | ResetStep(value: nat)

  ghost predicate Enabled(s: Semaphore, step: Step) {
    match step
    case TakeStep(t, _, _) => !Waits(s.waiters, t) && t !in s.ended
    case ReleaseStep => s.value < MAX
    case TimeoutStep(k) => k < |s.waiters|
    case ReturnStep(t) => t in s.ended
    case ResetStep(_) => true
  }

  function Do(s: Semaphore, step: Step): Semaphore
    requires Enabled(s, step)
  {
    match step
    case TakeStep(t, p, wait) => Take(s, t, p, wait)
    case ReleaseStep => Release(s)
    case TimeoutStep(k) => Timeout(s, k)
    case ReturnStep(t) => s.(ended := s.ended - {t})
    case ResetStep(value) => Reset(s, value)
  }

  lemma TakeInv(s: Semaphore, t: nat, priority: nat, wait: bool)
    requires Inv(s) && !Waits(s.waiters, t) && t !in s.ended
    ensures Inv(Take(s, t, priority, wait))
  {
    hide Waits, Unique, InOrder, Enqueue;
    EnqueueFacts(s.waiters, Waiter(t, priority, ()), s.flag);
    EnqueueThreads(s.waiters, Waiter(t, priority, ()), s.flag);
  }

  /** A release keeps the count exactly when it does not overflow the value. */
  lemma ReleaseExact(s: Semaphore)
    requires Inv(s)
    ensures Inv(Release(s)) <==> s.value < MAX
  {
    if s.waiters != [] {
      CutHead(s.waiters);
      CutThreads(s.waiters, 0, s.flag);
      assert Waits(s.waiters, s.waiters[0].thread);
    }
  }

  lemma TimeoutInv(s: Semaphore, k: nat)
    requires Inv(s) && k < |s.waiters|
    ensures Inv(Timeout(s, k))
  {
    CutThreads(s.waiters, k, s.flag);
    assert Waits(s.waiters, s.waiters[k].thread);
  }

  lemma StepInv(s: Semaphore, step: Step)
    requires Inv(s) && Enabled(s, step)
    ensures Inv(Do(s, step))
  {
    hide Waits, Unique, InOrder, Take, Release, Timeout;
    match step
    case TakeStep(t, p, wait) => TakeInv(s, t, p, wait);
    case ReleaseStep => ReleaseExact(s);
    case TimeoutStep(k) => TimeoutInv(s, k);
    case ReturnStep(t) =>
    case ResetStep(value) => ResetInv(s, value);
  }

  lemma ResetInv(s: Semaphore, value: nat)
    requires Inv(s)
    ensures Inv(Reset(s, value))
  {}

  /** The step resumes thread `t`, which waits. */
  predicate Resumes(s: Semaphore, step: Step, t: nat) {
    match step
    case ReleaseStep => s.waiters != [] && s.waiters[0].thread == t
    case TimeoutStep(k) => k < |s.waiters| && s.waiters[k].thread == t
    case ResetStep(_) => true
    case _ => false
  }

  function Outcome(step: Step): End {
    if step.ReleaseStep? then Granted else if step.TimeoutStep? then TimedOut else WasReset
  }

  /** A waiting thread stops waiting by exactly one of a grant, a timeout and a reset. */
  lemma EndsOnce(s: Semaphore, step: Step, t: nat)
    requires Inv(s) && Enabled(s, step) && Waits(s.waiters, t)
    ensures var s' := Do(s, step);
            && (Waits(s'.waiters, t) <==> !Resumes(s, step, t))
            && (t in s'.ended <==> Resumes(s, step, t))
            && (t in s'.ended ==> s'.ended[t] == Outcome(step))
  {
    match step
    case TakeStep(u, p, wait) => EnqueueThreads(s.waiters, Waiter(u, p, ()), s.flag);
    case ReleaseStep => CutHead(s.waiters); CutThreads(s.waiters, 0, s.flag);
    case TimeoutStep(k) => CutThreads(s.waiters, k, s.flag);
    case ReturnStep(u) =>
    case ResetStep(value) =>
  }

  /** What ended the wait stays until the thread has returned with it. */
  lemma EndStays(s: Semaphore, step: Step, t: nat)
    requires Inv(s) && Enabled(s, step) && t in s.ended && step != ReturnStep(t)
    ensures var s' := Do(s, step); t in s'.ended && s'.ended[t] == s.ended[t] && !Waits(s'.waiters, t)
  {
    hide InOrder;
    assert !Waits(s.waiters, t);
    match step
    case TakeStep(u, p, wait) => EnqueueThreads(s.waiters, Waiter(u, p, ()), s.flag);
    case ReleaseStep => if s.waiters != [] { CutHead(s.waiters); CutThreads(s.waiters, 0, s.flag); }
    case TimeoutStep(k) => CutThreads(s.waiters, k, s.flag);
    case ReturnStep(u) =>
    case ResetStep(value) =>
  }

  ghost predicate Moves(ss: seq<Semaphore>, steps: seq<Step>, i: int)
    requires |ss| == |steps| + 1 && 0 <= i < |steps|
  {
    Enabled(ss[i], steps[i]) && ss[i + 1] == Do(ss[i], steps[i])
  }

  ghost predicate IsRun(ss: seq<Semaphore>, steps: seq<Step>, value: nat, flag: Flag) {
    && |ss| == |steps| + 1 && ss[0] == Init(value, flag) && value <= MAX
    && forall i {:trigger Moves(ss, steps, i)} :: 0 <= i < |steps| ==> Moves(ss, steps, i)
  }

  /** In every run without overflow what was there and what was released equals what is
      left and what was granted, and nobody waits while anything is left. */
  lemma {:induction false} RunInv(ss: seq<Semaphore>, steps: seq<Step>, value: nat, flag: Flag, n: nat)
    requires IsRun(ss, steps, value, flag) && n < |ss|
    ensures Inv(ss[n])
  {
    if n > 0 {
      hide Inv, Do, Enabled;
      RunInv(ss, steps, value, flag, n - 1);
      assert Moves(ss, steps, n - 1);
      StepInv(ss[n - 1], steps[n - 1]);
    }
  }

  ghost predicate Blocked(s: Semaphore, t: nat) { Waits(s.waiters, t) && t !in s.ended }

  ghost predicate Over(s: Semaphore, t: nat, end: End) { !Waits(s.waiters, t) && t in s.ended && s.ended[t] == end }

  /** Thread `t` waits from behind step `i` up to step `e`, which resumes it, and has the
      outcome of that step from there to state `j`; if `e` is `j` it still waits. */
  ghost predicate WaitedTo(ss: seq<Semaphore>, steps: seq<Step>, t: nat, i: nat, e: nat, j: nat)
    requires |ss| == |steps| + 1 && i < e <= j < |ss|
  {
    && (forall k :: i < k <= e ==> Blocked(ss[k], t))
    && (e < j ==> Resumes(ss[e], steps[e], t))
    && (forall k :: e < k <= j ==> Over(ss[k], t, Outcome(steps[e])))
  }

  lemma Blocks(s: Semaphore, t: nat, priority: nat)
    requires Inv(s) && Enabled(s, TakeStep(t, priority, true)) && s.value == 0
    ensures Blocked(Do(s, TakeStep(t, priority, true)), t)
  {
    EnqueueThreads(s.waiters, Waiter(t, priority, ()), s.flag);
  }

  /** Over whole runs: a blocked take is ended by exactly one step, and keeps what that step
      gave it. */
  lemma {:induction false} OneEnd(ss: seq<Semaphore>, steps: seq<Step>, value: nat, flag: Flag, t: nat, i: nat, j: nat)
      returns (e: nat)
    requires IsRun(ss, steps, value, flag) && i < j < |ss|
    requires steps[i].TakeStep? && steps[i].t == t && steps[i].wait && ss[i].value == 0
    requires forall k :: i < k < j ==> steps[k] != ReturnStep(t)
    ensures i < e <= j && WaitedTo(ss, steps, t, i, e, j)
    ensures forall d :: i < d <= j && WaitedTo(ss, steps, t, i, d, j) ==> d == e
  {
    hide Inv, Do, Enabled, Waits, Resumes;
    RunInv(ss, steps, value, flag, j - 1);
    assert Moves(ss, steps, j - 1);
    if j == i + 1 {
      Blocks(ss[i], t, steps[i].priority);
      e := j;
    } else {
      e := OneEnd(ss, steps, value, flag, t, i, j - 1);
      if e < j - 1 {
        EndStays(ss[j - 1], steps[j - 1], t);
      } else {
        EndsOnce(ss[j - 1], steps[j - 1], t);
        if Waits(ss[j].waiters, t) { e := j; }
      }
    }
    OnlyEnd(ss, steps, t, i, e, j);
  }

  lemma OnlyEnd(ss: seq<Semaphore>, steps: seq<Step>, t: nat, i: nat, e: nat, j: nat)
    requires |ss| == |steps| + 1 && i < e <= j < |ss| && WaitedTo(ss, steps, t, i, e, j)
    ensures forall d :: i < d <= j && WaitedTo(ss, steps, t, i, d, j) ==> d == e
  {
    forall d | i < d <= j && WaitedTo(ss, steps, t, i, d, j)
      ensures d == e
    {
      var k := if d < e then d else e;
      if k < j { NotBoth(ss[k + 1], t, Outcome(steps[k])); }
    }
  }

  lemma NotBoth(s: Semaphore, t: nat, end: End)
    ensures Over(s, t, end) ==> !Blocked(s, t)
  {}

  /** When the blocked take returns, it returns the outcome of the one step that ended it. */
  lemma ReturnsOnce(ss: seq<Semaphore>, steps: seq<Step>, value: nat, flag: Flag, t: nat, i: nat, j: nat)
      returns (e: nat)
    requires IsRun(ss, steps, value, flag) && i < j < |steps|
    requires steps[i].TakeStep? && steps[i].t == t && steps[i].wait && ss[i].value == 0
    requires steps[j] == ReturnStep(t) && forall k :: i < k < j ==> steps[k] != ReturnStep(t)
    ensures i < e < j && WaitedTo(ss, steps, t, i, e, j) && Over(ss[j], t, Outcome(steps[e])) && t !in ss[j + 1].ended
    ensures forall d :: i < d <= j && WaitedTo(ss, steps, t, i, d, j) ==> d == e
  {
    e := OneEnd(ss, steps, value, flag, t, i, j);
    assert Moves(ss, steps, j);
  }

  // ---- counting calls ----

  /** The value that rt_sem_init or the last reset set. */
  function Base(steps: seq<Step>, value: nat, n: nat): nat
    requires n <= |steps|
  {
    if n == 0 then value
    else if steps[n - 1].ResetStep? then steps[n - 1].value % 0x1_0000
    else Base(steps, value, n - 1)
  }

  /** The calls of rt_sem_release since then. */
  function Releases(steps: seq<Step>, n: nat): nat
    requires n <= |steps|
  {
    if n == 0 || steps[n - 1].ResetStep? then 0
    else Releases(steps, n - 1) + if steps[n - 1].ReleaseStep? then 1 else 0
  }

  /** The takes that were granted since then: at once, or by a release to the first waiter. */
  function Grants(ss: seq<Semaphore>, steps: seq<Step>, n: nat): nat
    requires n <= |steps| && |ss| == |steps| + 1
  {
    if n == 0 || steps[n - 1].ResetStep? then 0
    else
      var s, step := ss[n - 1], steps[n - 1];
      var granted := (step.TakeStep? && s.value > 0) || (step.ReleaseStep? && s.waiters != []);
      Grants(ss, steps, n - 1) + if granted then 1 else 0
  }

  /** In every run without overflow no release and no grant is lost or made up: the value is
      what was there, plus the releases, less the takes that were granted. */
  lemma {:induction false} Conservation(ss: seq<Semaphore>, steps: seq<Step>, value: nat, flag: Flag, n: nat)
    requires IsRun(ss, steps, value, flag) && n < |ss|
    ensures ss[n].value + Grants(ss, steps, n) == Base(steps, value, n) + Releases(steps, n)
    ensures ss[n].initial == Base(steps, value, n) && ss[n].releases == Releases(steps, n)
    ensures ss[n].grants == Grants(ss, steps, n)
  {
    hide Inv, Waits, Unique, InOrder, Enqueue;
    if n > 0 {
      Conservation(ss, steps, value, flag, n - 1);
      assert Moves(ss, steps, n - 1);
      Counted(ss[n - 1], steps[n - 1]);
    }
    RunInv(ss, steps, value, flag, n);
    InvCount(ss[n]);
  }

  lemma InvCount(s: Semaphore)
    requires Inv(s)
    ensures s.initial + s.releases == s.value + s.grants
  {}

  lemma Counted(s: Semaphore, step: Step)
    requires Enabled(s, step)
    ensures var s' := Do(s, step);
            if step.ResetStep? then s'.initial == step.value % 0x1_0000 && s'.releases == s'.grants == 0
            else
              var granted := (step.TakeStep? && s.value > 0) || (step.ReleaseStep? && s.waiters != []);
              && s'.initial == s.initial && s'.releases == s.releases + (if step.ReleaseStep? then 1 else 0)
              && s'.grants == s.grants + if granted then 1 else 0
  {
    hide Enqueue;
  }

  /** A take that cannot be granted joins the waiters behind all that are as urgent, or behind
      all, or changes nothing. */
  lemma Joins(s: Semaphore, t: nat, priority: nat, wait: bool)
    requires Inv(s) && s.value == 0
    ensures var s' := Take(s, t, priority, wait);
            if wait then
              && s' == s.(waiters := s'.waiters)
              && exists k :: InsertedAt(s.waiters, Waiter(t, priority, ()), s.flag, s'.waiters, k)
            else s' == s
  {
    hide InsertedAt, Enqueue, Position;
    EnqueueFacts(s.waiters, Waiter(t, priority, ()), s.flag);
  }

  /** Releasing a semaphore at its largest value loses all of it. */
  lemma Overflow(flag: Flag)
    ensures Inv(Init(MAX, flag)) && Release(Init(MAX, flag)).value == 0 && !Inv(Release(Init(MAX, flag)))
  {}
}

/** The semaphore in the form of ipc.c. */
module SemaphoreObject {
  import opened Lists
  import opened IpcList
  import S = SemaphoreSpec

  datatype Result = Taken | TimedOut | Waiting

  class Semaphore {
    const flag: Flag
    var value: nat
    var waiters: seq<Waiter<()>>
    ghost var s: S.Semaphore

    ghost predicate Linked()
      reads this
    {
      s.flag == flag && s.value == value && s.waiters == waiters
    }

    ghost predicate Valid()
      reads this
    {
      Linked() && S.Inv(s)
    }

    constructor (initial: nat, order: Flag)
      requires initial <= S.MAX
      ensures Valid() && s == S.Init(initial, order)
    {
      flag, value, waiters := order, initial, [];
      s := S.Init(initial, order);
    }

    method Take(t: nat, priority: nat, wait: bool) returns (r: Result)
      requires Valid() && !Waits(s.waiters, t) && t !in s.ended
      modifies this
      ensures Valid() && s == S.Take(old(s), t, priority, wait)
      ensures r == if old(s).value > 0 then Taken else if wait then Waiting else TimedOut
    {
      hide Waits, Unique, InOrder, Enqueue;
      S.TakeInv(s, t, priority, wait);
      if value > 0 {
        value := value - 1;
        r := Taken;
      } else if !wait {
        r := TimedOut;
      } else {
        waiters := Suspend(waiters, Waiter(t, priority, ()), flag);
        r := Waiting;
      }
      s := S.Take(s, t, priority, wait);
    }

    method Release() returns (resumed: Option<nat>)
      requires Valid()
      modifies this
      ensures Linked() && s == S.Release(old(s)) && (Valid() <==> old(s).value < S.MAX)
      ensures resumed == if old(s).waiters == [] then None else Some(old(s).waiters[0].thread)
    {
      S.ReleaseExact(s);
      resumed := None;
      if waiters != [] {
        resumed := Some(waiters[0].thread);
        waiters := waiters[1..];
      } else {
        value := (value + 1) % 0x1_0000;
      }
      s := S.Release(s);
    }

    /** rt_thread_timeout takes a suspended thread off the list. */
    method Timeout(k: nat) returns (resumed: nat)
      requires Valid() && k < |waiters|
      modifies this`waiters, this`s
      ensures Valid() && s == S.Timeout(old(s), k) && resumed == old(s).waiters[k].thread
    {
      hide Waits, Unique, InOrder;
      S.TimeoutInv(s, k);
      resumed := waiters[k].thread;
      waiters := waiters[..k] + waiters[k + 1..];
      s := S.Timeout(s, k);
    }

    /** rt_sem_control with RT_IPC_CMD_RESET. */
    method Reset(to: nat) returns (resumed: seq<nat>)
      requires Valid()
      modifies this`value, this`waiters, this`s
      ensures Valid() && s == S.Reset(old(s), to)
      ensures |resumed| == |old(s).waiters| && forall i :: 0 <= i < |resumed| ==> resumed[i] == old(s).waiters[i].thread
    {
      hide Waits, Unique, InOrder;
      S.ResetInv(s, to);
      resumed := ResumeAll(waiters);
      waiters, value := [], to % 0x1_0000;
      s := S.Reset(s, to);
    }
  }
}
