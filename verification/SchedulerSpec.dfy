/** Threads and their ready lists (scheduler.c, thread.c): one list for each priority, a
    smaller number being more urgent. */
module SchedulerSpec {
  import opened Lists

  datatype Stat = Init | Ready | Suspend

  datatype Thread = Thread(stat: Stat, priority: nat, initPriority: nat)

  datatype System = System(ready: seq<seq<nat>>, threads: map<nat, Thread>, current: nat, lock: int)

  ghost predicate Listed(s: System, p: nat, t: nat)
    requires p < |s.ready|
  {
    t in s.ready[p] <==> t in s.threads && s.threads[t].stat == Ready && s.threads[t].priority == p
  }

  /** The list of a priority holds exactly the threads that are ready at it, each once. */
  ghost predicate Inv(s: System) {
    && (forall t :: t in s.threads ==> s.threads[t].priority < |s.ready| && s.threads[t].initPriority < |s.ready|)
    && (forall p: nat :: p < |s.ready| ==> Distinct(s.ready[p]))
    && (forall p: nat, t :: p < |s.ready| ==> Listed(s, p, t))
  }

  // ---- the operations ----

  function Insert(s: System, t: nat): System
    requires t in s.threads && s.threads[t].priority < |s.ready|
  {
    var x := s.threads[t];
    s.(threads := s.threads[t := x.(stat := Ready)], ready := s.ready[x.priority := s.ready[x.priority] + [t]])
  }

  /** rt_schedule_remove_thread, by a caller that has given the thread another state. */
  function Remove(s: System, t: nat, stat: Stat): System
    requires t in s.threads && s.threads[t].priority < |s.ready|
  {
    var x := s.threads[t];
    s.(threads := s.threads[t := x.(stat := stat)], ready := s.ready[x.priority := Without(s.ready[x.priority], t)])
  }

  function SetPriority(s: System, t: nat, p: nat): System
    requires t in s.threads
  {
    s.(threads := s.threads[t := s.threads[t].(priority := p)])
  }

  /** rt_thread_init and rt_thread_create */
  function Create(s: System, t: nat, p: nat): System { s.(threads := s.threads[t := Thread(Init, p, p)]) }

  /** rt_thread_startup */
  function Startup(s: System, t: nat): System
    requires t in s.threads && s.threads[t].initPriority < |s.ready|
  {
    Insert(SetPriority(s, t, s.threads[t].initPriority), t)
  }

  /** rt_thread_suspend; refused unless the thread is ready. */
  function SuspendThread(s: System, t: nat): System
    requires t in s.threads && s.threads[t].priority < |s.ready|
  {
    if s.threads[t].stat != Ready then s else Remove(s, t, Suspend)
  }

  /** rt_thread_resume and rt_thread_timeout; refused unless the thread is suspended. */
  function Resume(s: System, t: nat): System
    requires t in s.threads && s.threads[t].priority < |s.ready|
  {
    if s.threads[t].stat != Suspend then s else Insert(s, t)
  }

  /** rt_thread_control with RT_THREAD_CTRL_CHANGE_PRIORITY. */
  function ChangePriority(s: System, t: nat, p: nat): System
    requires t in s.threads && s.threads[t].priority < |s.ready| && p < |s.ready|
  {
    if s.threads[t].stat == Ready then Insert(SetPriority(Remove(s, t, Suspend), t, p), t)
    else SetPriority(s, t, p)
  }

  /** rt_thread_yield: the current thread goes to the end of its list. */
  function Yield(s: System): System
    requires s.current in s.threads && s.threads[s.current].priority < |s.ready|
  {
    var x := s.threads[s.current];
    if x.stat == Ready && |s.ready[x.priority]| >= 2 then Insert(Remove(s, s.current, Suspend), s.current) else s
  }

  /** The most urgent priority with a ready thread, or the number of priorities. */
  function Highest(ready: seq<seq<nat>>): (p: nat)
    ensures p <= |ready| && (p < |ready| ==> ready[p] != []) && forall q :: 0 <= q < p ==> ready[q] == []
  {
    if ready == [] || ready[0] != [] then 0 else 1 + Highest(ready[1..])
  }

  /** rt_schedule: switches to the first thread of that priority, unless the scheduler is locked. */
  function Schedule(s: System): System
    requires Highest(s.ready) < |s.ready|
  {
    if s.lock == 0 then s.(current := s.ready[Highest(s.ready)][0]) else s
  }

  /** What a rt_int16_t holds after it is given `n`. */
  function Short(n: int): int { (n + 32768) % 65536 - 32768 }

  /** rt_enter_critical */
  function Enter(s: System): System { s.(lock := Short(s.lock + 1)) }

  /** rt_exit_critical, but for the rt_schedule at its end. */
  function Exit(s: System): System {
    var lock := Short(s.lock - 1);
    s.(lock := if lock <= 0 then 0 else lock)
  }

  // ---- the invariant ----

  lemma InsertInv(s: System, t: nat)
    requires Inv(s) && t in s.threads && s.threads[t].stat != Ready
    ensures Inv(Insert(s, t))
  {
    var p, s' := s.threads[t].priority, Insert(s, t);
    assert Listed(s, p, t);
    AppendDistinct(s.ready[p], t);
    forall q: nat, u | q < |s'.ready|
      ensures Listed(s', q, u)
    {
      assert Listed(s, q, u);
    }
  }

  lemma RemoveInv(s: System, t: nat, stat: Stat)
    requires Inv(s) && t in s.threads && s.threads[t].stat == Ready && stat != Ready
    ensures Inv(Remove(s, t, stat))
  {
    var p, s' := s.threads[t].priority, Remove(s, t, stat);
    WithoutMember(s.ready[p], t);
    forall q: nat, u | q < |s'.ready|
      ensures Listed(s', q, u)
    {
      assert Listed(s, q, u);
    }
  }

  lemma SetPriorityInv(s: System, t: nat, p: nat)
    requires Inv(s) && t in s.threads && s.threads[t].stat != Ready && p < |s.ready|
    ensures Inv(SetPriority(s, t, p))
  {
    var s' := SetPriority(s, t, p);
    forall q: nat, u | q < |s'.ready|
      ensures Listed(s', q, u)
    {
      assert Listed(s, q, u);
    }
  }

  /** A thread that only changes place in its list, or its priority. */
  lemma MoveInv(s: System, t: nat, p: nat)
    requires Inv(s) && t in s.threads && s.threads[t].stat == Ready && p < |s.ready|
    ensures Inv(Insert(SetPriority(Remove(s, t, Suspend), t, p), t))
  {
    hide Inv;
    var s1 := (InBounds(s, t); Remove(s, t, Suspend));
    RemoveInv(s, t, Suspend);
    SetPriorityInv(s1, t, p);
    InsertInv(SetPriority(s1, t, p), t);
  }

  lemma InBounds(s: System, t: nat)
    requires Inv(s) && t in s.threads
    ensures s.threads[t].priority < |s.ready| && s.threads[t].initPriority < |s.ready|
  {}

  // ---- runs ----

  datatype Step =
    | CreateStep(t: nat, p: nat)
    | StartupStep(t: nat)
    | SuspendStep(t: nat)
    | ResumeStep(t: nat)
    | PriorityStep(t: nat, p: nat)
    | YieldStep
    | ScheduleStep
    | EnterCritical
    | ExitCritical

  /** Some thread, the idle thread, is always ready when rt_schedule runs. */
  ghost predicate Enabled(s: System, step: Step) {
    match step
    case CreateStep(t, p) => t !in s.threads && t != s.current && p < |s.ready|
    case StartupStep(t) => t in s.threads && s.threads[t].stat == Init
    case SuspendStep(t) => t in s.threads
    case ResumeStep(t) => t in s.threads
    case PriorityStep(t, p) => t in s.threads && p < |s.ready|
    case YieldStep => s.current in s.threads
    case ScheduleStep => Highest(s.ready) < |s.ready|
    case EnterCritical => true
    case ExitCritical => true
  }

  ghost function Do(s: System, step: Step): System
    requires Inv(s) && Enabled(s, step)
  {
    match step
    case CreateStep(t, p) => Create(s, t, p)
    case StartupStep(t) => Startup(s, t)
    case SuspendStep(t) => SuspendThread(s, t)
    case ResumeStep(t) => Resume(s, t)
    case PriorityStep(t, p) => ChangePriority(s, t, p)
    case YieldStep => Yield(s)
    case ScheduleStep => Schedule(s)
    case EnterCritical => Enter(s)
    case ExitCritical => Exit(s)
  }

  lemma StepInv(s: System, step: Step)
    requires Inv(s) && Enabled(s, step)
    ensures Inv(Do(s, step))
  {
    match step
    case CreateStep(t, p) => CreateInv(s, t, p);
    case StartupStep(t) =>
      SetPriorityInv(s, t, s.threads[t].initPriority);
      InsertInv(SetPriority(s, t, s.threads[t].initPriority), t);
    case SuspendStep(t) => if s.threads[t].stat == Ready { RemoveInv(s, t, Suspend); }
    case ResumeStep(t) => if s.threads[t].stat == Suspend { InsertInv(s, t); }
    case PriorityStep(t, p) => if s.threads[t].stat == Ready { MoveInv(s, t, p); } else { SetPriorityInv(s, t, p); }
    case YieldStep => YieldInv(s);
    case ScheduleStep => SameLists(s, Schedule(s));
    case EnterCritical => SameLists(s, Do(s, step));
    case ExitCritical => SameLists(s, Do(s, step));
  }

  lemma CreateInv(s: System, t: nat, p: nat)
    requires Inv(s) && t !in s.threads && p < |s.ready|
    ensures Inv(Create(s, t, p))
  {
    var s' := Create(s, t, p);
    forall q: nat, u | q < |s'.ready|
      ensures Listed(s', q, u)
    {
      assert Listed(s, q, u);
    }
  }

  lemma SameLists(s: System, s': System)
    requires Inv(s) && s'.ready == s.ready && s'.threads == s.threads
    ensures Inv(s')
  {
    forall q: nat, u | q < |s'.ready|
      ensures Listed(s', q, u)
    {
      assert Listed(s, q, u);
    }
  }

  lemma YieldInv(s: System)
    requires Inv(s) && s.current in s.threads
    ensures Inv(Yield(s))
  {
    var t := s.current;
    if s.threads[t].stat == Ready {
      RemoveInv(s, t, Suspend);
      InsertInv(Remove(s, t, Suspend), t);
    }
  }

  /** After rt_system_scheduler_init: no threads, and a current one that is not a thread yet. */
  ghost predicate Initial(s: System) {
    s.threads == map[] && s.lock == 0 && forall p: nat :: p < |s.ready| ==> s.ready[p] == []
  }

  ghost predicate Moves(ss: seq<System>, steps: seq<Step>, i: int)
    requires |ss| == |steps| + 1 && 0 <= i < |steps|
  {
    Inv(ss[i]) ==> Enabled(ss[i], steps[i]) && ss[i + 1] == Do(ss[i], steps[i])
  }

  ghost predicate IsRun(ss: seq<System>, steps: seq<Step>) {
    && |ss| == |steps| + 1 && Initial(ss[0])
    && forall i {:trigger Moves(ss, steps, i)} :: 0 <= i < |steps| ==> Moves(ss, steps, i)
  }

  lemma {:induction false} RunInv(ss: seq<System>, steps: seq<Step>, n: nat)
    requires IsRun(ss, steps) && n < |ss|
    ensures Inv(ss[n])
  {
    hide Inv, Do, Enabled;
    if n == 0 {
      InitInv(ss[0]);
    } else {
      RunInv(ss, steps, n - 1);
      assert Moves(ss, steps, n - 1);
      StepInv(ss[n - 1], steps[n - 1]);
    }
  }

  lemma InitInv(s: System)
    requires Initial(s)
    ensures Inv(s)
  {
    forall p: nat, t | p < |s.ready|
      ensures Listed(s, p, t)
    {}
  }

  /** Whenever an unlocked rt_schedule runs, the thread it switches to is ready, no ready
      thread is more urgent, and it is the first of its priority. */
  lemma RunsMostUrgent(ss: seq<System>, steps: seq<Step>, n: nat, u: nat)
    requires IsRun(ss, steps) && n < |steps| && steps[n].ScheduleStep? && ss[n].lock == 0
    requires u in ss[n + 1].threads && ss[n + 1].threads[u].stat == Ready
    ensures var s := ss[n + 1];
            && s.current in s.threads && s.threads[s.current].stat == Ready
            && s.threads[s.current].priority <= s.threads[u].priority < |s.ready|
            && s.ready[s.threads[s.current].priority] != [] && s.ready[s.threads[s.current].priority][0] == s.current
  {
    RunInv(ss, steps, n);
    RunInv(ss, steps, n + 1);
    assert Moves(ss, steps, n);
    var s := ss[n + 1];
    var p := Highest(s.ready);
    assert Listed(s, p, s.current) && Listed(s, s.threads[u].priority, u);
    assert s.current in s.ready[p];
  }

  /** A yield puts the current thread behind every other thread of its priority, in their
      order, wherever in the list it was. A thread that is not ready does not move. */
  lemma YieldRotates(s: System)
    requires Inv(s) && s.current in s.threads
    ensures var x := s.threads[s.current];
            Yield(s) == if x.stat != Ready then s
              else s.(ready := s.ready[x.priority := Without(s.ready[x.priority], s.current) + [s.current]])
    ensures var x := s.threads[s.current];
            x.stat == Ready && s.ready[x.priority][0] == s.current ==>
              Without(s.ready[x.priority], s.current) == s.ready[x.priority][1..]
  {
    var x := s.threads[s.current];
    if x.stat == Ready {
      var p := x.priority;
      var q := s.ready[p];
      assert Listed(s, p, s.current);
      assert s.threads[s.current := x.(stat := Suspend)][s.current := x] == s.threads;
      if |q| == 1 {
        assert Without(q, s.current) + [s.current] == q && s.ready[p := q] == s.ready;
      } else {
        assert s.ready[p := Without(q, s.current)][p := Without(q, s.current) + [s.current]]
          == s.ready[p := Without(q, s.current) + [s.current]];
      }
    }
  }

  /** The list of priority `q` after thread `t` has left the list of `from` and come to the end
      of the list of `to`. */
  function Moved(list: seq<nat>, q: nat, t: nat, from: Option<nat>, to: Option<nat>): seq<nat> {
    (if from == Some(q) then Without(list, t) else list) + (if to == Some(q) then [t] else [])
  }

  ghost predicate ListsMoved(s: System, s': System, t: nat, from: Option<nat>, to: Option<nat>) {
    |s'.ready| == |s.ready| && forall q: nat :: q < |s.ready| ==> s'.ready[q] == Moved(s.ready[q], q, t, from, to)
  }

  /** Exactly what becomes of thread `t`, and that nothing becomes of the others. */
  ghost predicate Became(s: System, s': System, t: nat, x: Thread) {
    s'.threads == s.threads[t := x] && s'.current == s.current && s'.lock == s.lock
  }

  /** A thread starts at its own priority, behind those that are ready at it. */
  lemma StartupExact(s: System, t: nat)
    requires Inv(s) && t in s.threads && s.threads[t].stat == Init
    ensures var s', p := Startup(s, t), s.threads[t].initPriority;
            Became(s, s', t, Thread(Ready, p, p)) && ListsMoved(s, s', t, None, Some(p))
  {}

  /** rt_thread_suspend takes a ready thread off its list, and leaves any other alone. */
  lemma SuspendExact(s: System, t: nat)
    requires Inv(s) && t in s.threads
    ensures var s', x := SuspendThread(s, t), s.threads[t];
            if x.stat == Ready then
              && Became(s, s', t, Thread(Suspend, x.priority, x.initPriority))
              && ListsMoved(s, s', t, Some(x.priority), None)
            else s' == s
  {}

  /** rt_thread_resume puts a suspended thread behind those that are ready at its priority. */
  lemma ResumeExact(s: System, t: nat)
    requires Inv(s) && t in s.threads
    ensures var s', x := Resume(s, t), s.threads[t];
            if x.stat == Suspend then
              && Became(s, s', t, Thread(Ready, x.priority, x.initPriority))
              && ListsMoved(s, s', t, None, Some(x.priority))
            else s' == s
  {}

  /** A change of priority gives the thread just that, and puts it behind those that are ready
      there if it is ready. */
  lemma PriorityExact(s: System, t: nat, p: nat)
    requires Inv(s) && t in s.threads && p < |s.ready|
    ensures var s', x := ChangePriority(s, t, p), s.threads[t];
            && Became(s, s', t, Thread(x.stat, p, x.initPriority))
            && if x.stat == Ready then ListsMoved(s, s', t, Some(x.priority), Some(p)) else s'.ready == s.ready
  {
    var x := s.threads[t];
    var s1 := Remove(s, t, Suspend);
    var s2 := SetPriority(s1, t, p);
    assert x.stat == Ready ==> Insert(s2, t).threads == s.threads[t := Thread(Ready, p, x.initPriority)];
  }

  /** rt_schedule moves no thread, and does nothing while the scheduler is locked. */
  lemma ScheduleExact(s: System)
    requires Inv(s) && Highest(s.ready) < |s.ready|
    ensures var s' := Schedule(s);
            && s'.ready == s.ready && s'.threads == s.threads && s'.lock == s.lock
            && (s.lock != 0 ==> s'.current == s.current)
            && (s.lock == 0 ==> exists p: nat :: FirstReady(s, p, s'.current))
  {
    if s.lock == 0 { assert FirstReady(s, Highest(s.ready), Schedule(s).current); }
  }

  /** Thread `t` is the first of the most urgent list that is not empty, that of `p`. */
  ghost predicate FirstReady(s: System, p: nat, t: nat) {
    p < |s.ready| && s.ready[p] != [] && t == s.ready[p][0] && forall q: nat :: q < p ==> s.ready[q] == []
  }

  /** A new thread is not ready and runs at the priority it was given. */
  lemma CreateExact(s: System, t: nat, p: nat)
    requires Inv(s) && t !in s.threads && p < |s.ready|
    ensures Became(s, Create(s, t, p), t, Thread(Init, p, p)) && Create(s, t, p).ready == s.ready
  {}

  // ---- the lock of the scheduler ----

  function Nested(s: System, k: nat): System { if k == 0 then s else Enter(Nested(s, k - 1)) }

  function Left(s: System, j: nat): System { if j == 0 then s else Exit(Left(s, j - 1)) }

  lemma ShortNext(n: int)
    ensures Short(Short(n) + 1) == Short(n + 1)
  {}

  lemma {:induction false} NestedLock(s: System, k: nat)
    requires s.lock == 0
    ensures Nested(s, k) == s.(lock := Short(k))
  {
    if k == 0 {
      assert s.(lock := 0) == s;
    } else {
      NestedLock(s, k - 1);
      ShortNext(k - 1);
      hide Short;
    }
  }

  lemma ShortIs(k: nat)
    ensures Short(k) == if k % 65536 < 32768 then k % 65536 else k % 65536 - 65536
    ensures Short(k) == Short(k % 65536)
  {}

  /** How many exits unlock the scheduler after `k` entries: the counter wraps, and an exit
      that leaves it negative clears it. */
  function Levels(k: nat): nat {
    var r := k % 65536;
    if r <= 32768 then r else 1
  }

  /** Up to 32768 levels each exit takes one away. */
  lemma {:induction false} Down(s: System, r: nat, j: nat)
    requires r <= 32768 && j <= r && s.lock == Short(r)
    ensures Left(s, j).lock == Short(r - j)
  {
    if j > 0 {
      Down(s, r, j - 1);
      OneDown(r - j);
    }
  }

  lemma OneDown(n: nat)
    requires n < 32768
    ensures Short(Short(n + 1) - 1) == n == Short(n)
  {}

  lemma {:induction false} StaysUnlocked(s: System, i: nat, j: nat)
    requires i <= j && Left(s, i).lock == 0
    ensures Left(s, j).lock == 0
    decreases j
  {
    if i < j { StaysUnlocked(s, i, j - 1); }
  }

  lemma Cleared(s: System, r: nat)
    requires 32768 < r < 65536 && s.lock == Short(r)
    ensures s.lock != 0 && Left(s, 1).lock == 0
  {
    assert Left(s, 0) == s;
  }

  /** After any number of entries, exactly the exits from the `Levels(k)`-th on leave the
      scheduler unlocked. */
  lemma ExitsNeeded(s: System, k: nat, j: nat)
    requires s.lock == 0
    ensures Left(Nested(s, k), j).lock == 0 <==> j >= Levels(k)
  {
    NestedLock(s, k);
    ShortIs(k);
    var n, r, m := Nested(s, k), k % 65536, Levels(k);
    hide Nested;
    if r <= 32768 { Down(n, r, r); } else { Cleared(n, r); }
    if j >= m {
      StaysUnlocked(n, m, j);
    } else if r <= 32768 {
      Down(n, r, j);
      NotZero(r - j);
    }
  }

  lemma NotZero(n: nat)
    requires 0 < n <= 32768
    ensures Short(n) != 0
  {}

  ghost predicate LockedBefore(s: System, k: nat) { forall j: nat :: j < k ==> Left(s, j).lock != 0 }

  /** As many exits as entries unlock the scheduler, and no fewer, if and only if there were
      at most 32768. */
  lemma Balanced(s: System, k: nat)
    requires s.lock == 0
    ensures LockedBefore(Nested(s, k), k) && Left(Nested(s, k), k).lock == 0 <==> k <= 32768
  {
    hide Nested, Short, Enter, Exit;
    var n := Nested(s, k);
    ExitsNeeded(s, k, k);
    if k <= 32768 {
      forall j: nat | j < k
        ensures Left(n, j).lock != 0
      {
        ExitsNeeded(s, k, j);
      }
    } else {
      ExitsNeeded(s, k, Levels(k));
      assert Levels(k) < k && Left(n, Levels(k)).lock == 0;
    }
  }
}
