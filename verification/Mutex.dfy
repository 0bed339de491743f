/** The mutex in the form of ipc.c: its fields, its waiter list and the priorities of the
    threads involved, updated in place. */
module MutexObject {
  import opened Lists
  import opened IpcList
  import S = MutexSpec

  datatype Result = Taken | TimedOut | Waiting

  class Mutex {
    var value: nat
    var owner: Option<nat>
    var originalPriority: nat
    var hold: nat
    var waiters: seq<Waiter<()>>
    var currentPriority: map<nat, nat>   // a field of each thread
    ghost var m: S.Mutex

    ghost predicate Linked()
      reads this
    {
      && value == m.value && owner == m.owner && originalPriority == m.original && hold == m.hold
      && waiters == m.waiters && currentPriority == m.priority
    }

    ghost predicate Valid()
      reads this
    {
      Linked() && S.Inv(m)
    }

    constructor (threads: map<nat, nat>)
      ensures Valid() && S.Initial(m) && m.base == threads
    {
      value, owner, originalPriority, hold, waiters := 1, None, S.NO_PRIORITY, 0, [];
      currentPriority := threads;
      m := S.Mutex(1, None, S.NO_PRIORITY, 0, [], threads, threads, map t | t in threads :: 0);
    }

    /** rt_mutex_take by thread `t` until it returns or waits. */
    method Take(t: nat, wait: bool) returns (r: Result)
      requires Valid() && t in m.base && !Waits(m.waiters, t)
      modifies this
      ensures Valid() && m == S.Take(old(m), t, wait)
      ensures r == Taken <==> old(m).owner == None || old(m).owner == Some(t)
      ensures r == TimedOut <==> old(m).owner != None && old(m).owner != Some(t) && !wait
    {
      hide Waits, Unique, Sorted, Enqueue;
      S.StepInv(m, S.TakeStep(t, wait));
      r := Taken;
      if owner == Some(t) {
        hold := (hold + 1) % 256;
      } else if value > 0 {
        value := value - 1;
        owner := Some(t);
        originalPriority := currentPriority[t];
        hold := (hold + 1) % 256;
      } else {
        if !wait { return TimedOut; }
        var o := owner.value;
        if currentPriority[t] < currentPriority[o] {
          currentPriority := currentPriority[o := currentPriority[t]];
        }
        waiters := Suspend(waiters, Waiter(t, currentPriority[t], ()), Prio);
        r := Waiting;
      }
      m := S.Take(m, t, wait);
    }

    /** rt_mutex_release by thread `t`. */
    method Release(t: nat) returns (ok: bool)
      requires Valid() && t in m.base && !Waits(m.waiters, t)
      modifies this
      ensures Linked() && m == S.Release(old(m), t)
      ensures Valid() <==> !S.Wraps(old(m), t)
      ensures ok <==> old(m).owner == Some(t)
    {
      hide S.Inv;
      S.Known(m);
      if owner == Some(t) { S.ReleaseExact(m, t); }
      if owner != Some(t) { return false; }
      hold := if hold == 0 then 255 else hold - 1;
      if hold == 0 {
        if originalPriority != currentPriority[t] {
          currentPriority := currentPriority[t := originalPriority];
        }
        assert currentPriority == m.priority[t := m.original];
        if waiters != [] {
          assert waiters[0] in m.waiters;
          owner := Some(waiters[0].thread);
          originalPriority := currentPriority[waiters[0].thread];
          hold := hold + 1;
          waiters := waiters[1..];
        } else {
          value := value + 1;
          owner := None;
          originalPriority := S.NO_PRIORITY;
        }
      }
      m := S.Release(m, t);
      ok := true;
    }

    /** rt_thread_timeout takes a suspended thread off the list. */
    method Timeout(k: nat) returns (resumed: nat)
      requires Valid() && k < |waiters|
      modifies this`waiters, this`m
      ensures Valid() && m == S.Timeout(old(m), k) && resumed == old(m).waiters[k].thread
    {
      hide S.Inv;
      S.TimeoutInv(m, k);
      resumed := waiters[k].thread;
      waiters := waiters[..k] + waiters[k + 1..];
      m := S.Timeout(m, k);
    }
  }
}
