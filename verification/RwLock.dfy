/** Reader-writer locks that prefer writers (pthread_rwlock.c), over conditions that are
    semaphores (pthread_cond.c). Each stretch of a call that holds rw_mutex is one step; a
    thread that waits goes to sleep, is woken and comes back in steps of its own. */
module RwLockSpec {
  import opened Lists

  /** A condition: the value of its semaphore, the threads in its list, and those whose wait
      is over but that have not got rw_mutex back, with false for those that timed out. */
  datatype Cond = Cond(tokens: nat, asleep: seq<nat>, woken: map<nat, bool>)

  /** `refcount` is -1 for a writer and else the number of readers. The rest says who holds
      and who waits. */
  datatype Lock = Lock(
    refcount: int, waitReaders: int, waitWriters: int,
    readers: multiset<nat>, writer: set<nat>, waitingReaders: set<nat>, waitingWriters: set<nat>,
    readCond: Cond, writeCond: Cond)

  function Init(): Lock { Lock(0, 0, 0, multiset{}, {}, {}, {}, Cond(0, [], map[]), Cond(0, [], map[])) }

  // ---- conditions ----

  /** Among the `waiting` threads some sleep and some are woken; the others are on their way
      to the semaphore. Nobody sleeps while it has a value. */
  ghost predicate CondOk(c: Cond, waiting: set<nat>) {
    && Distinct(c.asleep) && (forall t :: t in c.asleep ==> t in waiting && t !in c.woken)
    && (forall t :: t in c.woken ==> t in waiting) && (c.tokens > 0 ==> c.asleep == [])
  }

  predicate Coming(c: Cond, waiting: set<nat>, t: nat) { t in waiting && t !in c.asleep && t !in c.woken }

  /** Some thread sleeps, or is about to. */
  ghost predicate Sleepers(c: Cond, waiting: set<nat>) { exists t :: t in waiting && t !in c.woken }

  /** Some thread is woken without an error, or will be as soon as it gets to the semaphore. */
  ghost predicate Pending(c: Cond, waiting: set<nat>) {
    || (exists t :: t in c.woken && c.woken[t])
    || (c.tokens > 0 && exists t :: Coming(c, waiting, t))
  }

  /** pthread_cond_signal */
  function Signal(c: Cond): Cond {
    if c.asleep != [] then c.(asleep := c.asleep[1..], woken := c.woken[c.asleep[0] := true])
    else c.(tokens := c.tokens + 1)
  }

  /** pthread_cond_broadcast */
  function Broadcast(c: Cond): Cond {
    if c.tokens > 0 then c
    else Cond(1, [], map t | t in c.woken.Keys + (set u | u in c.asleep) :: t in c.asleep || c.woken[t])
  }

  /** rt_sem_take in _pthread_cond_timedwait. */
  function Sleep(c: Cond, t: nat): Cond {
    if c.tokens > 0 then c.(tokens := c.tokens - 1, woken := c.woken[t := true]) else c.(asleep := c.asleep + [t])
  }

  function Expire(c: Cond, t: nat): Cond { c.(asleep := Without(c.asleep, t), woken := c.woken[t := false]) }

  function Back(c: Cond, t: nat): Cond { c.(woken := c.woken - {t}) }

  lemma SignalFacts(c: Cond, waiting: set<nat>)
    requires CondOk(c, waiting)
    ensures CondOk(Signal(c), waiting) && (Sleepers(Signal(c), waiting) ==> Pending(Signal(c), waiting))
  {
    if c.asleep != [] {
      TailDistinct(c.asleep);
      assert c.asleep[0] in c.asleep;
      assert Signal(c).woken[c.asleep[0]];
    } else if Sleepers(Signal(c), waiting) {
      var t :| t in waiting && t !in c.woken;
      assert Coming(Signal(c), waiting, t);
    }
  }

  lemma BroadcastFacts(c: Cond, waiting: set<nat>)
    requires CondOk(c, waiting)
    ensures CondOk(Broadcast(c), waiting) && (Sleepers(Broadcast(c), waiting) ==> Pending(Broadcast(c), waiting))
  {
    var c' := Broadcast(c);
    if Sleepers(c', waiting) {
      var t :| t in waiting && t !in c'.woken;
      assert Coming(c', waiting, t);
    }
  }

  /** A thread gets to the semaphore. */
  lemma SleepFacts(c: Cond, waiting: set<nat>, t: nat)
    requires CondOk(c, waiting) && Coming(c, waiting, t)
    ensures var c' := Sleep(c, t);
            && CondOk(c', waiting) && Sleepers(c, waiting)
            && (Pending(c, waiting) ==> Pending(c', waiting)) && (Pending(c', waiting) ==> Pending(c, waiting))
            && (!Pending(c, waiting) ==> Sleepers(c', waiting))
  {
    var c' := Sleep(c, t);
    AppendDistinct(c.asleep, t);
    if c.tokens > 0 { assert c'.woken[t]; }
    if u :| u in c.woken && c.woken[u] { assert c'.woken[u]; }
    assert c.tokens == 0 ==> t !in c'.woken;
  }

  lemma ExpireFacts(c: Cond, waiting: set<nat>, t: nat)
    requires CondOk(c, waiting) && t in c.asleep
    ensures var c' := Expire(c, t);
            && CondOk(c', waiting) && Sleepers(c, waiting)
            && (Pending(c, waiting) <==> Pending(c', waiting))
  {
    var c' := Expire(c, t);
    WithoutMember(c.asleep, t);
    if u :| u in c.woken && c.woken[u] { assert c'.woken[u]; }
    if u :| u in c'.woken && c'.woken[u] { assert c.woken[u]; }
  }

  /** A woken thread comes back. */
  lemma BackFacts(c: Cond, waiting: set<nat>, t: nat)
    requires CondOk(c, waiting) && t in c.woken
    ensures var c' := Back(c, t);
            && CondOk(c', waiting - {t})
            && (Sleepers(c', waiting - {t}) <==> Sleepers(c, waiting))
            && (!c.woken[t] ==> (Pending(c', waiting - {t}) <==> Pending(c, waiting)))
  {
    var c', w := Back(c, t), waiting - {t};
    if u :| u in waiting && u !in c.woken { assert u in w && u !in c'.woken; }
    if !c.woken[t] {
      if u :| u in c.woken && c.woken[u] { assert c'.woken[u]; }
      if u :| Coming(c, waiting, u) { assert Coming(c', w, u); }
      if u :| Coming(c', w, u) { assert Coming(c, waiting, u); }
    }
  }

  /** A thread starts to wait. */
  lemma WaitFacts(c: Cond, waiting: set<nat>, t: nat)
    requires CondOk(c, waiting) && t !in waiting
    ensures CondOk(c, waiting + {t})
  {}

  // ---- the lock ----

  ghost predicate Counts(l: Lock) {
    && l.waitReaders == |l.waitingReaders| && l.waitWriters == |l.waitingWriters|
    && l.waitingReaders !! l.waitingWriters
    && (l.refcount == -1 <==> l.writer != {}) && (l.refcount == -1 ==> |l.writer| == 1 && l.readers == multiset{})
    && (l.refcount >= 0 ==> |l.readers| == l.refcount) && l.refcount >= -1
  }

  /** While the lock is free and writers wait, one of them is being woken. */
  ghost predicate WriterServed(l: Lock) {
    l.refcount == 0 && Sleepers(l.writeCond, l.waitingWriters) ==> Pending(l.writeCond, l.waitingWriters)
  }

  ghost predicate Conds(l: Lock) {
    CondOk(l.readCond, l.waitingReaders) && CondOk(l.writeCond, l.waitingWriters) && WriterServed(l)
  }

  ghost predicate Inv(l: Lock) { Counts(l) && Conds(l) }

  /** The lock is free and no writer waits, but readers sleep and none is being woken. */
  ghost predicate Stuck(l: Lock) {
    && l.refcount == 0 && l.waitingWriters == {}
    && Sleepers(l.readCond, l.waitingReaders) && !Pending(l.readCond, l.waitingReaders)
  }

  /** The loop of pthread_rwlock_rdlock from its test on: acquires or waits. */
  function Read(l: Lock, t: nat): Lock {
    if l.refcount < 0 || l.waitWriters > 0 then
      l.(waitReaders := l.waitReaders + 1, waitingReaders := l.waitingReaders + {t})
    else l.(refcount := l.refcount + 1, readers := l.readers + multiset{t})
  }

  function Write(l: Lock, t: nat): Lock {
    if l.refcount != 0 then l.(waitWriters := l.waitWriters + 1, waitingWriters := l.waitingWriters + {t})
    else l.(refcount := -1, writer := {t})
  }

  function ReaderBack(l: Lock, t: nat): Lock {
    l.(waitReaders := l.waitReaders - 1, waitingReaders := l.waitingReaders - {t}, readCond := Back(l.readCond, t))
  }

  function WriterBack(l: Lock, t: nat): Lock {
    l.(waitWriters := l.waitWriters - 1, waitingWriters := l.waitingWriters - {t}, writeCond := Back(l.writeCond, t))
  }

  function TryRead(l: Lock, t: nat): Lock { if l.refcount < 0 || l.waitWriters > 0 then l else Read(l, t) }

  function TryWrite(l: Lock, t: nat): Lock { if l.refcount != 0 then l else Write(l, t) }

  function Released(l: Lock, t: nat): Lock {
    if l.refcount > 0 then l.(refcount := l.refcount - 1, readers := l.readers - multiset{t})
    else if l.refcount == -1 then l.(refcount := 0, writer := l.writer - {t})
    else l
  }

  /** The end of pthread_rwlock_unlock: a writer first, when it can go, else all readers. */
  function Told(l: Lock): Lock {
    if l.waitWriters > 0 then (if l.refcount == 0 then l.(writeCond := Signal(l.writeCond)) else l)
    else if l.waitReaders > 0 then l.(readCond := Broadcast(l.readCond))
    else l
  }

  /** pthread_rwlock_unlock by a thread that holds the lock. */
  function Unlock(l: Lock, t: nat): Lock { Told(Released(l, t)) }

  predicate Holds(l: Lock, t: nat) { t in l.readers || t in l.writer }

  predicate Waits(l: Lock, t: nat) { t in l.waitingReaders || t in l.waitingWriters }

  datatype Step =
    | ReadStep(t: nat)
    | WriteStep(t: nat)
    | SleepStep(t: nat)
    | TimeoutStep(t: nat)
    | ReadAgain(t: nat)
    | WriteAgain(t: nat)
    | TryReadStep(t: nat)
    | TryWriteStep(t: nat)
    | UnlockStep(t: nat)

  predicate Enabled(l: Lock, s: Step) {
    match s
    case SleepStep(t) => Coming(l.readCond, l.waitingReaders, t) || Coming(l.writeCond, l.waitingWriters, t)
    case TimeoutStep(t) => t in l.readCond.asleep || t in l.writeCond.asleep
    case ReadAgain(t) => t in l.readCond.woken
    case WriteAgain(t) => t in l.writeCond.woken
    case UnlockStep(t) => !Waits(l, t) && Holds(l, t)
    case _ => !Waits(l, s.t)
  }

  function Do(l: Lock, s: Step): Lock
    requires Enabled(l, s)
  {
    match s
    case ReadStep(t) => Read(l, t)
    case WriteStep(t) => Write(l, t)
    case SleepStep(t) =>
      if t in l.waitingReaders then l.(readCond := Sleep(l.readCond, t)) else l.(writeCond := Sleep(l.writeCond, t))
    case TimeoutStep(t) =>
      if t in l.readCond.asleep then l.(readCond := Expire(l.readCond, t)) else l.(writeCond := Expire(l.writeCond, t))
    case ReadAgain(t) => if l.readCond.woken[t] then Read(ReaderBack(l, t), t) else ReaderBack(l, t)
    case WriteAgain(t) => if l.writeCond.woken[t] then Write(WriterBack(l, t), t) else WriterBack(l, t)
    case TryReadStep(t) => TryRead(l, t)
    case TryWriteStep(t) => TryWrite(l, t)
    case UnlockStep(t) => Unlock(l, t)
  }

  // ---- exactly what a call does ----

  /** Who holds and who waits, but for thread `t`. */
  ghost predicate OthersSame(l: Lock, l': Lock, t: nat) {
    && (forall u :: u != t ==> l'.readers[u] == l.readers[u] && (u in l'.writer <==> u in l.writer))
    && (forall u :: u != t ==> (u in l'.waitingReaders <==> u in l.waitingReaders))
    && (forall u :: u != t ==> (u in l'.waitingWriters <==> u in l.waitingWriters))
  }

  /** What a thread has and waits for. */
  datatype Standing = Standing(shares: nat, owns: bool, waitsToRead: bool, waitsToWrite: bool)

  function StandingOf(l: Lock, t: nat): Standing {
    Standing(l.readers[t], t in l.writer, t in l.waitingReaders, t in l.waitingWriters)
  }

  /** A thread that asks to read gets a lock more, if no writer holds or waits, or waits. */
  lemma ReadExact(l: Lock, t: nat)
    requires Counts(l) && !Waits(l, t)
    ensures var free, was := l.writer == {} && l.waitingWriters == {}, StandingOf(l, t);
            && OthersSame(l, Read(l, t), t) && OthersSame(l, TryRead(l, t), t)
            && StandingOf(Read(l, t), t) == (if free then was.(shares := was.shares + 1) else was.(waitsToRead := true))
            && StandingOf(TryRead(l, t), t) == if free then was.(shares := was.shares + 1) else was
  {}

  /** A thread that asks to write gets the lock, if nobody holds it, or waits. */
  lemma WriteExact(l: Lock, t: nat)
    requires Counts(l) && !Waits(l, t)
    ensures var free, was := l.writer == {} && l.readers == multiset{}, StandingOf(l, t);
            && OthersSame(l, Write(l, t), t) && OthersSame(l, TryWrite(l, t), t)
            && StandingOf(Write(l, t), t) == (if free then was.(owns := true) else was.(waitsToWrite := true))
            && StandingOf(TryWrite(l, t), t) == if free then was.(owns := true) else was
  {}

  /** A holder that unlocks has one lock less. */
  lemma UnlockExact(l: Lock, t: nat)
    requires Counts(l) && Holds(l, t)
    ensures var l', was := Unlock(l, t), StandingOf(l, t);
            && OthersSame(l, l', t)
            && StandingOf(l', t) == if was.owns then was.(owns := false) else was.(shares := was.shares - 1)
  {
    ToldSame(Released(l, t));
    hide Told;
    if l.refcount == -1 { OneWriter(l.writer, t); }
  }

  lemma ToldSame(l: Lock)
    ensures var l' := Told(l);
            && l'.readers == l.readers && l'.writer == l.writer
            && l'.waitingReaders == l.waitingReaders && l'.waitingWriters == l.waitingWriters
  {}

  /** A thread that comes back waits no more. */
  lemma BackExact(l: Lock, t: nat)
    ensures OthersSame(l, ReaderBack(l, t), t) && OthersSame(l, WriterBack(l, t), t)
    ensures StandingOf(ReaderBack(l, t), t) == StandingOf(l, t).(waitsToRead := false)
    ensures StandingOf(WriterBack(l, t), t) == StandingOf(l, t).(waitsToWrite := false)
  {}

  predicate SameWoken(c: Cond, c': Cond, t: nat) {
    (t in c'.woken <==> t in c.woken) && (t in c.woken ==> c'.woken[t] == c.woken[t])
  }

  /** A signal wakes the first sleeper, or is kept for the next thread that comes; a broadcast
      wakes every sleeper. */
  lemma WakeExact(c: Cond, t: nat)
    ensures var c' := Signal(c);
            if c.asleep == [] then c' == c.(tokens := c.tokens + 1)
            else
              && c'.asleep == c.asleep[1..] && c'.tokens == c.tokens && c.asleep[0] in c'.woken && c'.woken[c.asleep[0]]
              && (t != c.asleep[0] ==> SameWoken(c, c', t))
    ensures c.tokens == 0 ==> var c' := Broadcast(c);
            && c'.asleep == [] && (t in c.asleep ==> t in c'.woken && c'.woken[t])
            && (t !in c.asleep ==> SameWoken(c, c', t))
  {}

  /** A sleep takes a token or joins the list; a timeout leaves it with an error. */
  lemma SleepExact(c: Cond, waiting: set<nat>, t: nat)
    requires CondOk(c, waiting)
    ensures Coming(c, waiting, t) ==> var c' := Sleep(c, t);
            if c.tokens > 0 then c'.tokens == c.tokens - 1 && c'.asleep == c.asleep && c'.woken == c.woken[t := true]
            else c'.tokens == 0 && c'.asleep == c.asleep + [t] && c'.woken == c.woken
    ensures t in c.asleep ==> var c' := Expire(c, t);
            && c'.tokens == c.tokens && t !in c'.asleep && c'.woken == c.woken[t := false]
            && forall u :: u != t ==> (u in c'.asleep <==> u in c.asleep)
  {
    if t in c.asleep { WithoutMember(c.asleep, t); }
  }

  // ---- the invariant ----

  lemma ReadInv(l: Lock, t: nat)
    requires Inv(l) && !Waits(l, t)
    ensures Inv(Read(l, t)) && (Stuck(Read(l, t)) ==> Stuck(l))
  {
    hide CondOk, Sleepers, Pending;
    WaitFacts(l.readCond, l.waitingReaders, t);
  }

  lemma WriteInv(l: Lock, t: nat)
    requires Inv(l) && !Waits(l, t)
    ensures Inv(Write(l, t)) && !Stuck(Write(l, t))
  {
    hide CondOk, Sleepers, Pending;
    WaitFacts(l.writeCond, l.waitingWriters, t);
  }

  lemma ReleasedCounts(l: Lock, t: nat)
    requires Counts(l) && Holds(l, t)
    ensures Counts(Released(l, t))
  {
    if l.refcount == -1 {
      assert l.writer - {t} == {} by { OneWriter(l.writer, t); }
    }
  }

  lemma OneWriter(w: set<nat>, t: nat)
    requires |w| == 1 && t in w
    ensures w - {t} == {}
  {
    assert |w - {t}| == 0;
  }

  lemma UnlockInv(l: Lock, t: nat)
    requires Inv(l) && Holds(l, t)
    ensures Inv(Unlock(l, t)) && !Stuck(Unlock(l, t))
  {
    hide CondOk, Sleepers, Pending, Signal, Broadcast;
    ReleasedCounts(l, t);
    SignalFacts(l.writeCond, l.waitingWriters);
    BroadcastFacts(l.readCond, l.waitingReaders);
    NoSleepers(l.readCond);
    NoSleepers(l.writeCond);
    assert l.waitWriters == 0 ==> l.waitingWriters == {};
    assert l.waitReaders == 0 ==> l.waitingReaders == {};
  }

  lemma NoSleepers(c: Cond)
    ensures !Sleepers(c, {})
  {}

  lemma SleepInv(l: Lock, t: nat)
    requires Inv(l) && Enabled(l, SleepStep(t))
    ensures Inv(Do(l, SleepStep(t))) && (Stuck(Do(l, SleepStep(t))) <==> Stuck(l))
  {
    hide CondOk, Sleepers, Pending, Sleep;
    if t in l.waitingReaders {
      SleepFacts(l.readCond, l.waitingReaders, t);
    } else {
      SleepFacts(l.writeCond, l.waitingWriters, t);
    }
  }

  lemma TimeoutInv(l: Lock, t: nat)
    requires Inv(l) && Enabled(l, TimeoutStep(t))
    ensures Inv(Do(l, TimeoutStep(t))) && (Stuck(Do(l, TimeoutStep(t))) ==> Stuck(l))
  {
    hide CondOk, Sleepers, Pending, Expire;
    if t in l.readCond.asleep {
      ExpireFacts(l.readCond, l.waitingReaders, t);
    } else {
      ExpireFacts(l.writeCond, l.waitingWriters, t);
    }
  }

  lemma ReaderBackInv(l: Lock, t: nat)
    requires Inv(l) && t in l.readCond.woken
    ensures Inv(ReaderBack(l, t)) && !Waits(ReaderBack(l, t), t)
    ensures !l.readCond.woken[t] ==> (Stuck(ReaderBack(l, t)) <==> Stuck(l))
  {
    assert t in l.waitingReaders;
    BackFacts(l.readCond, l.waitingReaders, t);
    hide CondOk, Sleepers, Pending, Back;
  }

  /** A writer comes back, before it looks at the lock. */
  lemma WriterBackFacts(l: Lock, t: nat)
    requires Inv(l) && t in l.writeCond.woken
    ensures Counts(WriterBack(l, t)) && !Waits(WriterBack(l, t), t)
    ensures CondOk(Back(l.writeCond, t), l.waitingWriters - {t})
    ensures !l.writeCond.woken[t] ==> WriterServed(WriterBack(l, t))
  {
    assert t in l.waitingWriters;
    BackFacts(l.writeCond, l.waitingWriters, t);
    hide CondOk, Sleepers, Pending, Back;
  }

  lemma WriteAgainInv(l: Lock, t: nat)
    requires Inv(l) && t in l.writeCond.woken
    ensures Inv(Do(l, WriteAgain(t)))
    ensures Stuck(Do(l, WriteAgain(t))) ==> !l.writeCond.woken[t] && Do(l, WriteAgain(t)) == WriterBack(l, t)
  {
    hide CondOk, Sleepers, Pending, Back;
    WriterBackFacts(l, t);
    if l.writeCond.woken[t] { WaitFacts(Back(l.writeCond, t), l.waitingWriters - {t}, t); }
  }

  lemma StepInv(l: Lock, s: Step)
    requires Inv(l) && Enabled(l, s)
    ensures Inv(Do(l, s))
  {
    hide Inv, Stuck;
    match s
    case ReadStep(t) => ReadInv(l, t);
    case WriteStep(t) => WriteInv(l, t);
    case SleepStep(t) => SleepInv(l, t);
    case TimeoutStep(t) => TimeoutInv(l, t);
    case ReadAgain(t) =>
      ReaderBackInv(l, t);
      ReadInv(ReaderBack(l, t), t);
    case WriteAgain(t) => WriteAgainInv(l, t);
    case TryReadStep(t) => ReadInv(l, t);
    case TryWriteStep(t) => WriteInv(l, t);
    case UnlockStep(t) => UnlockInv(l, t);
  }

  // ---- runs ----

  ghost predicate Moves(ls: seq<Lock>, ss: seq<Step>, i: int)
    requires |ls| == |ss| + 1 && 0 <= i < |ss|
  {
    Enabled(ls[i], ss[i]) && ls[i + 1] == Do(ls[i], ss[i])
  }

  ghost predicate IsRun(ls: seq<Lock>, ss: seq<Step>) {
    && |ls| == |ss| + 1 && ls[0] == Init()
    && forall i {:trigger Moves(ls, ss, i)} :: 0 <= i < |ss| ==> Moves(ls, ss, i)
  }

  /** In every run the counters are right, and a free lock with waiting writers has one that
      is being woken. */
  lemma {:induction false} RunInv(ls: seq<Lock>, ss: seq<Step>, n: nat)
    requires IsRun(ls, ss) && n < |ls|
    ensures Inv(ls[n])
  {
    if n > 0 {
      hide Inv, Do, Enabled;
      RunInv(ls, ss, n - 1);
      assert Moves(ls, ss, n - 1);
      StepInv(ls[n - 1], ss[n - 1]);
    }
  }

  /** Over every run whose unlocks are by holders: the count is -1 exactly when one writer
      and no reader holds the lock, and k exactly when k readers and no writer do. */
  lemma Exclusion(ls: seq<Lock>, ss: seq<Step>, n: nat, k: nat)
    requires IsRun(ls, ss) && n < |ls|
    ensures var l := ls[n];
            && (l.refcount == -1 <==> |l.writer| == 1 && |l.readers| == 0)
            && (l.refcount == k <==> |l.writer| == 0 && |l.readers| == k)
  {
    RunInv(ls, ss, n);
    var l := ls[n];
    assert l.writer == {} <==> |l.writer| == 0;
  }

  /** No reader gets the lock while a writer is counted as waiting, and no writer while
      anyone holds it. */
  lemma WritersFirst(ls: seq<Lock>, ss: seq<Step>, n: nat)
    requires IsRun(ls, ss) && n < |ss|
    ensures var l, l' := ls[n], ls[n + 1];
            && (|l'.readers| > |l.readers| ==> l.waitingWriters == {} && l.writer == {})
            && (|l'.writer| > |l.writer| ==> l.writer == {} && l.readers == multiset{})
  {
    hide Conds;
    RunInv(ls, ss, n);
    assert Moves(ls, ss, n);
  }

  // ---- readers that nobody wakes ----

  /** The last waiting writer gives up on a free lock, with readers asleep of whom none is
      being woken. */
  ghost predicate GivesUp(l: Lock, s: Step) {
    && s.WriteAgain? && s.t in l.writeCond.woken && !l.writeCond.woken[s.t]
    && l.refcount == 0 && l.waitingWriters == {s.t}
    && Sleepers(l.readCond, l.waitingReaders) && !Pending(l.readCond, l.waitingReaders)
  }

  /** A step leaves readers asleep on a free lock, with nobody to wake them, if and only if
      they were so before or the last waiting writer gives up on the free lock. */
  lemma StuckExactly(l: Lock, s: Step)
    requires Inv(l) && Enabled(l, s)
    ensures !Stuck(l) ==> (Stuck(Do(l, s)) <==> GivesUp(l, s))
  {
    hide Inv, Sleepers, Pending;
    match s
    case ReadStep(t) => ReadInv(l, t);
    case WriteStep(t) => WriteInv(l, t);
    case SleepStep(t) => SleepInv(l, t);
    case TimeoutStep(t) => TimeoutInv(l, t);
    case ReadAgain(t) =>
      ReaderBackInv(l, t);
      ReadNotStuck(ReaderBack(l, t), t);
    case WriteAgain(t) =>
      WriteAgainInv(l, t);
      OnlyWaiter(l, t);
    case TryReadStep(t) => ReadInv(l, t);
    case TryWriteStep(t) => WriteInv(l, t);
    case UnlockStep(t) => UnlockInv(l, t);
  }

  /** A reader at the test of its loop gets a free lock, or waits for a writer. */
  lemma ReadNotStuck(l: Lock, t: nat)
    requires Inv(l)
    ensures !Stuck(Read(l, t))
  {
    hide CondOk, Sleepers, Pending;
  }

  lemma OnlyWaiter(l: Lock, t: nat)
    requires Inv(l) && t in l.writeCond.woken
    ensures l.waitingWriters - {t} == {} <==> l.waitingWriters == {t}
  {}

  /** Over whole runs: as long as no writer gives up so, waiting readers of a free lock are
      being woken. */
  lemma {:induction false} NeverStuck(ls: seq<Lock>, ss: seq<Step>, n: nat)
    requires IsRun(ls, ss) && n < |ls|
    requires forall i :: 0 <= i < n ==> !GivesUp(ls[i], ss[i])
    ensures !Stuck(ls[n])
  {
    if n == 0 {
      NoSleepers(ls[0].readCond);
    } else {
      hide Inv, Do, Enabled, Stuck, GivesUp;
      NeverStuck(ls, ss, n - 1);
      RunInv(ls, ss, n - 1);
      assert Moves(ls, ss, n - 1);
      StuckExactly(ls[n - 1], ss[n - 1]);
    }
  }

  /** Once they are stuck, only another thread that takes the lock, or a timeout of their
      own, changes that. */
  lemma StuckStays(l: Lock, s: Step)
    requires Inv(l) && Enabled(l, s) && Stuck(l) && (s.SleepStep? || s.ReadAgain? || s.WriteAgain? || s.UnlockStep?)
    ensures Stuck(Do(l, s))
  {
    hide CondOk, Sleepers, Pending;
    match s
    case SleepStep(t) => SleepInv(l, t);
    case ReadAgain(t) =>
      WokenPending(l, t);
      ReaderBackInv(l, t);
    case WriteAgain(t) => WokenWaits(l.writeCond, l.waitingWriters, t);
    case UnlockStep(t) =>
  }

  lemma WokenPending(l: Lock, t: nat)
    requires t in l.readCond.woken && !Pending(l.readCond, l.waitingReaders)
    ensures !l.readCond.woken[t]
  {}

  lemma WokenWaits(c: Cond, waiting: set<nat>, t: nat)
    requires CondOk(c, waiting) && t in c.woken
    ensures t in waiting
  {}

  /** Reader 1 holds the lock; writer 2 and reader 3 sleep. */
  function BothAsleep(): Lock {
    Lock(1, 1, 1, multiset{1}, {}, {3}, {2}, Cond(0, [3], map[]), Cond(0, [2], map[]))
  }

  lemma GoToSleep() returns (ls: seq<Lock>, ss: seq<Step>)
    ensures IsRun(ls, ss) && |ss| == 5 && ls[5] == BothAsleep()
  {
    var l0 := Init();
    var l1 := Do(l0, ReadStep(1));
    var l2 := Do(l1, WriteStep(2));
    var l3 := Do(l2, SleepStep(2));
    var l4 := Do(l3, ReadStep(3));
    var l5 := Do(l4, SleepStep(3));
    ls := [l0, l1, l2, l3, l4, l5];
    ss := [ReadStep(1), WriteStep(2), SleepStep(2), ReadStep(3), SleepStep(3)];
    assert l5.readers == multiset{1} && l5.waitingReaders == {3} && l5.waitingWriters == {2};
  }

  lemma GiveUpAfter() returns (l6: Lock, l7: Lock, l8: Lock)
    ensures Enabled(BothAsleep(), TimeoutStep(2)) && l6 == Do(BothAsleep(), TimeoutStep(2))
    ensures Enabled(l6, UnlockStep(1)) && l7 == Do(l6, UnlockStep(1))
    ensures Enabled(l7, WriteAgain(2)) && l8 == Do(l7, WriteAgain(2))
    ensures Stuck(l8) && 3 in l8.readCond.asleep
  {
    l6 := Do(BothAsleep(), TimeoutStep(2));
    l7 := Do(l6, UnlockStep(1));
    l8 := Do(l7, WriteAgain(2));
  }

  lemma RunOn(ls: seq<Lock>, ss: seq<Step>, s: Step)
    requires IsRun(ls, ss) && Enabled(ls[|ss|], s)
    ensures IsRun(ls + [Do(ls[|ss|], s)], ss + [s])
  {
    hide Do, Enabled;
    var ls', ss' := ls + [Do(ls[|ss|], s)], ss + [s];
    forall i | 0 <= i < |ss'|
      ensures Moves(ls', ss', i)
    {
      if i < |ss| { assert Moves(ls, ss, i); }
    }
  }

  /** It does happen: reader 1 holds the lock, writer 2 and then reader 3 wait and sleep, 2
      times out, 1 unlocks and signals the writers, and 2 gives up. */
  lemma StuckRun() returns (ls: seq<Lock>, ss: seq<Step>)
    ensures IsRun(ls, ss) && Stuck(ls[|ss|]) && 3 in ls[|ss|].readCond.asleep
  {
    hide Do, Enabled, Stuck, IsRun;
    ls, ss := GoToSleep();
    RunSize(ls, ss);
    var l6, l7, l8 := GiveUpAfter();
    RunOn(ls, ss, TimeoutStep(2));
    RunOn(ls + [l6], ss + [TimeoutStep(2)], UnlockStep(1));
    RunOn(ls + [l6] + [l7], ss + [TimeoutStep(2)] + [UnlockStep(1)], WriteAgain(2));
    ls, ss := ls + [l6] + [l7] + [l8], ss + [TimeoutStep(2)] + [UnlockStep(1)] + [WriteAgain(2)];
  }

  lemma RunSize(ls: seq<Lock>, ss: seq<Step>)
    requires IsRun(ls, ss)
    ensures |ls| == |ss| + 1
  {}
}

/** The lock in the form of pthread_rwlock.c and pthread_cond.c. */
module RwLockObject {
  import opened Lists
  import S = RwLockSpec

  datatype Result = Acquired | Waiting | Busy | Failed

  /** What an unlock tells the waiting threads. */
  datatype Signal = Nobody | OneWriter | AllReaders

  class RwLock {
    var refcount: int
    var waitReaders: int
    var waitWriters: int
    var readSem: nat              // the semaphores of the two conditions
    var readList: seq<nat>
    var writeSem: nat
    var writeList: seq<nat>
    ghost var l: S.Lock

    ghost predicate Valid()
      reads this
    {
      && S.Inv(l) && l.refcount == refcount && l.waitReaders == waitReaders && l.waitWriters == waitWriters
      && l.readCond.tokens == readSem && l.readCond.asleep == readList
      && l.writeCond.tokens == writeSem && l.writeCond.asleep == writeList
    }

    constructor ()
      ensures Valid() && l == S.Init()
    {
      refcount, waitReaders, waitWriters, l := 0, 0, 0, S.Init();
      readSem, readList, writeSem, writeList := 0, [], 0, [];
    }

    /** pthread_rwlock_rdlock, from its start or from the end of a wait with result `ok`, to
        its return or its next wait. */
    method ReadLock(t: nat, again: bool, ok: bool) returns (r: Result)
      requires Valid() && if again then t in l.readCond.woken && l.readCond.woken[t] == ok else !S.Waits(l, t)
      modifies this`refcount, this`waitReaders, this`l
      ensures Valid() && l == S.Do(old(l), if again then S.ReadAgain(t) else S.ReadStep(t))
      ensures r == if again && !ok then Failed else if t in l.waitingReaders then Waiting else Acquired
    {
      hide S.Inv;
      ghost var step := if again then S.ReadAgain(t) else S.ReadStep(t);
      S.StepInv(l, step);
      l := S.Do(l, step);
      if again {
        waitReaders := waitReaders - 1;
        if !ok { return Failed; }
      }
      if refcount < 0 || waitWriters > 0 {
        waitReaders := waitReaders + 1;
        r := Waiting;
      } else {
        refcount := refcount + 1;
        r := Acquired;
      }
    }

    /** pthread_rwlock_wrlock, likewise. */
    method WriteLock(t: nat, again: bool, ok: bool) returns (r: Result)
      requires Valid() && if again then t in l.writeCond.woken && l.writeCond.woken[t] == ok else !S.Waits(l, t)
      modifies this`refcount, this`waitWriters, this`l
      ensures Valid() && l == S.Do(old(l), if again then S.WriteAgain(t) else S.WriteStep(t))
      ensures r == if again && !ok then Failed else if t in l.waitingWriters then Waiting else Acquired
    {
      hide S.Inv;
      ghost var step := if again then S.WriteAgain(t) else S.WriteStep(t);
      S.StepInv(l, step);
      l := S.Do(l, step);
      if again {
        waitWriters := waitWriters - 1;
        if !ok { return Failed; }
      }
      if refcount != 0 {
        waitWriters := waitWriters + 1;
        r := Waiting;
      } else {
        refcount := -1;
        r := Acquired;
      }
    }

    /** pthread_rwlock_tryrdlock */
    method TryReadLock(t: nat) returns (r: Result)
      requires Valid() && !S.Waits(l, t)
      modifies this`refcount, this`l
      ensures Valid() && l == S.TryRead(old(l), t)
      ensures r == if old(l).writer == {} && old(l).waitingWriters == {} then Acquired else Busy
    {
      hide S.Conds;
      S.StepInv(l, S.TryReadStep(t));
      l := S.TryRead(l, t);
      if refcount < 0 || waitWriters > 0 {
        r := Busy;
      } else {
        refcount := refcount + 1;
        r := Acquired;
      }
    }

    /** pthread_rwlock_trywrlock */
    method TryWriteLock(t: nat) returns (r: Result)
      requires Valid() && !S.Waits(l, t)
      modifies this`refcount, this`l
      ensures Valid() && l == S.TryWrite(old(l), t)
      ensures r == if old(l).writer == {} && old(l).readers == multiset{} then Acquired else Busy
    {
      hide S.Conds;
      S.StepInv(l, S.TryWriteStep(t));
      l := S.TryWrite(l, t);
      if refcount != 0 {
        r := Busy;
      } else {
        refcount := -1;
        r := Acquired;
      }
    }

    /** pthread_rwlock_unlock by a holder: a waiting writer is told first, when it can go. */
    method Unlock(t: nat) returns (signal: Signal)
      requires Valid() && !S.Waits(l, t) && S.Holds(l, t)
      modifies this
      ensures Valid() && l == S.Unlock(old(l), t)
      ensures signal == OneWriter <==> l.waitingWriters != {} && l.writer == {} && l.readers == multiset{}
      ensures signal == AllReaders <==> l.waitingWriters == {} && l.waitingReaders != {}
    {
      hide S.Conds;
      S.UnlockInv(l, t);
      l := S.Unlock(l, t);
      if refcount > 0 {
        refcount := refcount - 1;
      } else if refcount == -1 {
        refcount := 0;
      }
      signal := Nobody;
      if waitWriters > 0 {
        if refcount == 0 {
          signal := OneWriter;
          if writeList != [] { writeList := writeList[1..]; } else { writeSem := writeSem + 1; }
        }
      } else if waitReaders > 0 {
        signal := AllReaders;
        readSem, readList := Broadcast(readSem, readList);
      }
    }

    /** rt_sem_take of _pthread_cond_timedwait, for a reader or a writer on its way to sleep. */
    method SleepOn(t: nat, reader: bool) returns (slept: bool)
      requires Valid() && if reader then S.Coming(l.readCond, l.waitingReaders, t)
               else S.Coming(l.writeCond, l.waitingWriters, t)
      modifies this`readSem, this`readList, this`writeSem, this`writeList, this`l
      ensures Valid() && l == S.Do(old(l), S.SleepStep(t))
              && slept == (if reader then old(readSem) == 0 else old(writeSem) == 0)
    {
      S.StepInv(l, S.SleepStep(t));
      l := S.Do(l, S.SleepStep(t));
      slept := if reader then readSem == 0 else writeSem == 0;
      if reader {
        if readSem > 0 { readSem := readSem - 1; } else { readList := readList + [t]; }
      } else {
        if writeSem > 0 { writeSem := writeSem - 1; } else { writeList := writeList + [t]; }
      }
    }

    /** rt_thread_timeout takes a sleeping thread off its list. */
    method Timeout(t: nat)
      requires Valid() && (t in readList || t in writeList)
      modifies this`readList, this`writeList, this`l
      ensures Valid() && l == S.Do(old(l), S.TimeoutStep(t))
    {
      S.StepInv(l, S.TimeoutStep(t));
      l := S.Do(l, S.TimeoutStep(t));
      if t in readList { readList := Without(readList, t); } else { writeList := Without(writeList, t); }
    }
  }

  /** The loop of pthread_cond_broadcast: releases the semaphore until a take succeeds, and
      gives that one back. */
  method Broadcast(sem0: nat, list0: seq<nat>) returns (sem: nat, list: seq<nat>)
    ensures sem == (if sem0 > 0 then sem0 else 1) && list == if sem0 > 0 then list0 else []
  {
    sem, list := sem0, list0;
    while sem == 0
      invariant sem0 > 0 ==> sem == sem0 && list == list0
      invariant sem0 == 0 ==> sem == 0 || (sem == 1 && list == [])
      decreases if sem == 0 then 1 + |list| else 0
    {
      if list != [] { list := list[1..]; } else { sem := sem + 1; }
    }
  }
}
