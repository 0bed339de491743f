/** The map of ready priorities (scheduler.c): one word of bits up to 32 priorities, and
    beyond that a word that tells which of 32 bytes have bits. */
module ReadyMap {
  import opened Arith
  import opened Bitmap
  import opened SchedulerSpec

  datatype Map = Map(max: nat, group: nat, table: seq<nat>)

  /** The numbers of the bits in number_mask and high_mask of a priority. */
  function NumberOf(max: nat, p: nat): nat { if max <= 32 then p else p / 8 }

  function HighOf(p: nat): nat { p % 8 }

  function Mark(m: Map, number: nat, high: nat): Map
    requires number < |m.table|
  {
    m.(group := SetBit(m.group, number),
       table := if m.max > 32 then m.table[number := SetBit(m.table[number], high)] else m.table)
  }

  function Unmark(m: Map, number: nat, high: nat): Map
    requires number < |m.table|
  {
    if m.max > 32 then
      var byte := ClearBit(m.table[number], high);
      m.(table := m.table[number := byte], group := if byte == 0 then ClearBit(m.group, number) else m.group)
    else
      m.(group := ClearBit(m.group, number))
  }

  /** highest_ready_priority in rt_schedule. */
  function Find(m: Map): int
    requires m.group < 0x1_0000_0000 && |m.table| == 32 && forall n :: 0 <= n < 32 ==> m.table[n] < 256
    requires m.max > 32 ==> 0 < Ffs(m.group) <= 32
  {
    if m.max > 32 then
      var number := Ffs(m.group) - 1;
      number * 8 + Ffs(m.table[number]) - 1
    else
      Ffs(m.group) - 1
  }

  ghost predicate Shape(m: Map) {
    0 < m.max <= 256 && m.group < 0x1_0000_0000 && |m.table| == 32 && forall n :: 0 <= n < 32 ==> m.table[n] < 256
  }

  ghost predicate OneLevel(m: Map, lists: seq<seq<nat>>) {
    forall i: nat :: Bit(m.group, i) <==> i < |lists| && lists[i] != []
  }

  ghost predicate InByte(m: Map, lists: seq<seq<nat>>, n: nat, i: nat)
    requires n < |m.table|
  {
    Bit(m.table[n], i) <==> i < 8 && n * 8 + i < |lists| && lists[n * 8 + i] != []
  }

  ghost predicate TwoLevels(m: Map, lists: seq<seq<nat>>)
    requires |m.table| == 32
  {
    && (forall n: nat :: Bit(m.group, n) <==> n < 32 && m.table[n] != 0)
    && (forall n: nat, i: nat :: n < 32 ==> InByte(m, lists, n, i))
  }

  /** The bits mark exactly the lists that are not empty. */
  ghost predicate Shows(m: Map, lists: seq<seq<nat>>) {
    Shape(m) && |lists| == m.max && if m.max <= 32 then OneLevel(m, lists) else TwoLevels(m, lists)
  }

  lemma Pow32()
    ensures Pow2(32) == 0x1_0000_0000 && Pow2(8) == 256
  {
    assert Pow2(4) == 16;
    assert Pow2(8) == 256;
    assert Pow2(12) == 4096;
    assert Pow2(16) == 65536;
    assert Pow2(20) == 1048576;
    assert Pow2(24) == 16777216;
    assert Pow2(28) == 268435456;
  }

  /** A byte is not zero exactly when it has a bit. */
  lemma NotZero(b: nat, i: nat)
    ensures Bit(b, i) ==> b != 0
    ensures b != 0 ==> Bit(b, Lowest(b))
  {
    ZeroHasNone(i);
    if b != 0 { LowestIs(b, 0); }
  }

  lemma OneSet(m: Map, lists: seq<seq<nat>>, p: nat, q: seq<nat>)
    requires Shows(m, lists) && m.max <= 32 && p < m.max
    ensures Shows(if q != [] then Mark(m, p, HighOf(p)) else Unmark(m, p, HighOf(p)), lists[p := q])
  {
    var m' := if q != [] then Mark(m, p, HighOf(p)) else Unmark(m, p, HighOf(p));
    Pow32();
    SetBitBound(m.group, p, 32);
    ClearBitBound(m.group, p);
    forall i: nat
      ensures Bit(m'.group, i) <==> i < |lists| && lists[p := q][i] != []
    {
      SetBitIs(m.group, p, i);
      ClearBitIs(m.group, p, i);
    }
  }

  lemma TwoBytes(m: Map, lists: seq<seq<nat>>, p: nat, q: seq<nat>, m': Map, n: nat, i: nat)
    requires Shows(m, lists) && m.max > 32 && p < m.max && n < 32
    requires m' == if q != [] then Mark(m, p / 8, p % 8) else Unmark(m, p / 8, p % 8)
    ensures InByte(m', lists[p := q], n, i) && m'.table[n] < 256
  {
    Pow32();
    assert InByte(m, lists, n, i);
    if n == p / 8 {
      SetBitIs(m.table[n], p % 8, i);
      ClearBitIs(m.table[n], p % 8, i);
      SetBitBound(m.table[n], p % 8, 8);
      ClearBitBound(m.table[n], p % 8);
    }
  }

  lemma TwoGroup(m: Map, lists: seq<seq<nat>>, p: nat, q: seq<nat>, m': Map, n: nat)
    requires Shows(m, lists) && m.max > 32 && p < m.max
    requires m' == if q != [] then Mark(m, p / 8, p % 8) else Unmark(m, p / 8, p % 8)
    ensures Bit(m'.group, n) <==> n < 32 && m'.table[n] != 0
  {
    SetBitIs(m.group, p / 8, n);
    ClearBitIs(m.group, p / 8, n);
    SetBitIs(m.table[p / 8], p % 8, p % 8);
    NotZero(SetBit(m.table[p / 8], p % 8), p % 8);
    if q == [] && n == p / 8 { StillMarked(m, lists, p); }
  }

  /** Clearing a bit leaves the byte not zero only if it was so before. */
  lemma StillMarked(m: Map, lists: seq<seq<nat>>, p: nat)
    requires Shows(m, lists) && m.max > 32 && p < m.max
    ensures ClearBit(m.table[p / 8], p % 8) != 0 ==> m.table[p / 8] != 0
  {
    ClearBitBound(m.table[p / 8], p % 8);
  }

  lemma TwoSet(m: Map, lists: seq<seq<nat>>, p: nat, q: seq<nat>)
    requires Shows(m, lists) && m.max > 32 && p < m.max
    ensures Shows(if q != [] then Mark(m, p / 8, p % 8) else Unmark(m, p / 8, p % 8), lists[p := q])
  {
    hide SetBit, ClearBit, Bit;
    var m' := if q != [] then Mark(m, p / 8, p % 8) else Unmark(m, p / 8, p % 8);
    Pow32();
    SetBitBound(m.group, p / 8, 32);
    ClearBitBound(m.group, p / 8);
    var lists' := lists[p := q];
    forall n: nat, i: nat | n < 32
      ensures InByte(m', lists', n, i)
    {
      TwoBytes(m, lists, p, q, m', n, i);
    }
    forall n | 0 <= n < 32
      ensures m'.table[n] < 256
    {
      TwoBytes(m, lists, p, q, m', n, 0);
    }
    forall n: nat
      ensures Bit(m'.group, n) <==> n < 32 && m'.table[n] != 0
    {
      TwoGroup(m, lists, p, q, m', n);
    }
  }

  /** Marking a list that got a thread, and unmarking one that lost its last, keep the map right. */
  lemma SetShows(m: Map, lists: seq<seq<nat>>, p: nat, q: seq<nat>)
    requires Shows(m, lists) && p < m.max
    ensures NumberOf(m.max, p) < 32
    ensures var number, high := NumberOf(m.max, p), HighOf(p);
            Shows(if q != [] then Mark(m, number, high) else Unmark(m, number, high), lists[p := q])
  {
    hide Shows, SetBit, ClearBit;
    if m.max <= 32 {
      OneSet(m, lists, p, q);
    } else {
      MaxBound(m, lists);
      TwoSet(m, lists, p, q);
    }
  }

  lemma MaxBound(m: Map, lists: seq<seq<nat>>)
    requires Shows(m, lists)
    ensures m.max <= 256
  {}

  /** A list that stays not empty changes nothing in the map. */
  lemma StayShows(m: Map, lists: seq<seq<nat>>, p: nat, q: seq<nat>)
    requires Shows(m, lists) && p < m.max && lists[p] != [] && q != []
    ensures Shows(m, lists[p := q])
  {
    if m.max > 32 {
      var lists' := lists[p := q];
      forall n: nat, i: nat | n < 32
        ensures InByte(m, lists', n, i)
      {
        assert InByte(m, lists, n, i);
      }
    }
  }

  /** The search with __rt_ffs finds the most urgent list that is not empty. */
  lemma FindIs(m: Map, lists: seq<seq<nat>>)
    requires Shows(m, lists) && Highest(lists) < |lists|
    ensures m.max > 32 ==> 0 < Ffs(m.group) <= 32
    ensures Find(m) == Highest(lists)
  {
    hide Ffs;
    if m.max <= 32 { FindOne(m, lists); } else { FindTwo(m, lists); }
  }

  lemma FfsLowest(b: nat, j: nat)
    requires b < 0x1_0000_0000 && Bit(b, j)
    ensures b > 0 && Ffs(b) == Lowest(b) + 1 && Bit(b, Lowest(b)) && Lowest(b) <= j
  {
    hide Ffs, Lowest, Bit;
    NotZero(b, j);
    FfsIs(b);
    LowestIs(b, j);
  }

  lemma FindOne(m: Map, lists: seq<seq<nat>>)
    requires Shows(m, lists) && Highest(lists) < |lists| && m.max <= 32
    ensures Find(m) == Highest(lists)
  {
    hide Ffs, Lowest, Bit;
    FfsLowest(m.group, Highest(lists));
  }

  lemma FindTwo(m: Map, lists: seq<seq<nat>>)
    requires Shows(m, lists) && Highest(lists) < |lists| && m.max > 32
    ensures 0 < Ffs(m.group) <= 32 && Find(m) == Highest(lists)
  {
    hide Ffs, Lowest, Bit, Highest;
    var p := Highest(lists);
    var g, i := LowestMark(m, lists, p);
    assert g * 8 + i >= p;
  }

  /** The lowest bit of the lowest marked byte is set and is at most any that is set. */
  lemma LowestMark(m: Map, lists: seq<seq<nat>>, p: nat) returns (g: nat, i: nat)
    requires Shows(m, lists) && m.max > 32 && p < |lists| && lists[p] != []
    ensures g < 32 && Ffs(m.group) == g + 1 && Ffs(m.table[g]) == i + 1
    ensures g * 8 + i <= p && g * 8 + i < |lists| && lists[g * 8 + i] != []
  {
    hide Ffs, Lowest, Bit;
    var n := p / 8;
    assert InByte(m, lists, n, p % 8);
    NotZero(m.table[n], p % 8);
    FfsLowest(m.group, n);
    g := Lowest(m.group);
    NotZero(m.table[g], 0);
    i := Lowest(m.table[g]);
    assert InByte(m, lists, g, i);
    FfsLowest(m.table[g], if g == n then p % 8 else i);
  }
}

/** The scheduler in the form of scheduler.c and thread.c. */
module SchedulerObject {
  import opened Lists
  import opened Bitmap
  import opened SchedulerSpec
  import opened ReadyMap

  /** A thread with the numbers of the bits it sets, in number_mask and in high_mask. */
  datatype Control = Control(stat: Stat, priority: nat, initPriority: nat, number: nat, high: nat)

  class Scheduler {
    const max: nat                      // RT_THREAD_PRIORITY_MAX
    var lists: seq<seq<nat>>            // rt_thread_priority_table
    var group: nat                      // rt_thread_ready_priority_group
    var table: seq<nat>                 // rt_thread_ready_table
    var threads: map<nat, Control>
    var current: nat
    var lockNest: int                   // rt_scheduler_lock_nest, a rt_int16_t
    ghost var s: System

    ghost predicate Mapped()
      reads this`lists, this`group, this`table
    {
      Shows(Map(max, group, table), lists)
    }

    /** A thread's record, with masks for its priority once it was started. */
    ghost predicate Agrees(x: Control, y: Thread) {
      && x.stat == y.stat && x.priority == y.priority && x.initPriority == y.initPriority
      && (x.stat != Init ==> x.number == NumberOf(max, x.priority) && x.high == HighOf(x.priority))
    }

    ghost predicate Valid()
      reads this
    {
      && Inv(s) && Mapped() && s.ready == lists && s.current == current && s.lock == lockNest
      && threads.Keys == s.threads.Keys && forall t :: t in threads ==> Agrees(threads[t], s.threads[t])
    }

    /** rt_system_scheduler_init; `nobody` stands for RT_NULL. */
    constructor (max: nat, nobody: nat)
      requires 0 < max <= 256
      ensures Valid() && this.max == max && Initial(s) && |s.ready| == max && s.current == nobody
    {
      this.max := max;
      lists := seq(max, _ => []);
      group := 0;
      table := seq(32, _ => 0);
      threads := map[];
      current := nobody;
      lockNest := 0;
      s := System(seq(max, _ => []), map[], nobody, 0);
      new;
      InitInv(s);
      EmptyShows(Map(max, group, table), lists);
    }

    /** rt_thread_init */
    method CreateThread(t: nat, p: nat)
      requires Valid() && t !in threads && t != current && p < max
      modifies this`threads, this`s
      ensures Valid() && s == Create(old(s), t, p)
    {
      hide Shows;
      MaxIs(Map(max, group, table), lists);
      CreateInv(s, t, p);
      threads := threads[t := Control(Init, p, p, 0, 0)];
      s := Create(s, t, p);
    }

    /** The list and bits part of rt_schedule_insert_thread. */
    method Link(t: nat, x: Control)
      requires Mapped() && x.priority < max && x.number == NumberOf(max, x.priority) && x.high == HighOf(x.priority)
      modifies this`lists, this`group, this`table
      ensures Mapped() && |old(lists)| == max && lists == old(lists)[x.priority := old(lists)[x.priority] + [t]]
    {
      hide Shows, SetBit;
      Bounds(Map(max, group, table), lists);
      SetShows(Map(max, group, table), lists, x.priority, lists[x.priority] + [t]);
      lists := lists[x.priority := lists[x.priority] + [t]];
      if max > 32 { table := table[x.number := SetBit(table[x.number], x.high)]; }
      group := SetBit(group, x.number);
    }

    /** The same of rt_schedule_remove_thread. */
    method Unlink(t: nat, x: Control)
      requires Mapped() && x.priority < max && x.number == NumberOf(max, x.priority) && x.high == HighOf(x.priority)
      modifies this`lists, this`group, this`table
      ensures Mapped() && |old(lists)| == max && lists == old(lists)[x.priority := Without(old(lists)[x.priority], t)]
    {
      hide Shows, ClearBit, Without;
      Bounds(Map(max, group, table), lists);
      ghost var q := Without(lists[x.priority], t);
      if q != [] { WithoutNone(lists[x.priority], t); StayShows(Map(max, group, table), lists, x.priority, q); }
      SetShows(Map(max, group, table), lists, x.priority, q);
      lists := lists[x.priority := Without(lists[x.priority], t)];
      if lists[x.priority] == [] {
        if max > 32 {
          table := table[x.number := ClearBit(table[x.number], x.high)];
          if table[x.number] == 0 { group := ClearBit(group, x.number); }
        } else {
          group := ClearBit(group, x.number);
        }
      }
    }

    function Masked(x: Control): Control { x.(number := NumberOf(max, x.priority), high := HighOf(x.priority)) }

    /** rt_thread_startup, but for the rt_schedule at its end. */
    method Start(t: nat)
      requires Valid() && t in threads && threads[t].stat == Init
      modifies this
      ensures Valid() && s == Startup(old(s), t)
    {
      hide Shows;
      StepInv(s, StartupStep(t));
      InBounds(s, t);
      var x := Masked(threads[t].(priority := threads[t].initPriority));
      MaxIs(Map(max, group, table), lists);
      Link(t, x);
      threads := threads[t := x.(stat := Ready)];
      s := Startup(s, t);
    }

    /** rt_thread_suspend */
    method Suspend(t: nat) returns (ok: bool)
      requires Valid() && t in threads
      modifies this
      ensures Valid() && s == SuspendThread(old(s), t) && ok == (old(s).threads[t].stat == Ready)
    {
      hide Shows;
      StepInv(s, SuspendStep(t));
      InBounds(s, t);
      if threads[t].stat != Ready { return false; }
      MaxIs(Map(max, group, table), lists);
      Unlink(t, threads[t]);
      threads := threads[t := threads[t].(stat := SchedulerSpec.Suspend)];
      s := SuspendThread(s, t);
      ok := true;
    }

    /** rt_thread_resume and the end of rt_thread_timeout. */
    method ResumeThread(t: nat) returns (ok: bool)
      requires Valid() && t in threads
      modifies this
      ensures Valid() && s == Resume(old(s), t) && ok == (old(s).threads[t].stat == SchedulerSpec.Suspend)
    {
      hide Shows;
      StepInv(s, ResumeStep(t));
      InBounds(s, t);
      if threads[t].stat != SchedulerSpec.Suspend { return false; }
      MaxIs(Map(max, group, table), lists);
      Link(t, threads[t]);
      threads := threads[t := threads[t].(stat := Ready)];
      s := Resume(s, t);
      ok := true;
    }

    /** rt_thread_control with RT_THREAD_CTRL_CHANGE_PRIORITY. */
    method SetThreadPriority(t: nat, p: nat)
      requires Valid() && t in threads && p < max
      modifies this
      ensures Valid() && s == ChangePriority(old(s), t, p)
    {
      hide Shows;
      MaxIs(Map(max, group, table), lists);
      StepInv(s, PriorityStep(t, p));
      InBounds(s, t);
      var x := Masked(threads[t].(priority := p));
      if threads[t].stat == Ready {
        Unlink(t, threads[t]);
        Link(t, x);
      }
      threads := threads[t := x];
      s := ChangePriority(s, t, p);
    }

    /** rt_thread_yield, but for the rt_schedule at its end: a node whose neighbours differ
        has company in its list. */
    method YieldThread()
      requires Valid() && current in threads
      modifies this
      ensures Valid() && s == Yield(old(s))
    {
      hide Shows;
      StepInv(s, YieldStep);
      InBounds(s, current);
      MaxIs(Map(max, group, table), lists);
      var x := threads[current];
      if x.stat == Ready && |lists[x.priority]| >= 2 {
        Unlink(current, x);
        Link(current, x);
      }
      ghost var y := s.threads[current];
      assert s.threads[current := y.(stat := SchedulerSpec.Suspend)][current := y.(stat := Ready)]
        == s.threads[current := y.(stat := Ready)];
      s := Yield(s);
    }

    /** rt_schedule */
    method Schedule()
      requires Valid() && Highest(lists) < |lists|
      modifies this`current, this`s
      ensures Valid() && s == SchedulerSpec.Schedule(old(s))
    {
      hide Shows, Ffs;
      StepInv(s, ScheduleStep);
      Bounds(Map(max, group, table), lists);
      if lockNest == 0 {
        FindIs(Map(max, group, table), lists);
        var highest := Find(Map(max, group, table));
        var to := lists[highest][0];
        if to != current { current := to; }
      }
      s := SchedulerSpec.Schedule(s);
    }

    /** rt_enter_critical */
    method EnterCritical()
      requires Valid()
      modifies this`lockNest, this`s
      ensures Valid() && s == Enter(old(s))
    {
      hide Shows;
      StepInv(s, SchedulerSpec.EnterCritical);
      lockNest := Short(lockNest + 1);
      s := Enter(s);
    }

    /** rt_exit_critical with the rt_schedule at its end. */
    method ExitCritical()
      requires Valid() && Highest(lists) < |lists|
      modifies this`lockNest, this`current, this`s
      ensures Valid() && s == (if Exit(old(s)).lock == 0 then SchedulerSpec.Schedule(Exit(old(s))) else Exit(old(s)))
    {
      hide Shows, Highest;
      StepInv(s, SchedulerSpec.ExitCritical);
      lockNest := Short(lockNest - 1);
      s := Exit(s);
      if lockNest <= 0 {
        lockNest := 0;
        Schedule();
      }
    }
  }

  /** No bit for empty lists. */
  lemma EmptyShows(m: Map, lists: seq<seq<nat>>)
    requires 0 < m.max <= 256 && m.group == 0 && m.table == seq(32, _ => 0) && lists == seq(m.max, _ => [])
    ensures Shows(m, lists)
  {
    forall i: nat
      ensures !Bit(0, i)
    {
      ZeroHasNone(i);
    }
    forall n: nat, i: nat | n < 32
      ensures InByte(m, lists, n, i)
    {}
  }

  lemma Bounds(m: Map, lists: seq<seq<nat>>)
    requires Shows(m, lists)
    ensures |lists| == m.max <= 256 && |m.table| == 32 && m.group < 0x1_0000_0000
    ensures forall n :: 0 <= n < 32 ==> m.table[n] < 256
  {}

  lemma MaxIs(m: Map, lists: seq<seq<nat>>)
    requires Shows(m, lists)
    ensures |lists| == m.max
  {}

  lemma WithoutNone(q: seq<nat>, t: nat)
    ensures Without(q, t) != [] ==> q != []
  {}
}
