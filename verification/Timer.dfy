/** The timer list of timer.c: a skip list of rows, the last of which holds every active
    timer, searched row by row and changed in place; ticks are 32-bit. */
module TimerObject {
  import opened TimerSpec

  ghost function Ids(s: seq<Timer>): (r: seq<nat>)
    ensures |r| == |s| && forall i :: 0 <= i < |s| ==> r[i] == s[i].id
  {
    seq(|s|, i requires 0 <= i < |s| => s[i].id)
  }

  /** The place of a node in a row; in memory a timer's nodes lie next to each other. */
  function Place(row: seq<nat>, id: nat): (k: nat)
    requires id in row
    ensures k < |row| && row[k] == id
  {
    if row[0] == id then 0 else 1 + Place(row[1..], id)
  }

  /** rt_list_remove, which does nothing to a node that is not linked. */
  function Unlinked(row: seq<nat>, id: nat): seq<nat> {
    if id in row then row[..Place(row, id)] + row[Place(row, id) + 1..] else row
  }

  lemma GoneFromRows(list: seq<Timer>, id: nat)
    requires !Active(list, id)
    ensures forall height :: id !in Ids(Row(list, height))
  {
    forall height
      ensures id !in Ids(Row(list, height))
    {
      RowFacts(list, height);
    }
  }

  class TimerList {
    const levels: nat
    const delay: map<nat, nat>        // init_tick of each timer
    const periodic: map<nat, bool>
    var tick: nat
    var random: nat
    var rows: seq<seq<nat>>
    var timeout: map<nat, nat>        // timeout_tick
    var activated: set<nat>
    ghost var s: Timers

    ghost predicate Fields(x: Timer)
      reads this
    {
      && x.id in timeout && timeout[x.id] == Tick(x.deadline) && x.id in activated
      && x.id in delay && delay[x.id] == x.delay && x.id in periodic && periodic[x.id] == x.periodic
    }

    /** Each row holds the timers of its height, in the order of the list. */
    ghost predicate RowsOf(list: seq<Timer>)
      reads this`rows
    {
      |rows| == levels && forall r :: 0 <= r < levels ==> rows[r] == Ids(Row(list, levels - r))
    }

    ghost predicate Linked(list: seq<Timer>)
      reads this
    {
      RowsOf(list) && forall x :: x in list ==> Fields(x)
    }

    ghost predicate ValidEarly(early: nat)
      reads this
    {
      && InvEarly(s, early) && s.levels == levels && tick == Tick(s.now) && random == s.random
      && Linked(s.list) && forall id :: id in activated <==> Active(s.list, id)
    }

    ghost predicate Valid()
      reads this
    {
      ValidEarly(0)
    }

    constructor (count: nat, delays: map<nat, nat>, repeats: map<nat, bool>)
      requires count > 0
      ensures Valid() && s == Timers(0, [], 0, count) && delay == delays && periodic == repeats
    {
      levels, delay, periodic := count, delays, repeats;
      tick, random, rows, timeout, activated := 0, 0, seq(count, _ => []), map[], {};
      s := Timers(0, [], 0, count);
    }

    // ---- rt_timer_start ----

    /** The search in one row, from `start` on. */
    method FindInRow(r: nat, start: nat, at: nat, ghost deadline: nat, ghost row: seq<Timer>) returns (p: nat)
      requires r < |rows| && rows[r] == Ids(row) && Sorted(row) && at == Tick(deadline)
      requires forall x :: x in row ==>
                 x.id in timeout && timeout[x.id] == Tick(x.deadline) && -(HALF as int) <= x.deadline - deadline < HALF
      requires start <= Rank(row, deadline)
      ensures p == Rank(row, deadline)
    {
      p := start;
      while p < |rows[r]|
        invariant p <= Rank(row, deadline)
      {
        var t := rows[r][p];
        assert row[p] in row && t == row[p].id;
        WrapLater(row[p].deadline, deadline);
        var d := Minus(timeout[t], at);
        if d != 0 && d < HALF { break; }
        p := p + 1;
      }
    }

    /** The search in row `r`, entered below the timer at which the search above ended. */
    method FindRow(r: nat, head: nat, at: nat, ghost deadline: nat) returns (p: nat)
      requires ValidEarly(1) && at == Tick(deadline) && s.now <= deadline < s.now + HALF && r < levels
      requires head == if r == 0 then 0 else Rank(Row(s.list, levels - (r - 1)), deadline)
      ensures p == Rank(Row(s.list, levels - r), deadline)
    {
      hide InvEarly, Row, Rank, Sorted, Unique, Ids, Place, Active;
      ghost var row := Row(s.list, levels - r);
      RowReady(s, levels - r, deadline);
      var start := 0;
      if head > 0 {
        ghost var above := Row(s.list, levels - (r - 1));
        RowReady(s, levels - (r - 1), deadline);
        RowBelow(s.list, levels - r, levels - (r - 1));
        StepDown(above, row, head - 1, deadline);
        start := Place(rows[r], rows[r - 1][head - 1]) + 1;
      }
      p := FindInRow(r, start, at, deadline, row);
    }

    /** The search of rt_timer_start: in every row the place behind all that expire no later. */
    method FindRows(at: nat, ghost deadline: nat) returns (heads: seq<nat>)
      requires ValidEarly(1) && at == Tick(deadline) && s.now <= deadline < s.now + HALF
      ensures |heads| == levels && forall r :: 0 <= r < levels ==> heads[r] == Rank(Row(s.list, levels - r), deadline)
    {
      hide InvEarly, Row, Rank, Sorted, Unique, Active, Linked;
      heads := [];
      var p := 0;
      for r := 0 to levels
        invariant |heads| == r && p == if r == 0 then 0 else Rank(Row(s.list, levels - (r - 1)), deadline)
        invariant forall q :: 0 <= q < r ==> heads[q] == Rank(Row(s.list, levels - q), deadline)
      {
        p := FindRow(r, p, at, deadline);
        heads := heads + [p];
      }
    }

    /** The insertion of rt_timer_start: into the last row, and into those above it as long
        as two more bits of the counter are zero. */
    method InsertRows(id: nat, heads: seq<nat>, ghost list: seq<Timer>, ghost x: Timer)
      requires levels > 0 && RowsOf(list) && Sorted(list) && x.id == id && x.height == Height(random, levels)
      requires |heads| == levels && forall r :: 0 <= r < levels ==> heads[r] == Rank(Row(list, levels - r), x.deadline)
      modifies this`rows
      ensures RowsOf(Insert(list, x))
    {
      hide Row, Insert, Rank, Sorted, Ids;
      var tst, k := random, 1;
      LinkRow(levels - 1, heads[levels - 1], id, Row(list, 1), x);
      while k < levels && tst % 4 == 0
        invariant 1 <= k <= levels == |rows| && x.height == k + Zeros(tst, levels - k)
        invariant forall r :: 0 <= r < levels - k ==> rows[r] == Ids(Row(list, levels - r))
        invariant forall r :: levels - k <= r < levels ==> rows[r] == Ids(Insert(Row(list, levels - r), x))
      {
        LinkRow(levels - 1 - k, heads[levels - 1 - k], id, Row(list, k + 1), x);
        tst := tst / 4;
        k := k + 1;
      }
      forall r | 0 <= r < levels
        ensures rows[r] == Ids(Row(Insert(list, x), levels - r))
      {
        RowInsert(list, x, levels - r);
      }
    }

    /** rt_list_insert_after in one row. */
    method LinkRow(r: nat, p: nat, id: nat, ghost row: seq<Timer>, ghost x: Timer)
      requires r < |rows| && rows[r] == Ids(row) && p == Rank(row, x.deadline) && x.id == id
      modifies this`rows
      ensures rows == old(rows)[r := Ids(Insert(row, x))]
    {
      InsertAt(row, x);
      assert Ids(Insert(row, x)) == Ids(row)[..p] + [id] + Ids(row)[p..];
      rows := rows[r := rows[r][..p] + [id] + rows[r][p..]];
    }

    /** rt_timer_start; refused for an active timer. */
    method Start(id: nat, ghost early: nat) returns (ok: bool)
      requires ValidEarly(early) && early <= 1 && id in delay && id in periodic
      requires delay[id] < HALF && (periodic[id] ==> delay[id] > 0)
      modifies this
      ensures ValidEarly(early) && ok == !Active(old(s).list, id)
      ensures s == if ok then TimerSpec.Start(old(s), id, delay[id], periodic[id]) else old(s)
    {
      hide InvEarly, Row, Insert, Rank, Sorted, Unique, Ids, Active;
      if id in activated { return false; }
      ghost var x := (LevelsKnown(s, early); New(s, id, delay[id], periodic[id]));
      StartEarly(s, id, delay[id], periodic[id], early);
      timeout := timeout[id := (tick + delay[id]) % TICKS];
      TickAdd(s.now, delay[id]);
      var heads := FindRows(timeout[id], x.deadline);
      random := (random + 1) % TICKS;
      InsertRows(id, heads, s.list, x);
      activated := activated + {id};
      s := TimerSpec.Start(s, id, delay[id], periodic[id]);
      ok := true;
    }

    // ---- rt_timer_stop and rt_timer_check ----

    /** _rt_timer_remove: out of every row. */
    method RemoveRows(id: nat, ghost list: seq<Timer>)
      requires RowsOf(list) && Unique(list) && Sorted(list)
      modifies this`rows
      ensures RowsOf(Remove(list, id))
    {
      hide Row, Remove, Ids, Unlinked;
      for r := 0 to levels
        invariant |rows| == levels
        invariant forall q :: 0 <= q < r ==> rows[q] == Ids(Row(Remove(list, id), levels - q))
        invariant forall q :: r <= q < levels ==> rows[q] == Ids(Row(list, levels - q))
      {
        RowRemove(list, id, levels - r);
        RowSorted(list, levels - r);
        UnlinkedIds(Row(list, levels - r), id);
        rows := rows[r := Unlinked(rows[r], id)];
      }
    }

    /** rt_timer_stop; refused for a timer that is not active. */
    method Stop(id: nat) returns (ok: bool)
      requires Valid()
      modifies this
      ensures Valid() && s == TimerSpec.Stop(old(s), id) && ok == Active(old(s).list, id)
      ensures activated == old(activated) - {id} && forall r :: 0 <= r < levels ==> id !in rows[r]
    {
      hide InvEarly, Row, Remove, Ids, Sorted, Unique;
      StopFacts(s, id);
      ok := id in activated;
      if ok {
        RemoveRows(id, s.list);
        activated := activated - {id};
      }
      s := TimerSpec.Stop(s, id);
      GoneFromRows(s.list, id);
    }

    /** One round of the loop of rt_timer_check. */
    method FireFirst() returns (t: nat)
      requires ValidEarly(1) && HasDue(s)
      modifies this
      ensures ValidEarly(1) && s == Fire(old(s)) && t == old(s).list[0].id
    {
      hide InvEarly, Row, Remove, Insert, Ids, Sorted, Unique, Active;
      ghost var x := s.list[0];
      FirstFacts(s);
      t := rows[levels - 1][0];
      RemoveRows(t, s.list);
      activated := activated - {t};
      s := s.(list := s.list[1..]);
      if periodic[t] {
        var ok := Start(t, 1);
      }
    }

    /** rt_timer_check, with timer functions that leave the timers alone. */
    method Check() returns (fired: seq<nat>)
      requires ValidEarly(1)
      modifies this
      ensures Valid() && s == TimerSpec.Check(old(s)) && fired == Ids(Fired(old(s)))
    {
      hide Fire, Ids, Active, Row, InvEarly, TimerSpec.Check, Fired, Rank;
      fired := [];
      ghost var s0 := s;
      FirstKnown(s);
      while rows[levels - 1] != []
        invariant ValidEarly(1) && levels > 0 && |rows| == levels
        invariant TimerSpec.Check(s) == TimerSpec.Check(s0) && Ids(Fired(s0)) == fired + Ids(Fired(s))
        decreases Rank(s.list, s.now)
      {
        FirstKnown(s);
        CheckRound(s);
        if !(Minus(tick, timeout[rows[levels - 1][0]]) < HALF) { break; }
        var t := FireFirst();
        fired := fired + [t];
        FirstKnown(s);
      }
      FirstKnown(s);
      CheckRound(s);
      CheckInv(s0);
    }

    /** rt_tick_increase, as far as timers go. */
    method Increase() returns (fired: seq<nat>)
      requires Valid()
      modifies this
      ensures Valid() && s == Do(old(s), TickStep) && fired == Ids(FiredAt(old(s)))
    {
      hide InvEarly, Row, Active, TimerSpec.Check, Fired;
      TickEarly(s);
      TickAdd(s.now, 1);
      tick := (tick + 1) % TICKS;
      s := s.(now := s.now + 1);
      fired := Check();
    }
  }

  lemma CheckRound(s: Timers)
    requires InvEarly(s, 1)
    ensures if HasDue(s) then
              && s.levels > 0 && InvEarly(Fire(s), 1) && TimerSpec.Check(s) == TimerSpec.Check(Fire(s))
              && Ids(Fired(s)) == [s.list[0].id] + Ids(Fired(Fire(s)))
                 && Rank(Fire(s).list, s.now) < Rank(s.list, s.now) && Fire(s).now == s.now
            else TimerSpec.Check(s) == s && Ids(Fired(s)) == []
  {
    hide InvEarly, Fire;
    if HasDue(s) { FireFacts(s); }
  }

  lemma RowReady(s: Timers, height: int, deadline: nat)
    requires InvEarly(s, 1) && s.now <= deadline < s.now + HALF
    ensures var row := Row(s.list, height);
            Sorted(row) && Unique(row) && forall x :: x in row ==>
              x in s.list && -(HALF as int) <= x.deadline - deadline < HALF
  {
    RowSorted(s.list, height);
    RowFacts(s.list, height);
    forall x | x in Row(s.list, height)
      ensures x in s.list && -(HALF as int) <= x.deadline - deadline < HALF
    {
      assert Fits(s, x, 1);
    }
  }

  lemma RowBelow(s: seq<Timer>, low: int, high: int)
    requires low <= high
    ensures forall x :: x in Row(s, high) ==> x in Row(s, low)
  {
    RowFacts(s, low);
    RowFacts(s, high);
  }

  /** A timer found in one row is in the row below, no further than the place sought there. */
  lemma StepDown(above: seq<Timer>, row: seq<Timer>, h: nat, deadline: nat)
    requires Sorted(above) && Sorted(row) && Unique(row) && h < Rank(above, deadline)
    requires forall x :: x in above ==> x in row
    ensures above[h].id in Ids(row) && Place(Ids(row), above[h].id) + 1 <= Rank(row, deadline)
  {
    var x := above[h];
    assert x in row;
    var i :| 0 <= i < |row| && row[i] == x;
    assert Ids(row)[i] == x.id;
    PlaceIs(row, i);
    BeforeRank(row, i, deadline);
  }

  lemma PlaceIs(row: seq<Timer>, i: nat)
    requires Unique(row) && i < |row| && row[i].id in Ids(row)
    ensures Place(Ids(row), row[i].id) == i
  {
    var k := Place(Ids(row), row[i].id);
    assert row[k].id == row[i].id;
  }

  lemma BeforeRank(row: seq<Timer>, i: nat, deadline: nat)
    requires Sorted(row) && i < |row| && row[i].deadline <= deadline
    ensures i < Rank(row, deadline)
  {}

  lemma LevelsKnown(s: Timers, early: nat)
    requires InvEarly(s, early)
    ensures s.levels > 0 && Sorted(s.list)
  {}

  lemma TickAdd(now: nat, delay: nat)
    ensures (Tick(now) + delay) % TICKS == Tick(now + delay)
  {
    var m := Tick(now) + delay;
    assert now == (now / TICKS) * TICKS + Tick(now) && m == (m / TICKS) * TICKS + m % TICKS;
    Remainder(now + delay, now / TICKS + m / TICKS, m % TICKS);
  }

  lemma Remainder(x: nat, q: nat, r: nat)
    requires r < TICKS && x == q * TICKS + r
    ensures x % TICKS == r
  {
    var d := x / TICKS;
    assert x == d * TICKS + x % TICKS;
  }

  /** Starting a timer in a list that is in order. */
  lemma StartEarly(s: Timers, id: nat, delay: nat, periodic: bool, early: nat)
    requires InvEarly(s, early) && early <= 1 && !Active(s.list, id) && delay < HALF && (periodic ==> delay > 0)
    ensures var s' := TimerSpec.Start(s, id, delay, periodic);
            && InvEarly(s, 1) && InvEarly(s', early)
            && (forall x :: x in s'.list <==> x == New(s, id, delay, periodic) || x in s.list)
            && (forall i :: Active(s'.list, i) <==> i == id || Active(s.list, i))
            && (forall x :: x in s.list ==> x.id != id)
  {
    var x, s' := New(s, id, delay, periodic), TimerSpec.Start(s, id, delay, periodic);
    InsertSorted(s.list, x);
    InsertMembers(s.list, x);
    forall y | y in s.list
      ensures Fits(s, y, 1) && Fits(s', y, early)
    {
      assert Fits(s, y, early);
    }
    assert x in s'.list;
  }

  lemma UnlinkedIds(row: seq<Timer>, id: nat)
    requires Unique(row)
    ensures Unlinked(Ids(row), id) == Ids(Remove(row, id))
  {
    if id in Ids(row) {
      var k := Place(Ids(row), id);
      RemoveAt(row, k);
      hide Remove, Unique, Ids, Place;
      IdsCut(row, k);
    } else {
      forall y | y in row
        ensures y.id != id
      {
        var i :| 0 <= i < |row| && row[i] == y;
        assert Ids(row)[i] == y.id;
      }
      RemoveAbsent(row, id);
    }
  }

  lemma IdsCut(row: seq<Timer>, k: nat)
    requires k < |row|
    ensures Ids(row[..k] + row[k + 1..]) == Ids(row)[..k] + Ids(row)[k + 1..]
  {}

  lemma {:induction false} RemoveAt(row: seq<Timer>, k: nat)
    requires Unique(row) && k < |row|
    ensures Remove(row, row[k].id) == row[..k] + row[k + 1..]
  {
    if k > 0 {
      RemoveAt(row[1..], k - 1);
      assert row[..k] + row[k + 1..] == [row[0]] + (row[1..][..k - 1] + row[1..][k..]);
    }
  }

  lemma StopFacts(s: Timers, id: nat)
    requires Inv(s)
    ensures Inv(TimerSpec.Stop(s, id)) && Sorted(s.list) && Unique(s.list)
    ensures forall x :: x in Remove(s.list, id) ==> x in s.list && x.id != id
    ensures forall i :: Active(Remove(s.list, id), i) <==> i != id && Active(s.list, i)
    ensures !Active(s.list, id) ==> Remove(s.list, id) == s.list
  {
    StopInv(s, id);
    RemoveFacts(s.list, id);
    if !Active(s.list, id) { RemoveAbsent(s.list, id); }
  }

  lemma {:induction false} RowAll(s: seq<Timer>)
    requires forall x :: x in s ==> x.height >= 1
    ensures Row(s, 1) == s
  {
    if s != [] {
      RowAll(s[1..]);
      ConsTail(s);
      RowCons(s[0], s[1..], 1);
    }
  }

  /** The last row is the whole list, and its first timer tells whether any is due. */
  lemma FirstKnown(s: Timers)
    requires InvEarly(s, 1)
    ensures s.levels > 0 && Row(s.list, 1) == s.list
    ensures s.list != [] ==> s.list[0] in s.list && (IsDue(Tick(s.now), Tick(s.list[0].deadline)) <==> HasDue(s))
  {
    forall x | x in s.list
      ensures x.height >= 1 && (IsDue(Tick(s.now), Tick(x.deadline)) <==> x.deadline <= s.now)
    {
      assert Fits(s, x, 1);
      WrapDue(s.now, x.deadline);
    }
    RowAll(s.list);
  }

  /** What one round of a check needs of the first timer. */
  lemma FirstFacts(s: Timers)
    requires InvEarly(s, 1) && HasDue(s)
    ensures var x, rest := s.list[0], s.list[1..];
            && x in s.list && Row(s.list, 1) == s.list && Remove(s.list, x.id) == rest && InvEarly(s.(list := rest), 1)
            && Sorted(s.list) && Unique(s.list) && s.levels > 0
            && x.delay < HALF && (x.periodic ==> x.delay > 0) && (forall y :: y in rest ==> y in s.list && y.id != x.id)
            && (forall i :: Active(rest, i) <==> i != x.id && Active(s.list, i))
  {
    FirstKnown(s);
    TailSorted(s.list);
    ConsTail(s.list);
    assert Fits(s, s.list[0], 1);
    forall y | y in s.list[1..]
      ensures Fits(s.(list := s.list[1..]), y, 1)
    {
      assert Fits(s, y, 1);
    }
  }
}
