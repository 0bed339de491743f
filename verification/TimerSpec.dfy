/** Timers (timer.c, clock.c) as one list in order of expiry, with absolute deadlines that
    the code sees only modulo 2^32. */
module TimerSpec {
  import opened Arith

  const TICKS: nat := 0x1_0000_0000
  const HALF: nat := 0x7FFF_FFFF        // RT_TICK_MAX / 2

  /** A started timer: `delay` is init_tick, `height` the number of rows it is in. */
  datatype Timer = Timer(id: nat, deadline: nat, delay: nat, periodic: bool, height: nat)

  /** Active timers in order of expiry, in a list of `levels` rows, at tick `now`. */
  datatype Timers = Timers(now: nat, list: seq<Timer>, random: nat, levels: nat)

  function Tick(n: int): nat { n % TICKS }

  /** Unsigned 32-bit subtraction. */
  function Minus(a: nat, b: nat): nat { (a - b) % TICKS }

  /** How the code tells that the timer with timeout `t` expires after `timeout`. */
  predicate Later(t: nat, timeout: nat) { Minus(t, timeout) != 0 && Minus(t, timeout) < HALF }

  /** How the code tells that a timeout is due. */
  predicate IsDue(tick: nat, timeout: nat) { Minus(tick, timeout) < HALF }

  /** Within half the tick range the wrapped comparison is the order of the deadlines. */
  lemma WrapLater(a: nat, b: nat)
    requires -(HALF as int) <= a - b < HALF
    ensures Later(Tick(a), Tick(b)) <==> a > b
  {
    WrapMinus(a, b);
  }

  lemma WrapDue(now: nat, deadline: nat)
    requires now - 1 <= deadline < now + HALF
    ensures IsDue(Tick(now), Tick(deadline)) <==> deadline <= now
  {
    WrapMinus(now, deadline);
  }

  lemma WrapMinus(a: nat, b: nat)
    requires -(TICKS as int) < a - b < TICKS
    ensures Minus(Tick(a), Tick(b)) == if a >= b then a - b else a - b + TICKS
  {
    var x, y := a / TICKS, b / TICKS;
    assert a == x * TICKS + Tick(a) && b == y * TICKS + Tick(b);
    var d := Tick(a) - Tick(b);
    assert a - b == (x - y) * TICKS + d;
    assert -1 <= x - y <= 1;
    if x - y == 1 { assert d == a - b - TICKS; }
    if x - y == -1 { assert d == a - b + TICKS; }
  }

  // ---- one sorted list ----

  ghost predicate Sorted(s: seq<Timer>) {
    forall i, j :: 0 <= i < j < |s| ==> s[i].deadline <= s[j].deadline
  }

  ghost predicate Unique(s: seq<Timer>) {
    forall i, j :: 0 <= i < j < |s| ==> s[i].id != s[j].id
  }

  ghost predicate Active(s: seq<Timer>, id: nat) { exists x :: x in s && x.id == id }

  /** Stable insertion: behind every timer that expires no later. */
  function Insert(s: seq<Timer>, x: Timer): seq<Timer> {
    if s == [] || x.deadline < s[0].deadline then [x] + s else [s[0]] + Insert(s[1..], x)
  }

  function Remove(s: seq<Timer>, id: nat): seq<Timer> {
    if s == [] then [] else if s[0].id == id then s[1..] else [s[0]] + Remove(s[1..], id)
  }

  /** The timers of at least a given height: one row of the skip list. */
  function Row(s: seq<Timer>, height: int): seq<Timer> {
    if s == [] then [] else (if s[0].height >= height then [s[0]] else []) + Row(s[1..], height)
  }

  /** How many timers expire no later than `deadline`. */
  function Rank(s: seq<Timer>, deadline: nat): (k: nat)
    ensures k <= |s| && (k < |s| ==> s[k].deadline > deadline)
    ensures forall i :: 0 <= i < k ==> s[i].deadline <= deadline
  {
    if s == [] || deadline < s[0].deadline then 0 else 1 + Rank(s[1..], deadline)
  }

  // ---- unfolding one element ----

  lemma ConsTail(s: seq<Timer>)
    requires s != []
    ensures s == [s[0]] + s[1..] && forall y :: y in s <==> y == s[0] || y in s[1..]
  {}

  lemma InsertCons(y: Timer, s: seq<Timer>, x: Timer)
    ensures Insert([y] + s, x) == if x.deadline < y.deadline then [x] + ([y] + s) else [y] + Insert(s, x)
  {
    assert ([y] + s)[1..] == s;
  }

  lemma RemoveCons(y: Timer, s: seq<Timer>, id: nat)
    ensures Remove([y] + s, id) == if y.id == id then s else [y] + Remove(s, id)
  {
    assert ([y] + s)[1..] == s;
  }

  lemma RowCons(y: Timer, s: seq<Timer>, height: int)
    ensures Row([y] + s, height) == if y.height >= height then [y] + Row(s, height) else Row(s, height)
  {
    assert ([y] + s)[1..] == s;
  }

  lemma TailSorted(s: seq<Timer>)
    requires Sorted(s) && Unique(s) && s != []
    ensures Sorted(s[1..]) && Unique(s[1..])
    ensures forall y :: y in s[1..] ==> s[0].deadline <= y.deadline && s[0].id != y.id
  {}

  lemma ConsSorted(x: Timer, s: seq<Timer>)
    requires Sorted(s) && Unique(s) && forall y :: y in s ==> x.deadline <= y.deadline && x.id != y.id
    ensures Sorted([x] + s) && Unique([x] + s)
  {
    assert forall i :: 0 <= i < |s| ==> s[i] in s;
  }

  // ---- stable insertion and removal ----

  /** The new timer stands behind exactly those that expire no later. */
  lemma {:induction false} InsertAt(s: seq<Timer>, x: Timer)
    ensures Insert(s, x) == s[..Rank(s, x.deadline)] + [x] + s[Rank(s, x.deadline)..]
  {
    if s != [] && x.deadline >= s[0].deadline {
      InsertAt(s[1..], x);
      var k := Rank(s[1..], x.deadline);
      assert s[..k + 1] == [s[0]] + s[1..][..k] && s[1..][k..] == s[k + 1..];
    }
  }

  lemma InsertMembers(s: seq<Timer>, x: Timer)
    ensures forall y :: y in Insert(s, x) <==> y == x || y in s
    ensures |Insert(s, x)| == |s| + 1
  {
    InsertAt(s, x);
    var k := Rank(s, x.deadline);
    assert s == s[..k] + s[k..];
  }

  lemma {:induction false} InsertSorted(s: seq<Timer>, x: Timer)
    requires Sorted(s) && Unique(s) && !Active(s, x.id)
    ensures Sorted(Insert(s, x)) && Unique(Insert(s, x))
  {
    if s == [] || x.deadline < s[0].deadline {
      assert forall y :: y in s ==> x.deadline <= y.deadline;
      ConsSorted(x, s);
    } else {
      TailSorted(s);
      InsertSorted(s[1..], x);
      InsertMembers(s[1..], x);
      assert s[0] in s;
      ConsSorted(s[0], Insert(s[1..], x));
    }
  }

  lemma {:induction false} RemoveFacts(s: seq<Timer>, id: nat)
    requires Sorted(s) && Unique(s)
    ensures Sorted(Remove(s, id)) && Unique(Remove(s, id))
    ensures forall y :: y in Remove(s, id) <==> y in s && y.id != id
  {
    if s != [] {
      TailSorted(s);
      ConsTail(s);
      hide Sorted, Unique;
      RemoveFacts(s[1..], id);
      if s[0].id != id { ConsSorted(s[0], Remove(s[1..], id)); }
    }
  }

  // ---- rows ----

  lemma {:induction false} RowFacts(s: seq<Timer>, height: int)
    ensures forall y :: y in Row(s, height) <==> y in s && y.height >= height
  {
    if s != [] {
      RowFacts(s[1..], height);
      ConsTail(s);
      RowCons(s[0], s[1..], height);
    }
  }

  lemma {:induction false} RowSorted(s: seq<Timer>, height: int)
    requires Sorted(s) && Unique(s)
    ensures Sorted(Row(s, height)) && Unique(Row(s, height))
  {
    if s != [] {
      TailSorted(s);
      ConsTail(s);
      RowSorted(s[1..], height);
      RowFacts(s[1..], height);
      RowCons(s[0], s[1..], height);
      ConsSorted(s[0], Row(s[1..], height));
    }
  }

  /** Every row is the taller part of the row below. */
  lemma {:induction false} RowOfRow(s: seq<Timer>, low: int, high: int)
    requires low <= high
    ensures Row(Row(s, low), high) == Row(s, high)
  {
    if s != [] {
      RowOfRow(s[1..], low, high);
      ConsTail(s);
      RowCons(s[0], s[1..], low);
      RowCons(s[0], s[1..], high);
      RowCons(s[0], Row(s[1..], low), high);
    }
  }

  /** Inserting into the whole list inserts into each row the timer reaches. */
  lemma {:induction false} RowInsert(s: seq<Timer>, x: Timer, height: int)
    requires Sorted(s)
    ensures Row(Insert(s, x), height) == if x.height >= height then Insert(Row(s, height), x) else Row(s, height)
  {
    if s == [] || x.deadline < s[0].deadline {
      RowInsertFirst(s, x, height);
    } else {
      assert Sorted(s[1..]);
      hide Sorted;
      RowInsert(s[1..], x, height);
      RowCons(s[0], Insert(s[1..], x), height);
      ConsTail(s);
      RowCons(s[0], s[1..], height);
      InsertCons(s[0], Row(s[1..], height), x);
    }
  }

  lemma RowInsertFirst(s: seq<Timer>, x: Timer, height: int)
    requires Sorted(s) && (s == [] || x.deadline < s[0].deadline)
    ensures Row([x] + s, height) == if x.height >= height then Insert(Row(s, height), x) else Row(s, height)
  {
    RowCons(x, s, height);
    RowFacts(s, height);
    var r := Row(s, height);
    if r != [] { assert r[0] in r && r[0] in s; }
  }

  /** Removing from the whole list removes from each row. */
  lemma {:induction false} RowRemove(s: seq<Timer>, id: nat, height: int)
    requires Unique(s)
    ensures Row(Remove(s, id), height) == Remove(Row(s, height), id)
  {
    if s != [] {
      RowRemove(s[1..], id, height);
      ConsTail(s);
      RowCons(s[0], s[1..], height);
      RowCons(s[0], Remove(s[1..], id), height);
      RemoveCons(s[0], Row(s[1..], height), id);
      if s[0].id == id {
        RowFacts(s[1..], height);
        RemoveAbsent(Row(s[1..], height), id);
      }
    }
  }

  lemma {:induction false} RemoveAbsent(s: seq<Timer>, id: nat)
    requires forall y :: y in s ==> y.id != id
    ensures Remove(s, id) == s
  {
    if s != [] {
      RemoveAbsent(s[1..], id);
    }
  }

  // ---- starting, stopping and checking ----

  function Zeros(n: nat, most: nat): (k: nat)
    ensures k <= most
  {
    if most == 0 || n % 4 != 0 then 0 else 1 + Zeros(n / 4, most - 1)
  }

  /** The number of rows the `random`-th started timer is put in. */
  function Height(random: nat, levels: nat): (h: nat)
    requires levels > 0
    ensures 1 <= h <= levels
  {
    1 + Zeros(random, levels - 1)
  }

  function Pow4(k: nat): (n: nat)
    ensures n > 0
  {
    if k == 0 then 1 else 4 * Pow4(k - 1)
  }

  lemma {:induction false} ZerosIs(n: nat, most: nat, k: nat)
    requires k <= most
    ensures Zeros(n, most) >= k <==> n % Pow4(k) == 0
  {
    if k > 0 {
      Quarter(n, Pow4(k - 1));
      if n % 4 == 0 { ZerosIs(n / 4, most - 1, k - 1); }
    }
  }

  lemma Quarter(n: nat, p: nat)
    requires p > 0
    ensures n % (4 * p) == 4 * (n / 4 % p) + n % 4
  {
    var q, r, low := n / 4 / p, n / 4 % p, n % 4;
    var m := q * p;
    assert n / 4 == m + r && n == 4 * (n / 4) + low;
    assert q * (4 * p) == 4 * m;
    DivModUnique(n, 4 * p, q, 4 * r + low);
  }

  /** A timer reaches one more row for every two zero bits at the end of its number. */
  lemma HeightIs(random: nat, levels: nat, h: nat)
    requires 1 <= h <= levels
    ensures Height(random, levels) >= h <==> random % Pow4(h - 1) == 0
  {
    ZerosIs(random, levels - 1, h - 1);
  }

  function Next(random: nat): nat { (random + 1) % TICKS }

  /** The timer that rt_timer_start builds. */
  function New(s: Timers, id: nat, delay: nat, periodic: bool): Timer
    requires s.levels > 0
  {
    Timer(id, s.now + delay, delay, periodic, Height(Next(s.random), s.levels))
  }

  /** rt_timer_start of a timer that is not active. */
  function Start(s: Timers, id: nat, delay: nat, periodic: bool): Timers
    requires s.levels > 0
  {
    s.(list := Insert(s.list, New(s, id, delay, periodic)), random := Next(s.random))
  }

  function Stop(s: Timers, id: nat): Timers { s.(list := Remove(s.list, id)) }

  ghost predicate Fits(s: Timers, x: Timer, early: nat) {
    && s.now <= x.deadline + early && x.deadline < s.now + HALF && x.delay < HALF && 1 <= x.height <= s.levels
    && (x.periodic ==> x.delay > 0)
  }

  /** Timers lie in the half of the tick range from `early` ticks before now. */
  ghost predicate InvEarly(s: Timers, early: nat) {
    s.levels > 0 && Sorted(s.list) && Unique(s.list) && forall x :: x in s.list ==> Fits(s, x, early)
  }

  ghost predicate Inv(s: Timers) { InvEarly(s, 0) }

  predicate HasDue(s: Timers) { s.list != [] && s.list[0].deadline <= s.now }

  /** One round of rt_timer_check: takes the first timer off, and starts it again if periodic. */
  function Fire(s: Timers): Timers
    requires s.list != [] && s.levels > 0
  {
    var t, rest := s.list[0], s.(list := s.list[1..]);
    if t.periodic then Start(rest, t.id, t.delay, true) else rest
  }

  /** `x` is the next round of the timer `y` that fired at `now`. */
  predicate Again(now: nat, y: Timer, x: Timer) {
    y.periodic && x.periodic && x.id == y.id && x.delay == y.delay && x.deadline == now + y.delay
  }

  lemma FireFacts(s: Timers)
    requires InvEarly(s, 1) && HasDue(s)
    ensures InvEarly(Fire(s), 1) && Fire(s).now == s.now && Fire(s).levels == s.levels
    ensures Rank(Fire(s).list, s.now) == Rank(s.list, s.now) - 1
    ensures forall x :: x in Fire(s).list ==> x in s.list[1..] || (x.deadline > s.now && Again(s.now, s.list[0], x))
    ensures forall x :: x in s.list[1..] ==> x in Fire(s).list
    ensures s.list[0].periodic ==> exists x :: x in Fire(s).list && x.deadline > s.now && Again(s.now, s.list[0], x)
  {
    var t, rest := s.list[0], s.(list := s.list[1..]);
    TailSorted(s.list);
    ConsTail(s.list);
    assert Fits(s, t, 1);
    if t.periodic {
      var x := New(rest, t.id, t.delay, true);
      InsertSorted(rest.list, x);
      InsertMembers(rest.list, x);
      RankInsert(rest.list, x, s.now);
      assert Fits(s, x, 1);
    }
  }

  lemma {:induction false} RankInsert(s: seq<Timer>, x: Timer, now: nat)
    requires x.deadline > now
    ensures Rank(Insert(s, x), now) == Rank(s, now)
  {
    if s != [] && x.deadline >= s[0].deadline && now >= s[0].deadline {
      RankInsert(s[1..], x, now);
      InsertCons(s[0], s[1..], x);
      assert ([s[0]] + Insert(s[1..], x))[1..] == Insert(s[1..], x);
    }
  }

  /** rt_timer_check. */
  ghost function Check(s: Timers): Timers
    requires InvEarly(s, 1)
    decreases Rank(s.list, s.now)
  {
    if !HasDue(s) then s else
      FireFacts(s);
      Check(Fire(s))
  }

  /** The timers whose functions rt_timer_check calls, in order. */
  ghost function Fired(s: Timers): seq<Timer>
    requires InvEarly(s, 1)
    decreases Rank(s.list, s.now)
  {
    if !HasDue(s) then [] else
      FireFacts(s);
      [s.list[0]] + Fired(Fire(s))
  }

  /** A check fires exactly the due timers, in order of expiry and then of starting. */
  lemma {:induction false} FiredDue(s: Timers)
    requires InvEarly(s, 1)
    ensures Fired(s) == s.list[..Rank(s.list, s.now)]
    decreases Rank(s.list, s.now)
  {
    if HasDue(s) {
      hide Sorted, Unique, Fire;
      FireFacts(s);
      FirstDue(s, Rank(s.list, s.now));
      FiredDue(Fire(s));
    } else {
      NoneDue(s);
    }
  }

  /** It leaves nothing due. */
  lemma {:induction false} CheckInv(s: Timers)
    requires InvEarly(s, 1)
    ensures Inv(Check(s)) && Check(s).now == s.now && Check(s).levels == s.levels
    ensures forall x :: x in Check(s).list ==> x.deadline > s.now
    decreases Rank(s.list, s.now)
  {
    hide Sorted, Unique, Fits;
    if HasDue(s) {
      FireFacts(s);
      CheckInv(Fire(s));
    } else {
      NoneDue(s);
    }
  }

  /** It leaves exactly the timers that are not due, and the periodic ones that were due with
      their next deadline. */
  lemma {:induction false} CheckLeaves(s: Timers)
    requires InvEarly(s, 1)
    ensures forall x :: x in s.list && x.deadline > s.now ==> x in Check(s).list
    ensures forall y :: y in s.list && y.deadline <= s.now && y.periodic ==> Follows(Check(s), y)
    ensures forall x :: x in Check(s).list ==> (x in s.list && x.deadline > s.now) || Restarted(s, x)
    decreases Rank(s.list, s.now)
  {
    hide InvEarly, Fire, Restarted, Follows, Again;
    CheckInv(s);
    if HasDue(s) {
      FireFacts(s);
      CheckLeaves(Fire(s));
      ConsTail(s.list);
      forall y | y in s.list && y.deadline <= s.now && y.periodic
        ensures Follows(Check(s), y)
      {
        if y == s.list[0] { FirstFollows(s); }
      }
      forall x | x in Check(s).list
        ensures (x in s.list && x.deadline > s.now) || Restarted(s, x)
      {
        RestartedBefore(s, x);
      }
    }
  }

  lemma FirstFollows(s: Timers)
    requires InvEarly(s, 1) && HasDue(s) && s.list[0].periodic
    requires forall x :: x in Fire(s).list && x.deadline > s.now ==> x in Check(s).list
    ensures Follows(Check(s), s.list[0])
  {
    hide InvEarly, Fire, Check, Again;
    FireFacts(s);
    CheckInv(s);
    var x :| x in Fire(s).list && x.deadline > s.now && Again(s.now, s.list[0], x);
    assert x in Check(s).list;
  }

  lemma RestartedBefore(s: Timers, x: Timer)
    requires InvEarly(s, 1) && HasDue(s) && x.deadline > s.now && (x in Fire(s).list || Restarted(Fire(s), x))
    ensures x in s.list || Restarted(s, x)
  {
    hide InvEarly, Fire, Again;
    FireFacts(s);
    ConsTail(s.list);
    assert s.list[0] in s.list;
    if Restarted(Fire(s), x) {
      var y :| y in Fire(s).list && y.deadline <= s.now && Again(s.now, y, x);
      assert y in s.list;
    }
  }

  /** `x` is the next round of a timer that was due. */
  ghost predicate Restarted(s: Timers, x: Timer) {
    exists y :: y in s.list && y.deadline <= s.now && Again(s.now, y, x)
  }

  /** The next round of `y` is in the list. */
  ghost predicate Follows(s: Timers, y: Timer) {
    exists x :: x in s.list && Again(s.now, y, x)
  }

  lemma NoneDue(s: Timers)
    requires InvEarly(s, 1) && !HasDue(s)
    ensures Rank(s.list, s.now) == 0 && Inv(s) && forall x :: x in s.list ==> x.deadline > s.now
  {}

  /** The due timers of one round later are the due timers but the first. */
  lemma FirstDue(s: Timers, k: nat)
    requires InvEarly(s, 1) && HasDue(s) && k == Rank(s.list, s.now)
    ensures 0 < k <= |Fire(s).list| + 1 && s.list[..k] == [s.list[0]] + Fire(s).list[..k - 1]
  {
    hide Sorted, Unique, Fits, Insert;
    var t, rest := s.list[0], s.list[1..];
    assert k > 0 && forall i :: 0 <= i < k - 1 ==> rest[i].deadline <= s.now;
    assert s.list[..k] == [t] + rest[..k - 1];
    hide Rank;
    if t.periodic { PrefixInsert(rest, New(s.(list := rest), t.id, t.delay, true), k - 1); }
  }

  lemma {:induction false} PrefixInsert(s: seq<Timer>, x: Timer, k: nat)
    requires k <= |s| && forall i :: 0 <= i < k ==> s[i].deadline <= x.deadline
    ensures |Insert(s, x)| >= k && Insert(s, x)[..k] == s[..k]
  {
    if k > 0 {
      PrefixInsert(s[1..], x, k - 1);
      assert s[..k] == [s[0]] + s[1..][..k - 1];
      assert Insert(s, x)[..k] == [s[0]] + Insert(s[1..], x)[..k - 1];
    }
  }

  // ---- runs ----

  datatype Step = StartStep(id: nat, delay: nat, periodic: bool) | StopStep(id: nat) | TickStep

  /** What the code asserts of a delay; a periodic timer without one would never let a check end. */
  predicate Enabled(s: Step) {
    s.StartStep? ==> s.delay < HALF && (s.periodic ==> s.delay > 0)
  }

  /** rt_timer_start and rt_timer_stop refuse a timer in the wrong state; a tick is
      rt_tick_increase. */
  ghost function Do(s: Timers, step: Step): Timers
    requires Inv(s) && Enabled(step)
  {
    match step
    case StartStep(id, delay, periodic) => if Active(s.list, id) then s else Start(s, id, delay, periodic)
    case StopStep(id) => Stop(s, id)
    case TickStep => TickEarly(s); Check(s.(now := s.now + 1))
  }

  lemma TickEarly(s: Timers)
    requires Inv(s)
    ensures InvEarly(s.(now := s.now + 1), 1)
  {
    var s1 := s.(now := s.now + 1);
    forall x | x in s.list
      ensures Fits(s1, x, 1)
    {
      assert Fits(s, x, 0);
    }
  }

  lemma StartInv(s: Timers, id: nat, delay: nat, periodic: bool)
    requires Inv(s) && !Active(s.list, id) && delay < HALF && (periodic ==> delay > 0)
    ensures Inv(Start(s, id, delay, periodic))
    ensures forall x :: x in Start(s, id, delay, periodic).list <==> x == New(s, id, delay, periodic) || x in s.list
  {
    var x, s1 := New(s, id, delay, periodic), Start(s, id, delay, periodic);
    InsertSorted(s.list, x);
    InsertMembers(s.list, x);
    forall y | y in s1.list
      ensures Fits(s1, y, 0)
    {
      assert y != x ==> Fits(s, y, 0);
    }
  }

  lemma StopInv(s: Timers, id: nat)
    requires Inv(s)
    ensures Inv(Stop(s, id))
  {
    RemoveFacts(s.list, id);
    forall y | y in Stop(s, id).list
      ensures Fits(Stop(s, id), y, 0)
    {
      assert Fits(s, y, 0);
    }
  }

  lemma StepInv(s: Timers, step: Step)
    requires Inv(s) && Enabled(step)
    ensures Inv(Do(s, step)) && Do(s, step).now == s.now + (if step.TickStep? then 1 else 0)
  {
    hide InvEarly, Check, Active, Insert, Remove;
    match step
    case StartStep(id, delay, periodic) => if !Active(s.list, id) { StartInv(s, id, delay, periodic); }
    case StopStep(id) => StopInv(s, id);
    case TickStep => TickEarly(s); CheckInv(s.(now := s.now + 1));
  }

  ghost predicate Moves(ts: seq<Timers>, ss: seq<Step>, i: int)
    requires |ts| == |ss| + 1 && 0 <= i < |ss|
  {
    Enabled(ss[i]) && (Inv(ts[i]) ==> ts[i + 1] == Do(ts[i], ss[i]))
  }

  ghost predicate IsRun(ts: seq<Timers>, ss: seq<Step>) {
    && |ts| == |ss| + 1 && ts[0].levels > 0 && ts[0].list == []
    && forall i {:trigger Moves(ts, ss, i)} :: 0 <= i < |ss| ==> Moves(ts, ss, i)
  }

  /** In every run the list stays sorted, without duplicates, and within the half of the
      tick range in which the wrapped comparisons are right. */
  lemma {:induction false} RunInv(ts: seq<Timers>, ss: seq<Step>, n: nat)
    requires IsRun(ts, ss) && n < |ts|
    ensures Inv(ts[n])
  {
    hide Do;
    if n > 0 {
      RunInv(ts, ss, n - 1);
      assert Moves(ts, ss, n - 1);
      StepInv(ts[n - 1], ss[n - 1]);
    }
  }

  /** The timers whose functions a tick calls. */
  ghost function FiredAt(s: Timers): seq<Timer>
    requires Inv(s)
  {
    TickEarly(s);
    Fired(s.(now := s.now + 1))
  }

  lemma TickFires(s: Timers, x: Timer)
    requires Inv(s) && x in s.list
    ensures x in FiredAt(s) <==> x.deadline <= s.now + 1
    ensures forall y :: y in FiredAt(s) && y.id == x.id ==> y == x
  {
    hide Fired, Fits;
    TickEarly(s);
    FiredDue(s.(now := s.now + 1));
    DuePrefix(s.list, s.now + 1, x);
  }

  lemma DuePrefix(s: seq<Timer>, now: nat, x: Timer)
    requires Sorted(s) && Unique(s) && x in s
    ensures x in s[..Rank(s, now)] <==> x.deadline <= now
    ensures forall y :: y in s[..Rank(s, now)] && y.id == x.id ==> y == x
  {
    var k := Rank(s, now);
    var i :| 0 <= i < |s| && s[i] == x;
    if i < k { assert s[..k][i] == x; }
    if k < i { assert s[k].deadline <= s[i].deadline; }
    forall y | y in s[..k]
      ensures y.deadline <= now && (y.id == x.id ==> y == x)
    {
      var j :| 0 <= j < k && s[j] == y;
      if y.id == x.id { assert i == j; }
    }
  }

  /** The tick at which a timer started at `start` with `delay` must fire; a zero delay
      means the next tick. */
  function Expiry(start: nat, delay: nat): nat { if delay == 0 then start + 1 else start + delay }

  lemma StartIs(s: Timers, step: Step)
    requires Inv(s) && Enabled(step) && step.StartStep? && !Active(s.list, step.id)
    ensures Do(s, step) == Start(s, step.id, step.delay, step.periodic)
  {}

  /** When a timer that was started at `start` fires: a periodic one at every multiple of its
      delay, another one once. */
  predicate Fires(start: nat, step: Step, tick: nat)
    requires step.StartStep? && (step.periodic ==> step.delay > 0)
  {
    if step.periodic then tick > start && (tick - start) % step.delay == 0 else tick == Expiry(start, step.delay)
  }

  /** The first multiple of the delay after `now`. */
  function NextDue(start: nat, delay: nat, now: nat): nat
    requires delay > 0 && start <= now
  {
    start + (now - start) / delay * delay + delay
  }

  lemma NextTick(start: nat, delay: nat, now: nat)
    requires delay > 0 && start <= now
    ensures var due := NextDue(start, delay, now);
            && now < due <= now + delay
            && ((now + 1 - start) % delay == 0 <==> due == now + 1)
            && NextDue(start, delay, now + 1) == if due == now + 1 then due + delay else due
  {
    var q, r := (now - start) / delay, (now - start) % delay;
    assert now - start == q * delay + r;
    if r + 1 == delay {
      Distribute(q + 1, 1, delay);
      DivModUnique(now + 1 - start, delay, q + 1, 0);
    } else {
      DivModUnique(now + 1 - start, delay, q, r + 1);
    }
  }

  /** The list after the start: a periodic timer with its next deadline; another one until it
      has fired and not any more. */
  ghost predicate Running(s: Timers, start: nat, step: Step)
    requires step.StartStep? && (step.periodic ==> step.delay > 0) && start <= s.now
  {
    if step.periodic then Round(s, step, NextDue(start, step.delay, s.now))
    else if s.now < Expiry(start, step.delay) then Round(s, step, start + step.delay)
    else !Active(s.list, step.id)
  }

  ghost predicate Round(s: Timers, step: Step, deadline: nat)
    requires step.StartStep?
  {
    exists x {:trigger x in s.list} :: x in s.list && IsRound(x, step, deadline)
  }

  predicate IsRound(x: Timer, step: Step, deadline: nat)
    requires step.StartStep?
  {
    x.id == step.id && x.periodic == step.periodic && x.delay == step.delay && x.deadline == deadline
  }

  lemma RunningStarts(s: Timers, step: Step)
    requires Inv(s) && Enabled(step) && step.StartStep? && !Active(s.list, step.id)
    ensures Do(s, step).now == s.now && Running(Do(s, step), s.now, step)
  {
    hide Inv, Active;
    StartIs(s, step);
    StartInv(s, step.id, step.delay, step.periodic);
    var x := New(s, step.id, step.delay, step.periodic);
    assert x in Do(s, step).list && IsRound(x, step, s.now + step.delay);
  }

  /** A step other than a tick leaves it alone; it is not started while it is active. */
  lemma RunningStays(s: Timers, start: nat, step: Step, next: Step)
    requires Inv(s) && Enabled(step) && step.StartStep? && start <= s.now && Running(s, start, step)
    requires Enabled(next) && !next.TickStep? && next != StopStep(step.id)
    requires next.StartStep? && next.id == step.id && !step.periodic ==> s.now < Expiry(start, step.delay)
    ensures Do(s, next).now == s.now && Running(Do(s, next), start, step)
  {
    match next
    case StartStep(id, delay, periodic) => if !Active(s.list, id) { StartInv(s, id, delay, periodic); }
    case StopStep(id) => RemoveFacts(s.list, id);
  }

  /** A tick fires it if and only if it is its time, and brings it to its next round. */
  lemma RunningTick(s: Timers, start: nat, step: Step)
    requires Inv(s) && Enabled(step) && step.StartStep? && start <= s.now && Running(s, start, step)
    ensures Do(s, TickStep).now == s.now + 1 && Running(Do(s, TickStep), start, step)
    ensures (exists y :: y in FiredAt(s) && y.id == step.id) <==> Fires(start, step, s.now + 1)
  {
    hide Inv, InvEarly, Fits, FiredAt, Check, Active, Again;
    StepInv(s, TickStep);
    if step.periodic {
      RoundTick(s, step, NextDue(start, step.delay, s.now));
      NextTick(start, step.delay, s.now);
    } else if s.now < Expiry(start, step.delay) {
      RoundTick(s, step, start + step.delay);
    } else {
      GoneTick(s, step.id);
    }
  }

  /** One tick of a timer in the list. */
  lemma RoundTick(s: Timers, step: Step, deadline: nat)
    requires Inv(s) && Enabled(step) && step.StartStep? && Round(s, step, deadline)
    ensures (exists y :: y in FiredAt(s) && y.id == step.id) <==> deadline <= s.now + 1
    ensures var s' := Do(s, TickStep);
            if deadline > s.now + 1 then Round(s', step, deadline)
            else if step.periodic then Round(s', step, s.now + 1 + step.delay)
            else !Active(s'.list, step.id)
  {
    hide Inv, InvEarly, FiredAt, Check, Again, Fits;
    var x :| x in s.list && IsRound(x, step, deadline);
    TickFires(s, x);
    TickLeaves(s, x);
    var s' := Do(s, TickStep);
    if deadline <= s.now + 1 && step.periodic {
      var x' :| x' in s'.list && Again(s.now + 1, x, x');
      NextRound(s.now + 1, x, x', step, deadline);
    }
  }

  lemma NextRound(now: nat, x: Timer, x': Timer, step: Step, deadline: nat)
    requires step.StartStep? && IsRound(x, step, deadline) && Again(now, x, x')
    ensures IsRound(x', step, now + step.delay)
  {}

  lemma TickLeaves(s: Timers, x: Timer)
    requires Inv(s) && x in s.list
    ensures var s' := Do(s, TickStep);
            if x.deadline > s.now + 1 then x in s'.list
            else if x.periodic then exists x' :: x' in s'.list && Again(s.now + 1, x, x')
            else !Active(s'.list, x.id)
  {
    OnlyOne(s.list, x);
    TickEarly(s);
    hide InvEarly, Check, Fits, Unique, Restarted, Follows;
    var s1 := s.(now := s.now + 1);
    CheckLeaves(s1);
    CheckInv(s1);
    if x.deadline <= s1.now {
      if x.periodic {
        assert Follows(Check(s1), x);
        FollowsIs(Check(s1), x);
      } else {
        forall z | z in Check(s1).list
          ensures z.id != x.id
        {
          if Restarted(s1, z) { RestartedId(s1, z, x); }
        }
      }
    }
  }

  lemma FollowsIs(s: Timers, y: Timer)
    requires Follows(s, y)
    ensures exists x :: x in s.list && Again(s.now, y, x)
  {}

  lemma RestartedId(s: Timers, z: Timer, x: Timer)
    requires Restarted(s, z) && !x.periodic && forall y :: y in s.list && y.id == x.id ==> y == x
    ensures z.id != x.id
  {}

  lemma OnlyOne(s: seq<Timer>, x: Timer)
    requires Unique(s) && x in s
    ensures forall y :: y in s && y.id == x.id ==> y == x
  {}

  /** A timer that is not in the list does not fire and does not come back. */
  lemma GoneTick(s: Timers, id: nat)
    requires Inv(s) && !Active(s.list, id)
    ensures !exists y :: y in FiredAt(s) && y.id == id
    ensures !Active(Do(s, TickStep).list, id)
  {
    TickEarly(s);
    var s1 := s.(now := s.now + 1);
    FiredDue(s1);
    CheckLeaves(s1);
  }

  /** The timer started by step `i`, in every later state. */
  lemma {:induction false} RunningAt(ts: seq<Timers>, ss: seq<Step>, i: nat, j: nat)
    requires IsRun(ts, ss) && i < j < |ts| && ss[i].StartStep? && !Active(ts[i].list, ss[i].id)
    requires Undisturbed(ts, ss, i, j)
    ensures Inv(ts[j]) && Enabled(ss[i]) && ts[i].now <= ts[j].now && Running(ts[j], ts[i].now, ss[i])
  {
    hide Inv, Do, Active, Running;
    RunInv(ts, ss, j - 1);
    RunInv(ts, ss, j);
    assert Moves(ts, ss, i) && Moves(ts, ss, j - 1);
    if j == i + 1 {
      RunningStarts(ts[i], ss[i]);
    } else {
      RunningAt(ts, ss, i, j - 1);
      if ss[j - 1].TickStep? {
        RunningTick(ts[j - 1], ts[i].now, ss[i]);
      } else {
        assert Undisturbed(ts, ss, i, j) && i < j - 1 < j;
        RunningStays(ts[j - 1], ts[i].now, ss[i], ss[j - 1]);
      }
    }
  }

  /** Between steps `i` and `j` the timer is not stopped and, once it has fired for good, not
      started again; before that a start is refused. */
  ghost predicate Undisturbed(ts: seq<Timers>, ss: seq<Step>, i: nat, j: nat)
    requires i < j <= |ss| == |ts| - 1 && ss[i].StartStep?
  {
    forall k {:trigger ss[k]} :: i < k < j ==>
      && ss[k] != StopStep(ss[i].id)
      && (ss[k].StartStep? && ss[k].id == ss[i].id && !ss[i].periodic ==> ts[k].now < Expiry(ts[i].now, ss[i].delay))
  }

  /** Exact expiry over whole runs: started at tick `s` with delay `d`, a periodic timer fires
      at the ticks s + k * d for k = 1, 2, ... and at no other, until it is stopped; another
      one fires at s + d, or s + 1 for a zero delay, and never again until it is started again. */
  lemma ExactExpiry(ts: seq<Timers>, ss: seq<Step>, i: nat, j: nat)
    requires IsRun(ts, ss) && i < j < |ss| && ss[i].StartStep? && !Active(ts[i].list, ss[i].id)
    requires Undisturbed(ts, ss, i, j) && ss[j].TickStep?
    ensures Inv(ts[j]) && Enabled(ss[i])
    ensures (exists y :: y in FiredAt(ts[j]) && y.id == ss[i].id) <==> Fires(ts[i].now, ss[i], ts[j].now + 1)
  {
    hide Inv, Do, Active, Running, FiredAt, Fires, Undisturbed;
    RunningAt(ts, ss, i, j);
    RunningTick(ts[j], ts[i].now, ss[i]);
  }

  predicate LessAt(s: seq<Timer>, k: int, id: nat, s': seq<Timer>) {
    0 <= k < |s| && s[k].id == id && s' == s[..k] + s[k + 1..]
  }

  /** `s'` is `s` without the one timer `id`. */
  ghost predicate OneLess(s: seq<Timer>, id: nat, s': seq<Timer>) { exists k :: LessAt(s, k, id, s') }

  lemma {:induction false} RemoveOne(s: seq<Timer>, id: nat)
    ensures Active(s, id) ==> OneLess(s, id, Remove(s, id))
    ensures !Active(s, id) ==> Remove(s, id) == s
  {
    hide Active, OneLess;
    if s == [] {
      NoneActive(id);
    } else {
      ActiveCons(s, id);
      RemoveOne(s[1..], id);
      OneLessCons(s, id, Remove(s[1..], id));
    }
  }

  lemma NoneActive(id: nat)
    ensures !Active([], id)
  {}

  lemma ActiveCons(s: seq<Timer>, id: nat)
    requires s != []
    ensures Active(s, id) <==> s[0].id == id || Active(s[1..], id)
  {
    ConsTail(s);
  }

  lemma OneLessCons(s: seq<Timer>, id: nat, rest': seq<Timer>)
    requires s != []
    ensures s[0].id == id ==> OneLess(s, id, s[1..])
    ensures OneLess(s[1..], id, rest') ==> OneLess(s, id, [s[0]] + rest')
    ensures [s[0]] + s[1..] == s
  {
    if s[0].id == id { assert LessAt(s, 0, id, s[1..]); }
    if k :| LessAt(s[1..], k, id, rest') {
      LessCons(s, k, id, rest');
      assert LessAt(s, k + 1, id, [s[0]] + rest');
    }
  }

  lemma LessCons(s: seq<Timer>, k: int, id: nat, rest': seq<Timer>)
    requires s != [] && LessAt(s[1..], k, id, rest')
    ensures LessAt(s, k + 1, id, [s[0]] + rest')
  {
    assert [s[0]] + s[1..][..k] == s[..k + 1] && s[1..][k + 1..] == s[k + 2..];
  }

  /** rt_timer_stop takes exactly its timer off the list; the others stay as they are, in
      their order. A timer that is not active is left alone. */
  lemma StopExact(s: Timers, id: nat)
    requires Inv(s)
    ensures var s' := Do(s, StopStep(id));
            && !Active(s'.list, id) && s' == s.(list := s'.list)
            && if Active(s.list, id) then OneLess(s.list, id, s'.list) else s' == s
  {
    RemoveOne(s.list, id);
    RemoveFacts(s.list, id);
  }

  /** A timer that is not active stays so until it is started. */
  lemma StepSilent(s: Timers, step: Step, id: nat)
    requires Inv(s) && Enabled(step) && !Active(s.list, id) && !(step.StartStep? && step.id == id)
    ensures !Active(Do(s, step).list, id)
  {
    match step
    case StartStep(u, delay, periodic) => if !Active(s.list, u) { StartInv(s, u, delay, periodic); }
    case StopStep(u) => RemoveFacts(s.list, u);
    case TickStep => GoneTick(s, id);
  }

  lemma {:induction false} RunSilent(ts: seq<Timers>, ss: seq<Step>, id: nat, i: nat, j: nat)
    requires IsRun(ts, ss) && i <= j < |ts| && !Active(ts[i].list, id)
    requires forall k :: i <= k < j ==> !(ss[k].StartStep? && ss[k].id == id)
    ensures Inv(ts[j]) && !Active(ts[j].list, id)
  {
    hide Inv, Do, Active;
    RunInv(ts, ss, j);
    if i < j {
      RunSilent(ts, ss, id, i, j - 1);
      assert Moves(ts, ss, j - 1);
      StepSilent(ts[j - 1], ss[j - 1], id);
    }
  }

  /** Over whole runs: a timer that is stopped does not fire until it is started again. */
  lemma StoppedSilent(ts: seq<Timers>, ss: seq<Step>, id: nat, i: nat, j: nat)
    requires IsRun(ts, ss) && i < j < |ss| && ss[i] == StopStep(id) && ss[j].TickStep?
    requires forall k :: i < k < j ==> !(ss[k].StartStep? && ss[k].id == id)
    ensures Inv(ts[j]) && !exists y :: y in FiredAt(ts[j]) && y.id == id
  {
    hide Inv, Do, Active, FiredAt;
    RunInv(ts, ss, i);
    assert Moves(ts, ss, i);
    StopExact(ts[i], id);
    RunSilent(ts, ss, id, i + 1, j);
    GoneTick(ts[j], id);
  }

  /** Nor does one that was never started. */
  lemma UnstartedSilent(ts: seq<Timers>, ss: seq<Step>, id: nat, j: nat)
    requires IsRun(ts, ss) && j < |ss| && ss[j].TickStep?
    requires forall k :: 0 <= k < j ==> !(ss[k].StartStep? && ss[k].id == id)
    ensures Inv(ts[j]) && !exists y :: y in FiredAt(ts[j]) && y.id == id
  {
    RunSilent(ts, ss, id, 0, j);
    hide Inv, Do, Active, FiredAt;
    GoneTick(ts[j], id);
  }

  // ---- a periodic timer without delay ----

  ghost predicate Restless(s: Timers) {
    Sorted(s.list) && s.levels > 0 && exists x :: x in s.list && x.deadline <= s.now && x.periodic && x.delay == 0
  }

  /** The state after `n` rounds of the loop of rt_timer_check, or after its last. */
  ghost function Rounds(s: Timers, n: nat): Timers
    requires s.levels > 0
    decreases n
  {
    if n == 0 || !HasDue(s) then s else Rounds(Fire(s), n - 1)
  }

  /** With a due periodic timer of zero delay the check never gets to the end of its loop. */
  lemma {:induction false} NeverEnds(s: Timers, n: nat)
    requires Restless(s)
    ensures Restless(Rounds(s, n)) && HasDue(Rounds(s, n))
    decreases n
  {
    var x :| x in s.list && x.deadline <= s.now && x.periodic && x.delay == 0;
    assert s.list[0].deadline <= x.deadline;
    if n > 0 {
      RestlessFire(s);
      NeverEnds(Fire(s), n - 1);
    }
  }

  /** Without one, it ends after as many rounds as there are due timers. */
  lemma {:induction false} Ends(s: Timers)
    requires Sorted(s.list) && s.levels > 0 && !Restless(s)
    ensures !HasDue(Rounds(s, Rank(s.list, s.now)))
    decreases Rank(s.list, s.now)
  {
    if HasDue(s) {
      CalmFire(s);
      Ends(Fire(s));
    }
  }

  lemma CalmFire(s: Timers)
    requires Sorted(s.list) && s.levels > 0 && !Restless(s) && HasDue(s)
    ensures Sorted(Fire(s).list) && !Restless(Fire(s)) && Rank(Fire(s).list, s.now) == Rank(s.list, s.now) - 1
  {
    var t, rest := s.list[0], s.(list := s.list[1..]);
    ConsTail(s.list);
    assert Sorted(rest.list) && Rank(rest.list, s.now) == Rank(s.list, s.now) - 1;
    hide Sorted, Rank, Insert;
    if t.periodic {
      assert t in s.list && t.delay > 0;
      var y := New(rest, t.id, t.delay, true);
      InsertMembers(rest.list, y);
      SortedInsert(rest.list, y);
      RankInsert(rest.list, y, s.now);
    }
  }

  /** rt_timer_check ends if and only if no due timer is periodic with zero delay. */
  lemma EndsExactly(s: Timers)
    requires Sorted(s.list) && s.levels > 0
    ensures (exists n :: !HasDue(Rounds(s, n))) <==> !Restless(s)
  {
    hide Restless, HasDue, Rounds, Rank;
    if Restless(s) {
      forall n
        ensures HasDue(Rounds(s, n))
      {
        NeverEnds(s, n);
      }
    } else {
      Ends(s);
    }
  }

  /** Starting a periodic timer with zero delay, which rt_timer_start accepts, is enough. */
  lemma ZeroDelay(s: Timers, id: nat)
    requires Inv(s)
    ensures Restless(Start(s, id, 0, true).(now := s.now + 1))
  {
    var x := New(s, id, 0, true);
    SortedInsert(s.list, x);
    InsertMembers(s.list, x);
    assert x in Insert(s.list, x);
  }

  lemma RestlessFire(s: Timers)
    requires Restless(s) && HasDue(s)
    ensures Restless(Fire(s))
  {
    var t, rest := s.list[0], s.(list := s.list[1..]);
    var x :| x in s.list && x.deadline <= s.now && x.periodic && x.delay == 0;
    ConsTail(s.list);
    assert Sorted(rest.list);
    hide Sorted, Insert;
    if t.periodic {
      var y := New(rest, t.id, t.delay, true);
      InsertMembers(rest.list, y);
      SortedInsert(rest.list, y);
      assert (if x == t then y else x) in Fire(s).list;
    }
  }

  lemma SortedInsert(s: seq<Timer>, x: Timer)
    requires Sorted(s)
    ensures Sorted(Insert(s, x))
  {
    InsertAt(s, x);
  }
}
