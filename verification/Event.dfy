/** Event flags (ipc.c): a word of bits that threads wait for, all or any of them, and
    may clear when they get them. A send walks the waiters and consumes bits as it goes. */
module EventSpec {
  import opened IpcList

  type Bits = bv32

  function Common(a: Bits, b: Bits): Bits { a & b }

  function Both(a: Bits, b: Bits): Bits { a | b }

  function Minus(a: Bits, b: Bits): Bits { a & !b }

  /** Every bit of `a` is in `b`. */
  predicate Within(a: Bits, b: Bits) { b & a == a }

  /** What a thread asks for: these bits, all of them or any, and whether to clear them. */
  datatype Request = Request(bits: Bits, all: bool, clear: bool)

  predicate Satisfied(bits: Bits, r: Request) {
    if r.all then Common(bits, r.bits) == r.bits else Common(bits, r.bits) != 0
  }

  /** What a successful rt_event_recv leaves of the event word. */
  function Left(bits: Bits, r: Request): Bits { if r.clear then Minus(bits, r.bits) else bits }

  datatype Grant = Grant(thread: nat, request: Request, received: Bits)

  datatype Outcome = Outcome(bits: Bits, waiters: seq<Waiter<Request>>, grants: seq<Grant>)

  /** Each waiter in turn tries a non-blocking receive on what the ones before left. */
  function Retry(bits: Bits, q: seq<Waiter<Request>>): Outcome {
    if q == [] then Outcome(bits, [], [])
    else if Satisfied(bits, q[0].arg) then
      var rest := Retry(Left(bits, q[0].arg), q[1..]);
      rest.(grants := [Grant(q[0].thread, q[0].arg, Common(bits, q[0].arg.bits))] + rest.grants)
    else
      var rest := Retry(bits, q[1..]);
      rest.(waiters := [q[0]] + rest.waiters)
  }

  // ---- facts about bits ----

  lemma WithinTrans(a: Bits, b: Bits, c: Bits)
    requires Within(a, b) && Within(b, c)
    ensures Within(a, c)
  {}

  lemma WithinSelf(a: Bits)
    ensures Within(a, a)
  {}

  lemma MinusWithin(a: Bits, b: Bits)
    ensures Within(Minus(a, b), a)
  {}

  lemma MinusApart(a: Bits, b: Bits, c: Bits)
    requires Within(c, Minus(a, b))
    ensures Common(Common(a, b), c) == 0
  {}

  lemma MoreCommon(a: Bits, b: Bits, c: Bits)
    requires Within(a, b)
    ensures Common(a, c) == c ==> Common(b, c) == c
    ensures Common(a, c) != 0 ==> Common(b, c) != 0
  {}

  lemma CommonWithin(a: Bits, b: Bits)
    ensures Within(Common(a, b), a) && Within(Common(a, b), b)
  {}

  /** Clearing the bits asked for, or only those of them that are there, is the same. */
  lemma MinusCommon(a: Bits, b: Bits)
    ensures Minus(a, Common(b, a)) == Minus(a, b) && Common(a, b) == Common(b, a)
  {}

  /** A word with one bit, which stands for that bit. */
  predicate Single(m: Bits) { m != 0 && m & (m - 1) == 0 }

  /** The bits of a word: `m` is among them. */
  predicate Has(bits: Bits, m: Bits) { Common(bits, m) != 0 }

  lemma OneBit(a: Bits, m: Bits)
    requires Single(m)
    ensures m != 0 && (Common(a, m) == 0 || Common(a, m) == m) && Common(0, m) == 0
  {}

  lemma SomeInBoth(a: Bits, b: Bits, m: Bits)
    requires Common(a, m) != 0
    ensures Common(Both(a, b), m) != 0 && Common(Both(b, a), m) != 0
  {}

  lemma NoneInBoth(a: Bits, b: Bits, m: Bits)
    requires Common(a, m) == 0 && Common(b, m) == 0
    ensures Common(Both(a, b), m) == 0
  {}

  lemma AllInCommon(a: Bits, b: Bits, m: Bits)
    requires Common(a, m) == m && Common(b, m) == m
    ensures Common(Common(a, b), m) == m
  {}

  lemma NoneInCommon(a: Bits, b: Bits, m: Bits)
    requires Common(a, m) == 0
    ensures Common(Common(a, b), m) == 0 && Common(Common(b, a), m) == 0
  {}

  lemma NoneInMinus(a: Bits, b: Bits, m: Bits)
    requires Common(b, m) == m
    ensures Common(Minus(a, b), m) == 0
  {}

  lemma SameInMinus(a: Bits, b: Bits, m: Bits)
    requires Common(b, m) == 0
    ensures Common(Minus(a, b), m) == Common(a, m)
  {}

  /** The operations on words are union, intersection and difference of their bits. */
  lemma BitLaw(a: Bits, b: Bits, m: Bits)
    requires Single(m)
    ensures Has(Both(a, b), m) <==> Has(a, m) || Has(b, m)
    ensures Has(Common(a, b), m) <==> Has(a, m) && Has(b, m)
    ensures Has(Minus(a, b), m) <==> Has(a, m) && !Has(b, m)
    ensures !Has(0, m)
  {
    hide Both, Common, Minus, Single;
    OneBit(a, m);
    OneBit(b, m);
    if Has(a, m) { SomeInBoth(a, b, m); } else { NoneInCommon(a, b, m); }
    if Has(b, m) {
      SomeInBoth(b, a, m);
      NoneInMinus(a, b, m);
    } else {
      NoneInCommon(b, a, m);
      SameInMinus(a, b, m);
    }
    if !Has(a, m) && !Has(b, m) { NoneInBoth(a, b, m); }
    if Has(a, m) && Has(b, m) { AllInCommon(a, b, m); }
  }

  /** Different words differ in a bit. */
  lemma Differ(a: Bits, b: Bits) returns (m: Bits)
    requires a != b
    ensures Single(m) && Has(a, m) != Has(b, m)
  {
    var d := a ^ b;
    m := d & (0 - d);
  }

  /** A request for all bits is satisfied when the word has each of them, one for any when it
      has one of them. */
  lemma SatisfiedIs(bits: Bits, r: Request)
    ensures r.all ==> (Satisfied(bits, r) <==> forall m :: Single(m) && Has(r.bits, m) ==> Has(bits, m))
    ensures !r.all ==> (Satisfied(bits, r) <==> exists m :: Single(m) && Has(r.bits, m) && Has(bits, m))
  {
    hide Has, Common, Single;
    var c := Common(bits, r.bits);
    forall m | Single(m)
      ensures !Has(0, m) && (Has(c, m) <==> Has(bits, m) && Has(r.bits, m))
    {
      BitLaw(bits, r.bits, m);
    }
    if c != r.bits { var m := Differ(c, r.bits); }
    if c != 0 { var m := Differ(c, 0); }
  }

  /** A successful receive leaves the bits it does not clear. */
  lemma LeftIs(bits: Bits, r: Request, m: Bits)
    requires Single(m)
    ensures Has(Left(bits, r), m) <==> Has(bits, m) && !(r.clear && Has(r.bits, m))
  {
    hide Has, Minus, Single;
    BitLaw(bits, r.bits, m);
  }

  // ---- what a send does ----

  /** Clearing bits satisfies nobody. */
  lemma Monotone(bits: Bits, less: Bits, r: Request)
    requires Within(less, bits) && Satisfied(less, r)
    ensures Satisfied(bits, r)
  {
    hide Common, Within;
    MoreCommon(less, bits, r.bits);
  }

  lemma LeftWithin(bits: Bits, r: Request)
    ensures Within(Left(bits, r), bits)
  {
    hide Minus, Within;
    MinusWithin(bits, r.bits);
    WithinSelf(bits);
  }

  /** The bits received are among those asked for and those there; all asked for, if all were needed. */
  ghost predicate RightGrant(g: Grant, bits: Bits) {
    && Within(g.received, g.request.bits) && Within(g.received, bits)
    && if g.request.all then g.received == g.request.bits else g.received != 0
  }

  lemma GrantFirst(bits: Bits, t: nat, r: Request)
    requires Satisfied(bits, r)
    ensures RightGrant(Grant(t, r, Common(bits, r.bits)), bits)
  {
    hide Common, Within;
    CommonWithin(bits, r.bits);
  }

  lemma GrantLater(g: Grant, less: Bits, bits: Bits)
    requires RightGrant(g, less) && Within(less, bits)
    ensures RightGrant(g, bits)
  {
    hide Within;
    WithinTrans(g.received, less, bits);
  }

  /** After the walk nobody left waiting is satisfied, and those resumed got what they asked for. */
  lemma {:induction false} RetryFacts(bits: Bits, q: seq<Waiter<Request>>)
    ensures var o := Retry(bits, q);
            && Within(o.bits, bits) && |o.waiters| + |o.grants| == |q|
            && (forall w :: w in o.waiters ==> w in q && !Satisfied(o.bits, w.arg))
            && (forall g :: g in o.grants ==> RightGrant(g, bits))
    decreases |q|
  {
    hide Common, Minus, Within, Satisfied, Left, RightGrant;
    if q == [] {
      WithinSelf(bits);
    } else {
      var r := q[0].arg;
      if Satisfied(bits, r) {
        var rest := Retry(Left(bits, r), q[1..]);
        RetryFacts(Left(bits, r), q[1..]);
        LeftWithin(bits, r);
        WithinTrans(rest.bits, Left(bits, r), bits);
        forall g | g in rest.grants
          ensures RightGrant(g, bits)
        {
          GrantLater(g, Left(bits, r), bits);
        }
        GrantFirst(bits, q[0].thread, r);
      } else {
        var rest := Retry(bits, q[1..]);
        RetryFacts(bits, q[1..]);
        if Satisfied(rest.bits, r) { Monotone(bits, rest.bits, r); }
      }
    }
  }

  /** A bit that a waiter clears is received by nobody after it in the same send. */
  lemma {:induction false} ClearedOnce(bits: Bits, q: seq<Waiter<Request>>, i: nat, j: nat)
    requires i < j < |Retry(bits, q).grants| && Retry(bits, q).grants[i].request.clear
    ensures var g := Retry(bits, q).grants; Common(g[i].received, g[j].received) == 0
    decreases |q|
  {
    hide Common, Minus, Within, Satisfied;
    var r := q[0].arg;
    if Satisfied(bits, r) {
      var rest := Retry(Left(bits, r), q[1..]);
      if i == 0 {
        RetryFacts(Left(bits, r), q[1..]);
        assert rest.grants[j - 1] in rest.grants;
        MinusApart(bits, r.bits, rest.grants[j - 1].received);
      } else {
        ClearedOnce(Left(bits, r), q[1..], i - 1, j - 1);
      }
    } else {
      ClearedOnce(bits, q[1..], i, j);
    }
  }

  /** `p` is `q` with some elements left out. */
  predicate Subsequence<T(==)>(p: seq<T>, q: seq<T>) {
    p == [] || (q != [] && ((p[0] == q[0] && Subsequence(p[1..], q[1..])) || Subsequence(p, q[1..])))
  }

  /** The walk keeps the order of the waiters it leaves, whatever it is, and every waiter is
      either left or resumed. */
  lemma {:induction false} RetryThreads(bits: Bits, q: seq<Waiter<Request>>, flag: Flag)
    requires Unique(q) && InOrder(q, flag)
    ensures var o := Retry(bits, q);
            && Unique(o.waiters) && InOrder(o.waiters, flag) && Subsequence(o.waiters, q)
            && (forall t :: Waits(q, t) <==> Waits(o.waiters, t) || Granted(o.grants, t))
            && (forall t :: !(Waits(o.waiters, t) && Granted(o.grants, t)))
    decreases |q|
  {
    hide Common, Minus, Within, Satisfied, Left, RightGrant;
    if q != [] {
      HeadLeaves(q, flag);
      RetryThreads(if Satisfied(bits, q[0].arg) then Left(bits, q[0].arg) else bits, q[1..], flag);
      RetryFacts(if Satisfied(bits, q[0].arg) then Left(bits, q[0].arg) else bits, q[1..]);
      forall t
        ensures Waits(q, t) <==> Waits(Retry(bits, q).waiters, t) || Granted(Retry(bits, q).grants, t)
      {
        Covered(bits, q, t);
      }
    }
  }

  lemma {:induction false} Covered(bits: Bits, q: seq<Waiter<Request>>, t: nat)
    ensures Waits(q, t) <==> Waits(Retry(bits, q).waiters, t) || Granted(Retry(bits, q).grants, t)
    decreases |q|
  {
    hide Common, Minus, Within, Satisfied, Left, Waits, Granted;
    if q == [] {
      Nobody(t);
    } else {
      var o := Retry(bits, q);
      WaitsCons(q, t);
      if Satisfied(bits, q[0].arg) {
        Covered(Left(bits, q[0].arg), q[1..], t);
        GrantedCons(o.grants, t);
      } else {
        Covered(bits, q[1..], t);
        WaitsCons(o.waiters, t);
      }
    }
  }

  lemma Nobody(t: nat)
    ensures !Waits<Request>([], t) && !Granted([], t)
  {}

  lemma GrantedCons(g: seq<Grant>, t: nat)
    requires g != []
    ensures Granted(g, t) <==> t == g[0].thread || Granted(g[1..], t)
  {
    if Granted(g[1..], t) {
      var i :| 0 <= i < |g[1..]| && g[1..][i].thread == t;
      assert g[i + 1].thread == t;
    }
  }

  ghost predicate Granted(g: seq<Grant>, t: nat) { exists i :: 0 <= i < |g| && g[i].thread == t }

  /** Waiters get their turn in the order of the queue: whether the next one is resumed, and
      with what, depends on what the ones before have left. */
  lemma {:induction false} RetryInTurn(bits: Bits, q: seq<Waiter<Request>>, w: Waiter<Request>)
    ensures var o := Retry(bits, q);
            Retry(bits, q + [w]) ==
              if Satisfied(o.bits, w.arg) then
                Outcome(Left(o.bits, w.arg), o.waiters, o.grants + [Grant(w.thread, w.arg, Common(o.bits, w.arg.bits))])
              else Outcome(o.bits, o.waiters + [w], o.grants)
    decreases |q|
  {
    hide Common, Minus, Within, Satisfied, Left;
    if q == [] {
      assert [] + [w] == [w] && [w][1..] == [];
    } else {
      assert (q + [w])[1..] == q[1..] + [w];
      RetryInTurn(if Satisfied(bits, q[0].arg) then Left(bits, q[0].arg) else bits, q[1..], w);
    }
  }

  ghost predicate Clears(g: seq<Grant>, m: Bits) {
    exists k :: 0 <= k < |g| && g[k].request.clear && Has(g[k].request.bits, m)
  }

  /** After the walk a bit is left if it was there and no thread that was resumed cleared it. */
  lemma {:induction false} RetryBits(bits: Bits, q: seq<Waiter<Request>>, m: Bits)
    requires Single(m)
    ensures Has(Retry(bits, q).bits, m) <==> Has(bits, m) && !Clears(Retry(bits, q).grants, m)
    decreases |q|
  {
    hide Common, Minus, Within, Satisfied, Left, Has, Single;
    if q != [] {
      var r := q[0].arg;
      if Satisfied(bits, r) {
        RetryBits(Left(bits, r), q[1..], m);
        LeftIs(bits, r, m);
        ClearsCons(Retry(bits, q).grants, m);
      } else {
        RetryBits(bits, q[1..], m);
      }
    }
  }

  lemma ClearsCons(g: seq<Grant>, m: Bits)
    requires g != []
    ensures Clears(g, m) <==> (g[0].request.clear && Has(g[0].request.bits, m)) || Clears(g[1..], m)
  {
    hide Has;
    var rest := g[1..];
    if k :| 0 <= k < |rest| && rest[k].request.clear && Has(rest[k].request.bits, m) { assert g[k + 1] == rest[k]; }
    if k :| 0 <= k < |g| && g[k].request.clear && Has(g[k].request.bits, m) { if k > 0 { assert rest[k - 1] == g[k]; } }
  }

  ghost predicate OneEach(g: seq<Grant>) { forall i, j :: 0 <= i < j < |g| ==> g[i].thread != g[j].thread }

  lemma {:induction false} GrantsOneEach(bits: Bits, q: seq<Waiter<Request>>)
    requires Unique(q)
    ensures OneEach(Retry(bits, q).grants)
    decreases |q|
  {
    hide Common, Minus, Within, Satisfied, Left;
    if q != [] {
      var bits' := if Satisfied(bits, q[0].arg) then Left(bits, q[0].arg) else bits;
      assert Unique(q[1..]);
      GrantsOneEach(bits', q[1..]);
      var rest := Retry(bits', q[1..]).grants;
      forall k | 0 <= k < |rest|
        ensures rest[k].thread != q[0].thread
      {
        assert Granted(rest, rest[k].thread);
        Covered(bits', q[1..], rest[k].thread);
      }
    }
  }

  // ---- the event object ----

  /** `granted` were resumed with what they received and have not returned yet. */
  datatype Event = Event(bits: Bits, flag: Flag, waiters: seq<Waiter<Request>>, granted: map<nat, Grant>)

  function Init(flag: Flag): Event { Event(0, flag, [], map[]) }

  ghost predicate Inv(e: Event) {
    && Unique(e.waiters) && InOrder(e.waiters, e.flag)
    && (forall t :: Waits(e.waiters, t) ==> t !in e.granted)
    && (forall t :: t in e.granted ==> e.granted[t].thread == t && RightGrant(e.granted[t], e.granted[t].received))
    && (forall w :: w in e.waiters ==> !Satisfied(e.bits, w.arg))
  }

  function AddGrants(m: map<nat, Grant>, g: seq<Grant>): map<nat, Grant>
    decreases |g|
  {
    if g == [] then m else AddGrants(m[g[0].thread := g[0]], g[1..])
  }

  /** rt_event_send as its documentation reads: set the bits, then let every waiter retry. */
  function Send(e: Event, bits: Bits): Event {
    if bits == 0 then e
    else
      var o := Retry(Both(e.bits, bits), e.waiters);
      e.(bits := o.bits, waiters := o.waiters, granted := AddGrants(e.granted, o.grants))
  }

  /** rt_event_recv up to the point where the thread returns or waits. */
  function Recv(e: Event, t: nat, priority: nat, r: Request, wait: bool): Event {
    if r.bits == 0 then e
    else if Satisfied(e.bits, r) then e.(bits := Left(e.bits, r))
    else if wait then e.(waiters := Enqueue(e.waiters, Waiter(t, priority, r), e.flag))
    else e
  }

  function Timeout(e: Event, k: nat): Event
    requires k < |e.waiters|
  {
    e.(waiters := Cut(e.waiters, k))
  }

  /** rt_event_control with RT_IPC_CMD_RESET. */
  function Reset(e: Event): Event { e.(bits := 0, waiters := []) }

  // ---- no waiter is ever left satisfied ----

  lemma {:induction false} AddGrantsFacts(m: map<nat, Grant>, g: seq<Grant>)
    ensures forall t :: t in AddGrants(m, g) ==> t in m || Granted(g, t)
    ensures forall t :: t in AddGrants(m, g) ==>
              (t in m && AddGrants(m, g)[t] == m[t]) || (AddGrants(m, g)[t] in g && AddGrants(m, g)[t].thread == t)
    decreases |g|
  {
    if g != [] {
      AddGrantsFacts(m[g[0].thread := g[0]], g[1..]);
      assert forall x :: x in g[1..] ==> x in g;
      forall t | Granted(g[1..], t)
        ensures Granted(g, t)
      {
        GrantedCons(g, t);
      }
    }
  }

  lemma SendInv(e: Event, bits: Bits)
    requires Inv(e)
    ensures Inv(Send(e, bits))
  {
    hide Common, Both, Minus, Within, Satisfied, Retry, Unique, InOrder, Waits, Granted, AddGrants;
    if bits != 0 {
      var all := Both(e.bits, bits);
      var o := Retry(all, e.waiters);
      RetryFacts(all, e.waiters);
      RetryThreads(all, e.waiters, e.flag);
      AddGrantsFacts(e.granted, o.grants);
      forall g | g in o.grants
        ensures RightGrant(g, g.received)
      {
        WithinSelf(g.received);
      }
    }
  }

  lemma {:induction false} AddGrantsHas(m: map<nat, Grant>, g: seq<Grant>)
    requires OneEach(g)
    ensures forall t :: t in m && !Granted(g, t) ==> t in AddGrants(m, g) && AddGrants(m, g)[t] == m[t]
    ensures forall k :: 0 <= k < |g| ==> g[k].thread in AddGrants(m, g) && AddGrants(m, g)[g[k].thread] == g[k]
    decreases |g|
  {
    if g != [] {
      var m1, rest := m[g[0].thread := g[0]], g[1..];
      AddGrantsHas(m1, rest);
      assert g == [g[0]] + rest;
      forall t
        ensures Granted(g, t) <==> t == g[0].thread || Granted(rest, t)
      {
        GrantedCons(g, t);
      }
    }
  }

  /** A send adds its bits, lets every waiter try in turn, and gives each thread that it
      resumes what it got; a send of no bits changes nothing. */
  lemma SendExact(e: Event, bits: Bits, m: Bits)
    requires Inv(e) && Single(m)
    ensures var e', o := Send(e, bits), Retry(Both(e.bits, bits), e.waiters);
            if bits == 0 then e' == e
            else
              && e'.waiters == o.waiters && e'.flag == e.flag
              && (Has(e'.bits, m) <==> (Has(e.bits, m) || Has(bits, m)) && !Clears(o.grants, m))
              && (forall k :: 0 <= k < |o.grants| ==>
                   o.grants[k].thread in e'.granted && e'.granted[o.grants[k].thread] == o.grants[k])
              && (forall t :: t in e.granted ==> t in e'.granted && e'.granted[t] == e.granted[t])
  {
    hide Common, Both, Minus, Within, Satisfied, Retry, Has, Single, Clears, InOrder, AddGrants, RightGrant;
    var all := Both(e.bits, bits);
    var o := Retry(all, e.waiters);
    RetryBits(all, e.waiters, m);
    BitLaw(e.bits, bits, m);
    GrantsOneEach(all, e.waiters);
    AddGrantsHas(e.granted, o.grants);
    forall t | t in e.granted
      ensures !Granted(o.grants, t)
    {
      Covered(all, e.waiters, t);
    }
  }

  /** A receive that is satisfied takes what it clears; another one joins the waiters behind
      all that are as urgent, or behind all, or changes nothing. */
  lemma RecvExact(e: Event, t: nat, priority: nat, r: Request, wait: bool)
    requires Inv(e)
    ensures var e' := Recv(e, t, priority, r, wait);
            if r.bits == 0 then e' == e
            else if Satisfied(e.bits, r) then e' == e.(bits := e'.bits) && e'.bits == Left(e.bits, r)
            else if wait then
              && e' == e.(waiters := e'.waiters)
              && exists k :: InsertedAt(e.waiters, Waiter(t, priority, r), e.flag, e'.waiters, k)
            else e' == e
  {
    hide Common, Minus, Within, Satisfied, Left, RightGrant, InsertedAt, Enqueue;
    var w := Waiter(t, priority, r);
    EnqueueFacts(e.waiters, w, e.flag);
    assert InsertedAt(e.waiters, w, e.flag, Enqueue(e.waiters, w, e.flag),
      if e.flag == Fifo then |e.waiters| else Position(e.waiters, priority));
  }

  /** A timeout takes its waiter out, a reset all of them with every bit; neither touches
      what was granted. */
  lemma EndExact(e: Event, k: nat)
    requires Inv(e)
    ensures Reset(e).bits == 0 && Reset(e).waiters == [] && Reset(e).granted == e.granted
    ensures k < |e.waiters| ==> var e' := Timeout(e, k);
            && e' == e.(waiters := e'.waiters) && !Waits(e'.waiters, e.waiters[k].thread)
            && e'.waiters == e.waiters[..k] + e.waiters[k + 1..]
  {
    hide Satisfied, RightGrant;
    if k < |e.waiters| { CutThreads(e.waiters, k, e.flag); }
  }

  lemma RecvInv(e: Event, t: nat, priority: nat, r: Request, wait: bool)
    requires Inv(e) && !Waits(e.waiters, t) && t !in e.granted
    ensures Inv(Recv(e, t, priority, r, wait))
  {
    hide Common, Minus, Within, Satisfied, Left, RightGrant, Unique, InOrder, Waits, Enqueue;
    if Satisfied(e.bits, r) {
      LeftWithin(e.bits, r);
      forall w | w in e.waiters
        ensures !Satisfied(Left(e.bits, r), w.arg)
      {
        if Satisfied(Left(e.bits, r), w.arg) { Monotone(e.bits, Left(e.bits, r), w.arg); }
      }
    } else {
      var w := Waiter(t, priority, r);
      EnqueueFacts(e.waiters, w, e.flag);
      EnqueueThreads(e.waiters, w, e.flag);
      EnqueueMembers(e.waiters, w, e.flag);
    }
  }

  lemma TimeoutInv(e: Event, k: nat)
    requires Inv(e) && k < |e.waiters|
    ensures Inv(Timeout(e, k))
  {
    hide Satisfied, RightGrant, Unique, InOrder, Waits, Cut;
    CutThreads(e.waiters, k, e.flag);
    CutMembers(e.waiters, k);
  }

  datatype Step =
    | SendStep(bits: Bits)
    | RecvStep(t: nat, priority: nat, r: Request, wait: bool)
    | TimeoutStep(k: nat)
    | ReturnStep(t: nat)
    | ResetStep

  ghost predicate Enabled(e: Event, s: Step) {
    match s
    case SendStep(_) => true
    case RecvStep(t, _, _, _) => !Waits(e.waiters, t) && t !in e.granted
    case TimeoutStep(k) => k < |e.waiters|
    case ReturnStep(t) => t in e.granted
    case ResetStep => true
  }

  ghost function Do(e: Event, s: Step): Event
    requires Enabled(e, s)
  {
    match s
    case SendStep(bits) => Send(e, bits)
    case RecvStep(t, p, r, wait) => Recv(e, t, p, r, wait)
    case TimeoutStep(k) => Timeout(e, k)
    case ReturnStep(t) => e.(granted := e.granted - {t})
    case ResetStep => Reset(e)
  }

  lemma StepInv(e: Event, s: Step)
    requires Inv(e) && Enabled(e, s)
    ensures Inv(Do(e, s))
  {
    hide Satisfied, RightGrant, Unique, InOrder, Waits, Send, Recv, Cut;
    match s
    case SendStep(bits) => SendInv(e, bits);
    case RecvStep(t, p, r, wait) => RecvInv(e, t, p, r, wait);
    case TimeoutStep(k) => TimeoutInv(e, k);
    case ReturnStep(t) =>
    case ResetStep => ResetInv(e);
  }

  lemma ResetInv(e: Event)
    requires Inv(e)
    ensures Inv(Reset(e))
  {}

  ghost predicate Moves(es: seq<Event>, ss: seq<Step>, i: int)
    requires |es| == |ss| + 1 && 0 <= i < |ss|
  {
    Enabled(es[i], ss[i]) && es[i + 1] == Do(es[i], ss[i])
  }

  ghost predicate IsRun(es: seq<Event>, ss: seq<Step>, flag: Flag) {
    && |es| == |ss| + 1 && es[0] == Init(flag)
    && forall i {:trigger Moves(es, ss, i)} :: 0 <= i < |ss| ==> Moves(es, ss, i)
  }

  /** In every state of every run no waiting thread is satisfied by the event word, and
      every resumed thread carries bits that its request allows. */
  lemma {:induction false} RunInv(es: seq<Event>, ss: seq<Step>, flag: Flag, n: nat)
    requires IsRun(es, ss, flag) && n < |es|
    ensures Inv(es[n])
  {
    if n > 0 {
      hide Inv, Do, Enabled;
      RunInv(es, ss, flag, n - 1);
      assert Moves(es, ss, n - 1);
      StepInv(es[n - 1], ss[n - 1]);
    }
  }
}

/** The event object in the form of ipc.c. */
module EventObject {
  import opened IpcList
  import S = EventSpec

  datatype Result = Received(bits: S.Bits) | Failed | Waiting

  class Event {
    const flag: Flag
    var bits: S.Bits
    var waiters: seq<Waiter<S.Request>>
    ghost var e: S.Event

    ghost predicate Valid()
      reads this
    {
      S.Inv(e) && e.bits == bits && e.flag == flag && e.waiters == waiters
    }

    constructor (order: Flag)
      ensures Valid() && e == S.Init(order)
    {
      flag, bits, waiters := order, 0, [];
      e := S.Init(order);
    }

    method Send(given: S.Bits) returns (ok: bool, resumed: seq<S.Grant>)
      requires Valid()
      modifies this
      ensures Valid() && e == S.Send(old(e), given) && ok == (given != 0)
      ensures ok ==> resumed == S.Retry(S.Both(old(e).bits, given), old(e).waiters).grants
    {
      hide S.Inv, S.Both, S.Retry;
      if given == 0 { return false, []; }
      S.SendInv(e, given);
      bits := S.Both(bits, given);
      bits, waiters, resumed := Walk(bits, waiters);
      e := S.Send(e, given);
      ok := true;
    }

    /** rt_event_recv until the thread returns or waits. */
    method Recv(t: nat, priority: nat, r: S.Request, wait: bool) returns (result: Result)
      requires Valid() && !Waits(e.waiters, t) && t !in e.granted
      modifies this
      ensures Valid() && e == S.Recv(old(e), t, priority, r, wait)
      ensures result == if r.bits == 0 then Failed
              else if S.Satisfied(old(e).bits, r) then Received(S.Common(old(e).bits, r.bits))
                        else if wait then Waiting else Failed
    {
      hide S.Inv, S.Common, S.Minus, Enqueue;
      if r.bits == 0 { return Failed; }
      S.RecvInv(e, t, priority, r, wait);
      var got := S.Common(bits, r.bits);
      if if r.all then got == r.bits else got != 0 {
        if r.clear { bits := S.Minus(bits, r.bits); }
        result := Received(got);
      } else if !wait {
        result := Failed;
      } else {
        waiters := Suspend(waiters, Waiter(t, priority, r), flag);
        result := Waiting;
      }
      e := S.Recv(e, t, priority, r, wait);
    }

    /** rt_thread_timeout takes a suspended thread off the list. */
    method Timeout(k: nat) returns (resumed: nat)
      requires Valid() && k < |waiters|
      modifies this`waiters, this`e
      ensures Valid() && e == S.Timeout(old(e), k) && resumed == old(e).waiters[k].thread
    {
      hide S.Inv;
      S.TimeoutInv(e, k);
      resumed := waiters[k].thread;
      waiters := waiters[..k] + waiters[k + 1..];
      e := S.Timeout(e, k);
    }

    /** rt_event_control with RT_IPC_CMD_RESET. */
    method Reset() returns (resumed: seq<nat>)
      requires Valid()
      modifies this`bits, this`waiters, this`e
      ensures Valid() && e == S.Reset(old(e))
      ensures |resumed| == |old(e).waiters| && forall i :: 0 <= i < |resumed| ==> resumed[i] == old(e).waiters[i].thread
    {
      hide S.Inv;
      S.ResetInv(e);
      resumed := ResumeAll(waiters);
      waiters, bits := [], 0;
      e := S.Reset(e);
    }
  }

  /** The walk of rt_event_send over the list, resuming and clearing on the way. */
  method Walk(bits0: S.Bits, waiters0: seq<Waiter<S.Request>>)
      returns (bits: S.Bits, waiters: seq<Waiter<S.Request>>, resumed: seq<S.Grant>)
    ensures S.Outcome(bits, waiters, resumed) == S.Retry(bits0, waiters0)
  {
    hide S.Common, S.Minus, S.Satisfied, S.Retry, Before;
    bits, waiters, resumed := bits0, waiters0, [];
    var n := 0;
    BeforeNothing(waiters, S.Retry(bits, waiters));
    while n < |waiters|
      invariant n <= |waiters| && S.Retry(bits0, waiters0) == Before(waiters[..n], resumed, S.Retry(bits, waiters[n..]))
      decreases |waiters| - n
    {
      var r := waiters[n].arg;
      var ok, got := Match(bits, r);
      BeforeOne(bits, waiters, n, resumed);
      if ok {
        if r.clear { bits := S.Minus(bits, got); }
        resumed := resumed + [S.Grant(waiters[n].thread, r, got)];
        waiters := waiters[..n] + waiters[n + 1..];
      } else {
        n := n + 1;
      }
    }
    BeforeAll(bits, waiters, resumed);
  }

  /** An outcome with waiters and grants from earlier in the walk put before it. */
  ghost function Before(waiters: seq<Waiter<S.Request>>, grants: seq<S.Grant>, o: S.Outcome): S.Outcome {
    S.Outcome(o.bits, waiters + o.waiters, grants + o.grants)
  }

  lemma BeforeNothing(q: seq<Waiter<S.Request>>, o: S.Outcome)
    ensures Before(q[..0], [], o) == o && q[0..] == q
  {}

  lemma BeforeAll(bits: S.Bits, q: seq<Waiter<S.Request>>, grants: seq<S.Grant>)
    ensures Before(q[..|q|], grants, S.Retry(bits, q[|q|..])) == S.Outcome(bits, q, grants)
  {}

  /** One waiter of the walk. */
  lemma BeforeOne(bits: S.Bits, q: seq<Waiter<S.Request>>, n: nat, grants: seq<S.Grant>)
    requires n < |q|
    ensures var r := q[n].arg;
            var q', g := q[..n] + q[n + 1..], S.Grant(q[n].thread, r, S.Common(bits, r.bits));
            && q'[..n] == q[..n]
            && Before(q[..n], grants, S.Retry(bits, q[n..])) ==
               if S.Satisfied(bits, r) then Before(q'[..n], grants + [g], S.Retry(S.Left(bits, r), q'[n..]))
               else Before(q[..n + 1], grants, S.Retry(bits, q[n + 1..]))
  {
    hide S.Common, S.Minus, S.Satisfied, S.Left;
    var q' := q[..n] + q[n + 1..];
    assert q[n..][1..] == q[n + 1..] == q'[n..];
  }

  /** The test of rt_event_send for one waiter; `got` is what it leaves in event_set. */
  method Match(bits: S.Bits, r: S.Request) returns (ok: bool, got: S.Bits)
    ensures ok == S.Satisfied(bits, r)
    ensures ok ==> got == S.Common(bits, r.bits) && S.Minus(bits, got) == S.Minus(bits, r.bits)
  {
    hide S.Minus;
    S.MinusCommon(bits, r.bits);
    ok, got := false, r.bits;
    if r.all {
      if S.Common(r.bits, bits) == r.bits { ok := true; }
    } else if S.Common(r.bits, bits) != 0 {
      got := S.Common(r.bits, bits);
      ok := true;
    }
  }
}
