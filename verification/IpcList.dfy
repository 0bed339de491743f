/** The list of threads suspended on an IPC object (ipc.c), as a sequence of waiters. */
module IpcList {

  datatype Flag = Fifo | Prio

  /** A suspended thread, its current priority (smaller is more urgent), and what it waits for. */
  datatype Waiter<T> = Waiter(thread: nat, priority: nat, arg: T)

  /** The first waiter less urgent than `priority`. */
  function Position<T>(q: seq<Waiter<T>>, priority: nat): (k: nat)
    ensures k <= |q| && (k < |q| ==> priority < q[k].priority)
    ensures forall i :: 0 <= i < k ==> q[i].priority <= priority
  {
    if q == [] || priority < q[0].priority then 0 else 1 + Position(q[1..], priority)
  }

  function Insert<T>(q: seq<Waiter<T>>, k: nat, w: Waiter<T>): seq<Waiter<T>>
    requires k <= |q|
  {
    q[..k] + [w] + q[k..]
  }

  function Enqueue<T>(q: seq<Waiter<T>>, w: Waiter<T>, flag: Flag): seq<Waiter<T>> {
    Insert(q, if flag == Fifo then |q| else Position(q, w.priority), w)
  }

  ghost predicate Sorted<T>(q: seq<Waiter<T>>) {
    forall i, j :: 0 <= i < j < |q| ==> q[i].priority <= q[j].priority
  }

  /** A priority list is sorted; a FIFO list is in order of arrival, which Enqueue states. */
  ghost predicate InOrder<T>(q: seq<Waiter<T>>, flag: Flag) { flag == Prio ==> Sorted(q) }

  ghost predicate Waits<T>(q: seq<Waiter<T>>, t: nat) { exists i :: 0 <= i < |q| && q[i].thread == t }

  ghost predicate Unique<T>(q: seq<Waiter<T>>) {
    forall i, j :: 0 <= i < j < |q| ==> q[i].thread != q[j].thread
  }

  /** The list without the waiter at position `k`. */
  function Cut<T>(q: seq<Waiter<T>>, k: nat): seq<Waiter<T>>
    requires k < |q|
  {
    q[..k] + q[k + 1..]
  }

  /** Every waiter stays in its place but for the new one, which is behind all that are
      as urgent and, in a sorted list, before all that are less urgent. */
  ghost predicate InsertedAt<T>(q: seq<Waiter<T>>, w: Waiter<T>, flag: Flag, q': seq<Waiter<T>>, k: nat) {
    && k <= |q| && |q'| == |q| + 1 && q'[k] == w && Cut(q', k) == q
    && (flag == Fifo ==> k == |q|)
    && (flag == Prio ==> forall i :: 0 <= i < |q| ==> (q[i].priority <= w.priority <==> i < k))
  }

  lemma InsertAt<T>(q: seq<Waiter<T>>, k: nat, w: Waiter<T>)
    requires k <= |q|
    ensures var r := Insert(q, k, w); |r| == |q| + 1 && r[k] == w && Cut(r, k) == q
    ensures forall i :: 0 <= i <= |q| ==> Insert(q, k, w)[i] == if i < k then q[i] else if i == k then w else q[i - 1]
  {}

  lemma InsertSorted<T>(q: seq<Waiter<T>>, k: nat, w: Waiter<T>)
    requires k <= |q| && Sorted(q) && forall i :: 0 <= i < |q| ==> (q[i].priority <= w.priority <==> i < k)
    ensures Sorted(Insert(q, k, w))
  {
    InsertAt(q, k, w);
  }

  lemma EnqueueFacts<T>(q: seq<Waiter<T>>, w: Waiter<T>, flag: Flag)
    requires InOrder(q, flag)
    ensures InOrder(Enqueue(q, w, flag), flag)
    ensures InsertedAt(q, w, flag, Enqueue(q, w, flag), if flag == Fifo then |q| else Position(q, w.priority))
  {
    hide Insert, Cut;
    if flag == Fifo {
      InsertAt(q, |q|, w);
    } else {
      InsertAt(q, Position(q, w.priority), w);
      InsertSorted(q, Position(q, w.priority), w);
    }
  }

  lemma EnqueueThreads<T>(q: seq<Waiter<T>>, w: Waiter<T>, flag: Flag)
    requires Unique(q) && !Waits(q, w.thread)
    ensures Unique(Enqueue(q, w, flag)) && Enqueue(q, w, flag) != []
    ensures forall t :: Waits(Enqueue(q, w, flag), t) <==> t == w.thread || Waits(q, t)
  {
    var k := if flag == Fifo then |q| else Position(q, w.priority);
    var r := Enqueue(q, w, flag);
    assert forall i :: 0 <= i < |r| ==> r[i] == if i < k then q[i] else if i == k then w else q[i - 1];
    assert r[k] == w;
    forall t | Waits(q, t)
      ensures Waits(r, t)
    {
      var i :| 0 <= i < |q| && q[i].thread == t;
      assert r[if i < k then i else i + 1] == q[i];
    }
  }

  lemma CutThreads<T>(q: seq<Waiter<T>>, k: nat, flag: Flag)
    requires Unique(q) && InOrder(q, flag) && k < |q|
    ensures Unique(Cut(q, k)) && InOrder(Cut(q, k), flag)
    ensures forall t :: Waits(Cut(q, k), t) <==> t != q[k].thread && Waits(q, t)
  {
    var r := Cut(q, k);
    assert forall i :: 0 <= i < |r| ==> r[i] == if i < k then q[i] else q[i + 1];
    forall t | t != q[k].thread && Waits(q, t)
      ensures Waits(r, t)
    {
      var i :| 0 <= i < |q| && q[i].thread == t;
      assert r[if i < k then i else i - 1] == q[i];
    }
  }

  lemma EnqueueMembers<T>(q: seq<Waiter<T>>, w: Waiter<T>, flag: Flag)
    ensures forall x :: x in Enqueue(q, w, flag) <==> x == w || x in q
  {
    var k := if flag == Fifo then |q| else Position(q, w.priority);
    assert q == q[..k] + q[k..];
  }

  lemma CutMembers<T>(q: seq<Waiter<T>>, k: nat)
    requires k < |q|
    ensures forall x :: x in Cut(q, k) ==> x in q
  {}

  lemma CutHead<T>(q: seq<Waiter<T>>)
    requires q != []
    ensures Cut(q, 0) == q[1..]
  {}

  /** The first waiter leaves. */
  lemma HeadLeaves<T>(q: seq<Waiter<T>>, flag: Flag)
    requires Unique(q) && InOrder(q, flag) && q != []
    ensures Waits(q, q[0].thread) && Unique(q[1..]) && InOrder(q[1..], flag)
    ensures forall t :: Waits(q[1..], t) <==> t != q[0].thread && Waits(q, t)
  {
    CutHead(q);
    CutThreads(q, 0, flag);
  }

  lemma WaitsCons<T>(q: seq<Waiter<T>>, t: nat)
    requires q != []
    ensures Waits(q, t) <==> t == q[0].thread || Waits(q[1..], t)
  {
    if Waits(q[1..], t) {
      var i :| 0 <= i < |q[1..]| && q[1..][i].thread == t;
      assert q[i + 1].thread == t;
    }
  }

  function ThreadsOf<T>(q: seq<Waiter<T>>): set<nat> { set i | 0 <= i < |q| :: q[i].thread }

  /** rt_ipc_list_suspend: the search of the list for the thread's place. */
  method Suspend<T>(list: seq<Waiter<T>>, w: Waiter<T>, flag: Flag) returns (list': seq<Waiter<T>>)
    ensures list' == Enqueue(list, w, flag)
  {
    if flag == Fifo {
      return list + [w];
    }
    var n := 0;
    while n < |list| && !(w.priority < list[n].priority)
      invariant n <= |list| && Position(list, w.priority) == n + Position(list[n..], w.priority)
    {
      assert list[n..][1..] == list[n + 1..];
      n := n + 1;
    }
    list' := list[..n] + [w] + list[n..];
  }

  /** rt_ipc_list_resume_all: takes the first thread off the list until it is empty. */
  method ResumeAll<T>(list: seq<Waiter<T>>) returns (resumed: seq<nat>)
    ensures |resumed| == |list| && forall i :: 0 <= i < |list| ==> resumed[i] == list[i].thread
    ensures forall t :: t in resumed <==> Waits(list, t)
  {
    var rest := list;
    resumed := [];
    while rest != []
      invariant |resumed| + |rest| == |list| && rest == list[|resumed|..]
      invariant forall i :: 0 <= i < |resumed| ==> resumed[i] == list[i].thread
    {
      resumed := resumed + [rest[0].thread];
      rest := rest[1..];
    }
    forall t | Waits(list, t)
      ensures t in resumed
    {
      var i :| 0 <= i < |list| && list[i].thread == t;
      assert resumed[i] == t;
    }
  }
}
