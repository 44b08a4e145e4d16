/** What becomes of the calls of push() and pop(): none is lost, none returns without its work done, and as long as
    some thread is under way another step can be taken. */
module StoreCalls {
  import opened Store
  import opened Wrappers
  import PriorityQueue

  // ----- every call is served once -----

  /** How often a run calls the store with this operation. */
  function Calls<T(==)>(run: seq<Step<T>>, op: Op<T>): nat {
    if run == [] then 0 else (if run[0].Call? && run[0].op == op then 1 else 0) + Calls(run[1..], op)
  }

  /** The thread has called the store with this operation, and the container has not been changed for it. */
  predicate Unserved<T(==)>(x: Thread<T>, op: Op<T>) {
    (x.Entering? || x.Testing? || x.Waiting? || x.Woken?) && x.op == op
  }

  function UnservedThreads<T(==)>(threads: map<nat, Thread<T>>, op: Op<T>): set<nat> {
    set t | t in threads && Unserved(threads[t], op)
  }

  /** How often the container was changed for this operation: items taken out, or copies of an item put in. */
  function Served<T(==)>(s: State<T>, op: Op<T>): nat {
    match op
    case Push(x) => multiset(s.pushed)[x]
    case Pop => |s.popped|
  }

  lemma UpdateUnserved<T>(threads: map<nat, Thread<T>>, t: nat, x: Thread<T>, op: Op<T>)
    requires t in threads
    ensures |UnservedThreads(threads[t := x], op)|
            == |UnservedThreads(threads, op)| - One(Unserved(threads[t], op)) + One(Unserved(x, op))
  {
    var before, after := UnservedThreads(threads, op), UnservedThreads(threads[t := x], op);
    UnservedSet(threads, t, x, op);
    hide UnservedThreads, Unserved;
  }

  lemma UnservedSet<T>(threads: map<nat, Thread<T>>, t: nat, x: Thread<T>, op: Op<T>)
    requires t in threads
    ensures UnservedThreads(threads[t := x], op)
            == UnservedThreads(threads, op) - {t} + (if Unserved(x, op) then {t} else {})
    ensures t in UnservedThreads(threads, op) <==> Unserved(threads[t], op)
  {
    hide Unserved;
  }

  /** A step of one thread: a call adds an unserved thread, a change of the container serves one, and nothing else
      moves either way. */
  lemma StepServes<T(!new)>(cfg: Config<T>, s: State<T>, e: Step<T>, op: Op<T>)
    requires Lawful(cfg) && Enabled(cfg, s, e) && !e.Notify?
    ensures var s' := Next(cfg, s, e);
            && s'.threads == s.threads[e.t := s'.threads[e.t]]
            && Served(s', op) + One(Unserved(s'.threads[e.t], op))
               == Served(s, op) + One(Unserved(s.threads[e.t], op)) + One(e.Call? && e.op == op)
  {
    ContainerEffect(cfg, s, e);
    hide PriorityQueue.Without;
  }

  lemma NotifyServes<T(!new)>(cfg: Config<T>, s: State<T>, e: Step<T>, op: Op<T>)
    requires Lawful(cfg) && Enabled(cfg, s, e) && e.Notify?
    ensures var s' := Next(cfg, s, e);
            && Served(s', op) == Served(s, op)
            && |UnservedThreads(s'.threads, op)| == |UnservedThreads(s.threads, op)|
  {
    UpdateUnserved(s.threads, e.t, Leaving, op);
    if e.woken.Some? {
      var w := e.woken.value;
      UpdateUnserved(s.threads[e.t := Leaving], w, Woken(s.threads[w].op), op);
    }
    hide UnservedThreads;
  }

  lemma NextServes<T(!new)>(cfg: Config<T>, s: State<T>, e: Step<T>, op: Op<T>)
    requires Lawful(cfg) && Enabled(cfg, s, e)
    ensures var s' := Next(cfg, s, e);
            Served(s', op) + |UnservedThreads(s'.threads, op)|
            == Served(s, op) + |UnservedThreads(s.threads, op)| + One(e.Call? && e.op == op)
  {
    if e.Notify? {
      NotifyServes(cfg, s, e, op);
    } else {
      StepServes(cfg, s, e, op);
      UpdateUnserved(s.threads, e.t, Next(cfg, s, e).threads[e.t], op);
    }
    hide Next, Enabled, UnservedThreads, Unserved, Served;
  }

  lemma {:induction false} RunServes<T(!new)>(cfg: Config<T>, s: State<T>, run: seq<Step<T>>, op: Op<T>)
    requires Lawful(cfg) && Possible(cfg, s, run)
    ensures var end := After(cfg, s, run);
            Served(end, op) + |UnservedThreads(end.threads, op)|
            == Served(s, op) + |UnservedThreads(s.threads, op)| + Calls(run, op)
    decreases |run|
  {
    hide Next, Enabled, UnservedThreads, Unserved, Served, Lawful;
    if run != [] {
      NextServes(cfg, s, run[0], op);
      RunServes(cfg, Next(cfg, s, run[0]), run[1..], op);
    }
  }

  /** In every run each call has been served exactly once, or its thread is still inside and unserved: as many items
      were taken out as pop() was called, and as many copies of every item put in as push() was called with it, but
      for those threads. A thread that is outside again has had its call served. */
  lemma CallsAreServed<T(!new)>(cfg: Config<T>, start: State<T>, run: seq<Step<T>>)
    requires Lawful(cfg) && Initial(start) && Possible(cfg, start, run)
    ensures var s := After(cfg, start, run);
            && |s.popped| + |UnservedThreads(s.threads, Op<T>.Pop)| == Calls(run, Op<T>.Pop)
            && (forall x: T :: multiset(s.pushed)[x] + |UnservedThreads(s.threads, Push(x))| == Calls(run, Push(x)))
            && (forall t, op :: t in s.threads && s.threads[t].Idle? ==> t !in UnservedThreads(s.threads, op))
  {
    var s := After(cfg, start, run);
    assert UnservedThreads(start.threads, Op<T>.Pop) == {};
    RunServes(cfg, start, run, Op<T>.Pop);
    forall x: T
      ensures multiset(s.pushed)[x] + |UnservedThreads(s.threads, Push(x))| == Calls(run, Push(x))
    {
      assert UnservedThreads(start.threads, Push(x)) == {};
      RunServes(cfg, start, run, Push(x));
    }
  }

  // ----- the threads under way get on -----

  /** A step of a thread that is under way: no new call, and no wakeup out of the blue. */
  predicate Work<T>(e: Step<T>) { !e.Call? && !e.Spurious? }

  /** In every reachable state all threads are outside or asleep, or one of them can take a step. */
  lemma SomeoneCanWork<T(!new)>(cfg: Config<T>, start: State<T>, run: seq<Step<T>>) returns (e: Step<T>)
    requires Lawful(cfg) && Initial(start) && Possible(cfg, start, run)
    requires !AllAsleep(After(cfg, start, run))
    ensures Work(e) && Enabled(cfg, After(cfg, start, run), e)
  {
    InitialInv(cfg, start);
    RunKeepsInv(cfg, start, run);
    e := NextWork(cfg, After(cfg, start, run));
  }

  lemma NextWork<T(!new)>(cfg: Config<T>, s: State<T>) returns (e: Step<T>)
    requires LockInv(s) && !AllAsleep(s)
    ensures Work(e) && Enabled(cfg, s, e)
  {
    match s.lock
    case None =>
      var t :| t in s.threads && !(s.threads[t].Idle? || s.threads[t].Waiting?);
      e := Lock(t);
    case Some(t) =>
      if s.threads[t].Testing? {
        e := Test(t);
      } else if s.threads[t].Changed? {
        e := NextNotify(cfg, s, t);
      } else {
        e := Unlock(t);
      }
  }

  lemma NextNotify<T(!new)>(cfg: Config<T>, s: State<T>, t: nat) returns (e: Step<T>)
    requires s.lock == Some(t) && t in s.threads && s.threads[t].Changed?
    ensures e.Notify? && Enabled(cfg, s, e)
  {
    var pop := s.threads[t].op.Push?;
    e := Notify(t, None);
    if w :| w in s.threads && s.threads[w].Waiting? && s.threads[w].op.Pop? == pop {
      e := Notify(t, Some(w));
    }
  }

  /** How many steps a thread may still take by itself, with one more for the thread it wakes. */
  function Weight<T>(x: Thread<T>): nat {
    match x
    case Idle => 0
    case Leaving => 1
    case Changed(_) => 4
    case Waiting(_) => 4
    case Testing(_) => 5
    case Woken(_) => 6
    case Entering(_) => 6
  }

  function Heavy<T>(threads: map<nat, Thread<T>>, k: nat): set<nat> {
    set t | t in threads && Weight(threads[t]) >= k
  }

  /** The weights of all threads together. */
  function Total<T>(threads: map<nat, Thread<T>>): nat {
    |Heavy(threads, 1)| + |Heavy(threads, 2)| + |Heavy(threads, 3)|
    + |Heavy(threads, 4)| + |Heavy(threads, 5)| + |Heavy(threads, 6)|
  }

  lemma HeavySet<T>(threads: map<nat, Thread<T>>, t: nat, x: Thread<T>, k: nat)
    requires t in threads
    ensures Heavy(threads[t := x], k) == Heavy(threads, k) - {t} + (if Weight(x) >= k then {t} else {})
    ensures t in Heavy(threads, k) <==> Weight(threads[t]) >= k
  {
    hide Weight;
  }

  lemma UpdateHeavy<T>(threads: map<nat, Thread<T>>, t: nat, x: Thread<T>, k: nat)
    requires t in threads
    ensures |Heavy(threads[t := x], k)|
            == |Heavy(threads, k)| - One(Weight(threads[t]) >= k) + One(Weight(x) >= k)
  {
    HeavySet(threads, t, x, k);
    hide Weight, Heavy;
  }

  lemma UpdateTotal<T>(threads: map<nat, Thread<T>>, t: nat, x: Thread<T>)
    requires t in threads
    ensures Total(threads[t := x]) == Total(threads) - Weight(threads[t]) + Weight(x)
  {
    UpdateHeavy(threads, t, x, 1);
    UpdateHeavy(threads, t, x, 2);
    UpdateHeavy(threads, t, x, 3);
    UpdateHeavy(threads, t, x, 4);
    UpdateHeavy(threads, t, x, 5);
    UpdateHeavy(threads, t, x, 6);
    hide Heavy;
  }

  lemma SingleLowers<T(!new)>(cfg: Config<T>, s: State<T>, e: Step<T>)
    requires Lawful(cfg) && Enabled(cfg, s, e) && Work(e) && !e.Notify?
    ensures var s' := Next(cfg, s, e);
            && s'.threads == s.threads[e.t := s'.threads[e.t]]
            && Weight(s'.threads[e.t]) < Weight(s.threads[e.t])
  {
  }

  lemma WorkLowers<T(!new)>(cfg: Config<T>, s: State<T>, e: Step<T>)
    requires Lawful(cfg) && Enabled(cfg, s, e) && Work(e)
    ensures Total(Next(cfg, s, e).threads) < Total(s.threads)
  {
    if e.Notify? {
      UpdateTotal(s.threads, e.t, Leaving);
      if e.woken.Some? {
        var w := e.woken.value;
        UpdateTotal(s.threads[e.t := Leaving], w, Woken(s.threads[w].op));
      }
    } else {
      SingleLowers(cfg, s, e);
      UpdateTotal(s.threads, e.t, Next(cfg, s, e).threads[e.t]);
    }
    hide Total;
  }

  lemma HeavyAtMostAll<T>(threads: map<nat, Thread<T>>, k: nat)
    ensures |Heavy(threads, k)| <= |threads|
  {
    assert Heavy(threads, k) <= threads.Keys;
    Smaller(Heavy(threads, k), threads.Keys);
  }

  lemma Smaller<A>(a: set<A>, b: set<A>)
    requires a <= b
    ensures |a| <= |b|
  {
    assert b == a + (b - a);
  }

  lemma {:induction false} WorkIsBounded<T(!new)>(cfg: Config<T>, s: State<T>, work: seq<Step<T>>)
    requires Lawful(cfg) && Possible(cfg, s, work) && forall i :: 0 <= i < |work| ==> Work(work[i])
    ensures |work| + Total(After(cfg, s, work).threads) <= Total(s.threads)
    decreases |work|
  {
    hide Total, Next, Enabled, Lawful;
    if work != [] {
      WorkLowers(cfg, s, work[0]);
      WorkIsBounded(cfg, Next(cfg, s, work[0]), work[1..]);
    }
  }

  /** Without new calls and spurious wakeups every interleaving comes to rest, after at most six steps for each
      thread: nobody holds the lock for ever, and nobody goes round in circles. */
  lemma WorkEnds<T(!new)>(cfg: Config<T>, s: State<T>, work: seq<Step<T>>)
    requires Lawful(cfg) && Possible(cfg, s, work) && forall i :: 0 <= i < |work| ==> Work(work[i])
    ensures |work| <= 6 * |s.threads|
  {
    WorkIsBounded(cfg, s, work);
    HeavyAtMostAll(s.threads, 1);
    HeavyAtMostAll(s.threads, 2);
    HeavyAtMostAll(s.threads, 3);
    HeavyAtMostAll(s.threads, 4);
    HeavyAtMostAll(s.threads, 5);
    HeavyAtMostAll(s.threads, 6);
    hide Possible, Lawful, Heavy;
  }
}
