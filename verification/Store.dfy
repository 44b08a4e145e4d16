/** Store<T, Container>: a bounded monitor with one lock and two condition variables, and any number of
    producer and consumer threads. The container decides which item front() and pop() take. */
module Store {
  import opened Wrappers
  import PriorityQueue

  datatype Op<T> = Push(item: T) | Pop

  /** Where a thread is in push() or pop(). */
  datatype Thread<T> =
    | Idle
    | Entering(op: Op<T>)  // wants the lock at the head of the function
    | Testing(op: Op<T>)   // has the lock, about to evaluate the loop condition
    | Waiting(op: Op<T>)   // asleep in condition.wait
    | Woken(op: Op<T>)     // notified or woken spuriously, wants the lock back
    | Changed(op: Op<T>)   // has the lock, has changed the container, about to notify
    | Leaving              // has the lock, about to release it

  /** pushed and popped record, in lock order, what went in and came out. */
  datatype State<T> = State(
    store: seq<T>, lock: Option<nat>, threads: map<nat, Thread<T>>, pushed: seq<T>, popped: seq<T>)

  datatype Step<T> =
    | Call(t: nat, op: Op<T>)
    | Lock(t: nat)
    | Test(t: nat)
    | Notify(t: nat, woken: Option<nat>)
    | Unlock(t: nat)
    | Spurious(t: nat)

  /** Capacity and container of one store. */
  datatype Config<!T> = Config(capacity: nat, pick: seq<T> -> nat)

  /** The container takes an item it has. */
  ghost predicate Lawful<T(!new)>(cfg: Config<T>) {
    forall s: seq<T> :: s != [] ==> cfg.pick(s) < |s|
  }

  predicate Full<T>(cfg: Config<T>, s: State<T>) { |s.store| >= cfg.capacity }

  /** notify_one: no thread when none waits, otherwise any one of the waiting threads. */
  predicate NotifyChoice<T>(s: State<T>, pop: bool, woken: Option<nat>) {
    match woken
    case Some(w) => w in s.threads && s.threads[w].Waiting? && s.threads[w].op.Pop? == pop
    case None => forall w :: w in s.threads && s.threads[w].Waiting? ==> s.threads[w].op.Pop? != pop
  }

  predicate Enabled<T>(cfg: Config<T>, s: State<T>, e: Step<T>) {
    && e.t in s.threads
    && match e {
         case Call(t, op) => s.threads[t].Idle?
         case Lock(t) => s.lock == None && (s.threads[t].Entering? || s.threads[t].Woken?)
         case Test(t) => s.lock == Some(t) && s.threads[t].Testing?
         case Notify(t, woken) =>
           s.lock == Some(t) && s.threads[t].Changed? && NotifyChoice(s, s.threads[t].op.Push?, woken)
         case Unlock(t) => s.lock == Some(t) && s.threads[t].Leaving?
         case Spurious(t) => s.threads[t].Waiting?
       }
  }

  function Next<T>(cfg: Config<T>, s: State<T>, e: Step<T>): State<T>
    requires Enabled(cfg, s, e)
    requires s.store != [] ==> cfg.pick(s.store) < |s.store|
  {
    match e
    case Call(t, op) => s.(threads := s.threads[t := Entering(op)])
    case Lock(t) => s.(lock := Some(t), threads := s.threads[t := Testing(s.threads[t].op)])
    case Test(t) =>
      var op := s.threads[t].op;
      if op.Push? then
        if Full(cfg, s) then s.(lock := None, threads := s.threads[t := Waiting(op)])
        else s.(store := s.store + [op.item], pushed := s.pushed + [op.item], threads := s.threads[t := Changed(op)])
      else if s.store == [] then s.(lock := None, threads := s.threads[t := Waiting(op)])
      else
        var i := cfg.pick(s.store);
        s.(store := PriorityQueue.Without(s.store, i), popped := s.popped + [s.store[i]],
           threads := s.threads[t := Changed(op)])
    case Notify(t, woken) =>
      var left := s.threads[t := Leaving];
      s.(threads := if woken.None? then left else left[woken.value := Woken(s.threads[woken.value].op)])
    case Unlock(t) => s.(lock := None, threads := s.threads[t := Idle])
    case Spurious(t) => s.(threads := s.threads[t := Woken(s.threads[t].op)])
  }

  predicate Possible<T(!new)>(cfg: Config<T>, s: State<T>, run: seq<Step<T>>)
    decreases |run|
  {
    run == []
    || (&& Enabled(cfg, s, run[0])
        && (s.store != [] ==> cfg.pick(s.store) < |s.store|)
        && Possible(cfg, Next(cfg, s, run[0]), run[1..]))
  }

  function After<T(!new)>(cfg: Config<T>, s: State<T>, run: seq<Step<T>>): State<T>
    requires Possible(cfg, s, run)
    decreases |run|
  {
    if run == [] then s else After(cfg, Next(cfg, s, run[0]), run[1..])
  }

  /** Every thread outside the store, nothing stored. */
  predicate Initial<T>(s: State<T>) {
    && s.store == [] && s.lock == None && s.pushed == [] && s.popped == []
    && forall t :: t in s.threads ==> s.threads[t].Idle?
  }

  // ----- counting threads -----

  /** What matters of a thread that does not hold the lock: asleep on, or woken from, a condition. */
  datatype Role = Asleep(pop: bool) | Awake(pop: bool) | Other

  function RoleOf<T>(x: Thread<T>): Role {
    match x
    case Waiting(op) => Asleep(op.Pop?)
    case Woken(op) => Awake(op.Pop?)
    case _ => Other
  }

  function InRole<T>(threads: map<nat, Thread<T>>, r: Role): set<nat> {
    set t | t in threads && RoleOf(threads[t]) == r
  }

  /** One when the lock holder is about to notify the threads of this kind, or to test as one of them. */
  function Running<T>(s: State<T>, pop: bool): nat {
    match s.lock
    case None => 0
    case Some(t) =>
      if t in s.threads && ((s.threads[t].Changed? && s.threads[t].op.Pop? != pop)
                            || (s.threads[t].Testing? && s.threads[t].op.Pop? == pop)) then 1 else 0
  }

  /** The lock is held by exactly one thread inside a function, or by none. */
  ghost predicate LockInv<T>(s: State<T>) {
    && (s.lock.Some? ==> s.lock.value in s.threads)
    && forall t :: t in s.threads ==>
         ((s.threads[t].Testing? || s.threads[t].Changed? || s.threads[t].Leaving?) <==> s.lock == Some(t))
  }

  /** What the threads of one kind are waiting for: items, or free slots. */
  function Available<T>(cfg: Config<T>, s: State<T>, pop: bool): int {
    if pop then |s.store| else cfg.capacity - |s.store|
  }

  /** If a consumer sleeps, enough consumers are under way for the stored items; the same for producers
      and free slots. */
  ghost predicate WakeInv<T>(cfg: Config<T>, s: State<T>, pop: bool) {
    InRole(s.threads, Asleep(pop)) != {} ==>
      |InRole(s.threads, Awake(pop))| + Running(s, pop) >= Available(cfg, s, pop)
  }

  ghost predicate Inv<T>(cfg: Config<T>, s: State<T>) {
    LockInv(s) && |s.store| <= cfg.capacity && WakeInv(cfg, s, true) && WakeInv(cfg, s, false)
  }

  lemma UpdateSet<T>(threads: map<nat, Thread<T>>, t: nat, x: Thread<T>, r: Role)
    requires t in threads
    ensures InRole(threads[t := x], r) == InRole(threads, r) - {t} + (if RoleOf(x) == r then {t} else {})
    ensures t in InRole(threads, r) <==> RoleOf(threads[t]) == r
  {
    hide RoleOf;
  }

  /** What changing one thread does to the threads in a role, and to their number. */
  lemma Update<T>(threads: map<nat, Thread<T>>, t: nat, x: Thread<T>, r: Role)
    requires t in threads
    ensures var before, after := InRole(threads, r), InRole(threads[t := x], r);
            && after == before - {t} + (if RoleOf(x) == r then {t} else {})
            && |after| == |before| - (if RoleOf(threads[t]) == r then 1 else 0) + (if RoleOf(x) == r then 1 else 0)
  {
    UpdateSet(threads, t, x, r);
    hide RoleOf, InRole;
  }

  lemma NextKeepsLock<T(!new)>(cfg: Config<T>, s: State<T>, e: Step<T>)
    requires Lawful(cfg) && LockInv(s) && |s.store| <= cfg.capacity && Enabled(cfg, s, e)
    ensures var s' := Next(cfg, s, e); LockInv(s') && |s'.store| <= cfg.capacity
  {
  }

  function One(b: bool): nat { if b then 1 else 0 }

  /** How a step that changes one thread shifts the balance of one kind. */
  lemma SingleEffect<T(!new)>(cfg: Config<T>, s: State<T>, e: Step<T>, pop: bool)
    requires Lawful(cfg) && LockInv(s) && Enabled(cfg, s, e) && !e.Notify?
    ensures var s' := Next(cfg, s, e);
            var old', new' := RoleOf(s.threads[e.t]), RoleOf(s'.threads[e.t]);
            && s'.threads == s.threads[e.t := s'.threads[e.t]]
            && if new' == Asleep(pop) then Available(cfg, s', pop) <= 0
               else Running(s', pop) + One(new' == Awake(pop)) - Available(cfg, s', pop)
                    >= Running(s, pop) + One(old' == Awake(pop)) - Available(cfg, s, pop)
  {
  }

  lemma SingleKeepsWake<T(!new)>(cfg: Config<T>, s: State<T>, e: Step<T>, pop: bool)
    requires Lawful(cfg) && LockInv(s) && WakeInv(cfg, s, pop) && Enabled(cfg, s, e) && !e.Notify?
    ensures WakeInv(cfg, Next(cfg, s, e), pop)
  {
    hide RoleOf, InRole, Running, Available, LockInv, Next;
    SingleEffect(cfg, s, e, pop);
    var x := Next(cfg, s, e).threads[e.t];
    Update(s.threads, e.t, x, Asleep(pop));
    Update(s.threads, e.t, x, Awake(pop));
  }

  /** What a notification does: the notifier is done, and one sleeper of the other kind, if any, is woken. */
  lemma NotifyEffect<T(!new)>(cfg: Config<T>, s: State<T>, e: Step<T>, pop: bool)
    requires Lawful(cfg) && LockInv(s) && Enabled(cfg, s, e) && e.Notify?
    ensures var s' := Next(cfg, s, e);
            var matches := s.threads[e.t].op.Push? == pop;
            && RoleOf(s.threads[e.t]) == Other
            && Running(s, pop) == One(matches) && Running(s', pop) == 0
            && Available(cfg, s', pop) == Available(cfg, s, pop)
            && (match e.woken
                case None =>
                  && s'.threads == s.threads[e.t := Leaving]
                  && (matches ==> InRole(s.threads, Asleep(pop)) == {})
                case Some(w) =>
                  && w in s.threads && w != e.t
                  && s'.threads == s.threads[e.t := Leaving][w := s'.threads[w]]
                  && RoleOf(s.threads[w]) == Asleep(s.threads[e.t].op.Push?)
                  && RoleOf(s'.threads[w]) == Awake(s.threads[e.t].op.Push?))
  {
  }

  lemma NotifyKeepsWake<T(!new)>(cfg: Config<T>, s: State<T>, e: Step<T>, pop: bool)
    requires Lawful(cfg) && LockInv(s) && WakeInv(cfg, s, pop) && Enabled(cfg, s, e) && e.Notify?
    ensures WakeInv(cfg, Next(cfg, s, e), pop)
  {
    NotifyEffect(cfg, s, e, pop);
    assert RoleOf<T>(Leaving) == Other;
    hide RoleOf, InRole, Running, Available, LockInv, Next;
    Update(s.threads, e.t, Leaving, Asleep(pop));
    Update(s.threads, e.t, Leaving, Awake(pop));
    if e.woken.Some? {
      var left := s.threads[e.t := Leaving];
      var w := e.woken.value;
      var x := Next(cfg, s, e).threads[w];
      Update(left, w, x, Asleep(pop));
      Update(left, w, x, Awake(pop));
    }
  }

  lemma NextKeepsInv<T(!new)>(cfg: Config<T>, s: State<T>, e: Step<T>)
    requires Lawful(cfg) && Inv(cfg, s) && Enabled(cfg, s, e)
    ensures Inv(cfg, Next(cfg, s, e))
  {
    NextKeepsLock(cfg, s, e);
    if e.Notify? {
      NotifyKeepsWake(cfg, s, e, true);
      NotifyKeepsWake(cfg, s, e, false);
    } else {
      SingleKeepsWake(cfg, s, e, true);
      SingleKeepsWake(cfg, s, e, false);
    }
  }

  lemma InitialInv<T>(cfg: Config<T>, s: State<T>)
    requires Initial(s)
    ensures Inv(cfg, s)
  {
    assert InRole(s.threads, Asleep(true)) == {} && InRole(s.threads, Asleep(false)) == {};
  }

  lemma {:induction false} RunKeepsInv<T(!new)>(cfg: Config<T>, s: State<T>, run: seq<Step<T>>)
    requires Lawful(cfg) && Inv(cfg, s) && Possible(cfg, s, run)
    ensures Inv(cfg, After(cfg, s, run))
    decreases |run|
  {
    if run != [] {
      NextKeepsInv(cfg, s, run[0]);
      RunKeepsInv(cfg, Next(cfg, s, run[0]), run[1..]);
    }
  }

  // ----- the theorems -----

  /** No lost wakeup: in every reachable state, while a consumer sleeps the woken consumers and the thread
      at work cover the stored items, and dually for producers and free slots. */
  lemma NoLostWakeup<T(!new)>(cfg: Config<T>, start: State<T>, run: seq<Step<T>>)
    requires Lawful(cfg) && Initial(start) && Possible(cfg, start, run)
    ensures var s := After(cfg, start, run);
            && |s.store| <= cfg.capacity
            && (InRole(s.threads, Asleep(true)) != {} ==>
                  |InRole(s.threads, Awake(true))| + Running(s, true) >= |s.store|)
            && (InRole(s.threads, Asleep(false)) != {} ==>
                  |InRole(s.threads, Awake(false))| + Running(s, false) >= cfg.capacity - |s.store|)
  {
    InitialInv(cfg, start);
    RunKeepsInv(cfg, start, run);
  }

  /** Every thread is outside the store or asleep in it: only a spurious wakeup or a new call can follow. */
  predicate AllAsleep<T>(s: State<T>) {
    forall t :: t in s.threads ==> s.threads[t].Idle? || s.threads[t].Waiting?
  }

  /** When nobody is under way, sleeping consumers mean an empty store and sleeping producers a full one;
      so with a capacity above zero the two kinds never sleep together. */
  lemma NoDeadlock<T(!new)>(cfg: Config<T>, start: State<T>, run: seq<Step<T>>)
    requires Lawful(cfg) && Initial(start) && Possible(cfg, start, run) && AllAsleep(After(cfg, start, run))
    ensures var s := After(cfg, start, run);
            && (InRole(s.threads, Asleep(true)) != {} ==> s.store == [])
            && (InRole(s.threads, Asleep(false)) != {} ==> |s.store| == cfg.capacity)
            && (cfg.capacity > 0 ==> InRole(s.threads, Asleep(true)) == {} || InRole(s.threads, Asleep(false)) == {})
  {
    InitialInv(cfg, start);
    RunKeepsInv(cfg, start, run);
    var s := After(cfg, start, run);
    assert InRole(s.threads, Awake(true)) == {} && InRole(s.threads, Awake(false)) == {};
  }

  lemma OneStep<T(!new)>(cfg: Config<T>, s: State<T>, e: Step<T>, rest: seq<Step<T>>)
    requires Lawful(cfg) && Enabled(cfg, s, e) && Possible(cfg, Next(cfg, s, e), rest)
    ensures Possible(cfg, s, [e] + rest) && After(cfg, s, [e] + rest) == After(cfg, Next(cfg, s, e), rest)
  {
    assert ([e] + rest)[1..] == rest;
  }

  /** With no capacity, and no lock held, a producer and a consumer that call in end up asleep. */
  lemma CallsIntoSleep<T(!new)>(cfg: Config<T>, s: State<T>, t: nat, op: Op<T>, rest: seq<Step<T>>)
    requires Lawful(cfg) && cfg.capacity == 0 && s.store == [] && s.lock == None
    requires t in s.threads && s.threads[t].Idle?
    requires Possible(cfg, s.(threads := s.threads[t := Waiting(op)]), rest)
    ensures var run := [Call(t, op), Lock(t), Test(t)] + rest;
            && Possible(cfg, s, run)
            && After(cfg, s, run) == After(cfg, s.(threads := s.threads[t := Waiting(op)]), rest)
  {
    var s1 := Next(cfg, s, Call(t, op));
    var s2 := Next(cfg, s1, Lock(t));
    var s3 := Next(cfg, s2, Test(t));
    assert s3.threads == s.threads[t := Waiting(op)];
    hide Possible, After;
    OneStep(cfg, s2, Test(t), rest);
    OneStep(cfg, s1, Lock(t), [Test(t)] + rest);
    OneStep(cfg, s, Call(t, op), [Lock(t)] + ([Test(t)] + rest));
    assert [Call(t, op)] + ([Lock(t)] + ([Test(t)] + rest)) == [Call(t, op), Lock(t), Test(t)] + rest;
  }

  /** The bound on the capacity is needed: with capacity 0 one producer and one consumer both end up asleep. */
  lemma ZeroCapacityDeadlocks<T(!new)>(cfg: Config<T>, x: T) returns (start: State<T>, run: seq<Step<T>>)
    requires Lawful(cfg) && cfg.capacity == 0
    ensures Initial(start) && Possible(cfg, start, run)
    ensures var s := After(cfg, start, run);
            && AllAsleep(s)
            && InRole(s.threads, Asleep(true)) != {} && InRole(s.threads, Asleep(false)) != {}
  {
    start := State([], None, map[0 := Idle, 1 := Idle], [], []);
    var middle := start.(threads := start.threads[0 := Waiting(Push(x))]);
    var end := middle.(threads := middle.threads[1 := Waiting(Pop)]);
    CallsIntoSleep(cfg, middle, 1, Pop, []);
    CallsIntoSleep(cfg, start, 0, Push(x), [Call(1, Pop), Lock(1), Test(1)] + []);
    run := [Call(0, Push(x)), Lock(0), Test(0)] + ([Call(1, Pop), Lock(1), Test(1)] + []);
    assert 0 in InRole(end.threads, Asleep(false)) && 1 in InRole(end.threads, Asleep(true));
    assert After(cfg, end, []) == end;
  }

  /** Nothing is lost or invented: what went in is what came out plus what is stored. */
  lemma {:induction false} Conservation<T(!new)>(cfg: Config<T>, s: State<T>, run: seq<Step<T>>)
    requires Lawful(cfg) && Possible(cfg, s, run)
    requires multiset(s.pushed) == multiset(s.popped) + multiset(s.store)
    ensures var end := After(cfg, s, run);
            multiset(end.pushed) == multiset(end.popped) + multiset(end.store)
    decreases |run|
  {
    if run != [] {
      NextConserves(cfg, s, run[0]);
      Conservation(cfg, Next(cfg, s, run[0]), run[1..]);
    }
  }

  /** What a step does to the container and to the records of what went in and came out. */
  lemma ContainerEffect<T(!new)>(cfg: Config<T>, s: State<T>, e: Step<T>)
    requires Lawful(cfg) && Enabled(cfg, s, e)
    ensures var s' := Next(cfg, s, e);
            var op := if e.Test? then s.threads[e.t].op else Pop;
            if e.Test? && op.Push? && !Full(cfg, s) then
              s'.store == s.store + [op.item] && s'.pushed == s.pushed + [op.item] && s'.popped == s.popped
            else if e.Test? && op.Pop? && s.store != [] then
              var i := cfg.pick(s.store);
              && i < |s.store| && s'.store == PriorityQueue.Without(s.store, i)
              && s'.pushed == s.pushed && s'.popped == s.popped + [s.store[i]]
            else s'.store == s.store && s'.pushed == s.pushed && s'.popped == s.popped
  {
    hide PriorityQueue.Without;
  }

  lemma TakeConserves<T>(pushed: seq<T>, popped: seq<T>, c: seq<T>, i: nat)
    requires i < |c| && multiset(pushed) == multiset(popped) + multiset(c)
    ensures multiset(pushed) == multiset(popped + [c[i]]) + multiset(PriorityQueue.Without(c, i))
  {
    assert c == c[..i] + [c[i]] + c[i + 1..];
  }

  lemma NextConserves<T(!new)>(cfg: Config<T>, s: State<T>, e: Step<T>)
    requires Lawful(cfg) && Enabled(cfg, s, e)
    requires multiset(s.pushed) == multiset(s.popped) + multiset(s.store)
    ensures var s' := Next(cfg, s, e);
            multiset(s'.pushed) == multiset(s'.popped) + multiset(s'.store)
  {
    ContainerEffect(cfg, s, e);
    if e.Test? && s.threads[e.t].op.Pop? && s.store != [] {
      TakeConserves(s.pushed, s.popped, s.store, cfg.pick(s.store));
    }
    hide Next, Enabled, Lawful, Full, PriorityQueue.Without;
  }

  ghost predicate IsFifo<T(!new)>(cfg: Config<T>) {
    forall s: seq<T> :: s != [] ==> cfg.pick(s) == 0
  }

  /** Over a first-in first-out container the items leave in the order in which they entered. */
  lemma {:induction false} FifoOrder<T(!new)>(cfg: Config<T>, s: State<T>, run: seq<Step<T>>)
    requires IsFifo(cfg) && Possible(cfg, s, run) && s.pushed == s.popped + s.store
    ensures var end := After(cfg, s, run); end.pushed == end.popped + end.store
    decreases |run|
  {
    if run != [] {
      NextKeepsFifo(cfg, s, run[0]);
      FifoOrder(cfg, Next(cfg, s, run[0]), run[1..]);
    }
  }

  lemma NextKeepsFifo<T(!new)>(cfg: Config<T>, s: State<T>, e: Step<T>)
    requires IsFifo(cfg) && Enabled(cfg, s, e) && s.pushed == s.popped + s.store
    ensures var s' := Next(cfg, s, e); s'.pushed == s'.popped + s'.store
  {
    if e.Test? && s.threads[e.t].op.Pop? && s.store != [] {
      assert s.popped + s.store == s.popped + [s.store[0]] + s.store[1..];
    }
  }

  /** LogStore_priority: the store over the priority queue, whose container picks the top item. */
  function Prioritised<T, F(==)>(capacity: nat, factorOf: T -> F, factors: seq<F>): Config<T> {
    Config(capacity, (c: seq<T>) => if c == [] then 0 else PriorityQueue.TopIndex(factorOf, factors, c))
  }

  /** Over the log queue, producers and consumers in any interleaving see each factor in lock order. */
  lemma {:induction false} PriorityOrder<T(!new), F>(
      capacity: nat, factorOf: T -> F, factors: seq<F>, s: State<T>, run: seq<Step<T>>, r: nat)
    requires Possible(Prioritised(capacity, factorOf, factors), s, run)
    requires PriorityQueue.OfRank(factorOf, factors, s.popped, r) + PriorityQueue.OfRank(factorOf, factors, s.store, r)
             == PriorityQueue.OfRank(factorOf, factors, s.pushed, r)
    ensures Lawful(Prioritised(capacity, factorOf, factors))
    ensures var end := After(Prioritised(capacity, factorOf, factors), s, run);
            PriorityQueue.OfRank(factorOf, factors, end.popped, r)
            + PriorityQueue.OfRank(factorOf, factors, end.store, r)
            == PriorityQueue.OfRank(factorOf, factors, end.pushed, r)
    decreases |run|
  {
    if run != [] {
      var cfg := Prioritised(capacity, factorOf, factors);
      NextKeepsPriority(capacity, factorOf, factors, s, run[0], r);
      PriorityOrder(capacity, factorOf, factors, Next(cfg, s, run[0]), run[1..], r);
    }
  }

  lemma NextKeepsPriority<T(!new), F>(
      capacity: nat, factorOf: T -> F, factors: seq<F>, s: State<T>, e: Step<T>, r: nat)
    requires Enabled(Prioritised(capacity, factorOf, factors), s, e)
    requires PriorityQueue.OfRank(factorOf, factors, s.popped, r) + PriorityQueue.OfRank(factorOf, factors, s.store, r)
             == PriorityQueue.OfRank(factorOf, factors, s.pushed, r)
    ensures var s' := Next(Prioritised(capacity, factorOf, factors), s, e);
            PriorityQueue.OfRank(factorOf, factors, s'.popped, r) + PriorityQueue.OfRank(factorOf, factors, s'.store, r)
            == PriorityQueue.OfRank(factorOf, factors, s'.pushed, r)
  {
    if e.Test? {
      var h := PriorityQueue.History(s.store, s.pushed, s.popped);
      var op := if s.threads[e.t].op.Push? then PriorityQueue.Push(s.threads[e.t].op.item) else PriorityQueue.Pop;
      PriorityQueue.FifoStep(factorOf, factors, h, op, r);
    }
  }
}
