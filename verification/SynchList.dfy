/**
 The synchronized list (threads/synchlist.cc) on its lock, condition variable and per-waiter
 semaphores (threads/synch.cc), as a transition system: any number of threads, one step per
 section of code that runs without a preemption point.
 */
module SynchList {
  import opened Options
  import opened Lists

  type Tid = int
  type Item = int

  /** Why a thread acquires the lock: to append, to remove, or again after `Condition::Wait`. */
  datatype Goal = ForAppend(item: Item) | ForRemove | ForReacquire

  /** What a thread does after `Lock::Release`. */
  datatype After = Return | Await

  /** The next step of a thread. */
  datatype Pc =
    | Outside
    | Acquire(goal: Goal, woken: bool)   // in the lock semaphore's P, about to test its value
    | AcquireAsleep(goal: Goal)          // queued on the lock semaphore
    | Acquired(goal: Goal)               // P has returned, lockHolder not yet assigned
    | AppendItem(item: Item)
    | Signal                             // about to look at the wait queue
    | SignalV(waiter: Tid)               // about to V the removed waiter's semaphore
    | SignalReturn(waiter: Tid)          // that V has taken effect but not returned
    | Test(woken: bool)                  // the loop test of RemoveFront; woken after a Wait
    | Enqueue                            // allocate a semaphore and join the wait queue
    | Take
    | ClearHolder(after: After)          // first half of Release
    | ReleaseV(after: After)             // second half of Release: the lock semaphore's V
    | WaitP                              // in the own waiter semaphore's P, about to test
    | WaitAsleep
    | DeleteWaiter                       // lock reacquired; delete the own semaphore

  /**
   `waiter` maps each thread inside `Condition::Wait` to the value of the semaphore it allocated
   there (a thread owns at most one, so the owner identifies it); a deleted semaphore is not in it.
   */
  datatype State = State(
    pc: map<Tid, Pc>,
    value: nat, lockQueue: seq<Tid>, holder: Option<Tid>,
    waitQueue: seq<Tid>, waiter: map<Tid, nat>,
    list: seq<Item>, appended: seq<Item>, removed: seq<Item>)

  datatype Event = BeginAppend(t: Tid, item: Item) | BeginRemove(t: Tid) | Step(t: Tid)

  predicate Init(s: State) {
    && (forall t :: t in s.pc ==> s.pc[t] == Outside)
    && s.value == 1 && s.lockQueue == [] && s.holder == None
    && s.waitQueue == [] && s.waiter == map[]
    && s.list == [] && s.appended == [] && s.removed == []
  }

  /** Threads that a scheduler could run. */
  predicate Runnable(s: State, t: Tid) {
    t in s.pc && !s.pc[t].Outside? && !s.pc[t].AcquireAsleep? && !s.pc[t].WaitAsleep?
  }

  /**
   What the code asserts, or silently relies on, at a step; `List::Append` asserts that its item is not yet
   listed.
   */
  predicate Safe(s: State, t: Tid)
    requires t in s.pc
  {
    match s.pc[t]
    case AppendItem(x) => x !in s.list
    case Signal => s.holder == Some(t)
    case SignalV(w) => w in s.waiter && w in s.pc
    case SignalReturn(w) => w in s.waiter
    case Enqueue => s.holder == Some(t) && t !in s.waiter && t !in s.waitQueue
    case Take => s.list != []
    case ClearHolder(_) => s.holder == Some(t)
    case ReleaseV(_) => forall u :: u in s.lockQueue ==> u in s.pc && s.pc[u].AcquireAsleep?
    case WaitP => t in s.waiter
    case DeleteWaiter => t in s.waiter && t !in s.waitQueue
    case _ => true
  }

  function At(s: State, t: Tid, p: Pc): State {
    s.(pc := s.pc[t := p])
  }

  function Act(s: State, t: Tid): State
    requires Runnable(s, t) && Safe(s, t)
  {
    match s.pc[t]
    case Acquire(g, _) =>
      if s.value > 0 then At(s, t, Acquired(g)).(value := s.value - 1)
      else At(s, t, AcquireAsleep(g)).(lockQueue := s.lockQueue + [t])
    case Acquired(g) =>
      At(s, t,
         match g case ForAppend(x) => AppendItem(x) case ForRemove => Test(false) case ForReacquire => DeleteWaiter)
        .(holder := Some(t))
    case AppendItem(x) => At(s, t, Signal).(list := s.list + [x], appended := s.appended + [x])
    case Signal =>
      if s.waitQueue == [] then At(s, t, ClearHolder(Return))
      else At(s, t, SignalV(s.waitQueue[0])).(waitQueue := s.waitQueue[1..])
    case SignalV(w) =>
      var s1 := if s.pc[w].WaitAsleep? then At(s, w, WaitP) else s;
      At(s1, t, SignalReturn(w)).(waiter := s.waiter[w := s.waiter[w] + 1])
    case SignalReturn(_) => At(s, t, ClearHolder(Return))
    case Test(_) => At(s, t, if s.list == [] then Enqueue else Take)
    case Enqueue => At(s, t, ClearHolder(Await)).(waiter := s.waiter[t := 0], waitQueue := s.waitQueue + [t])
    case Take => At(s, t, ClearHolder(Return)).(list := s.list[1..], removed := s.removed + [s.list[0]])
    case ClearHolder(a) => At(s, t, ReleaseV(a)).(holder := None)
    case ReleaseV(a) =>
      var s1 := if s.lockQueue == [] then s
                else At(s, s.lockQueue[0], Acquire(s.pc[s.lockQueue[0]].goal, true)).(lockQueue := s.lockQueue[1..]);
      At(s1, t, if a.Return? then Outside else WaitP).(value := s.value + 1)
    case WaitP =>
      if s.waiter[t] > 0 then At(s, t, Acquire(ForReacquire, false)).(waiter := s.waiter[t := s.waiter[t] - 1])
      else At(s, t, WaitAsleep)
    case DeleteWaiter => At(s, t, Test(true)).(waiter := s.waiter - {t})
  }

  /** A failed assertion stops the machine, so a run goes on only by safe steps. */
  predicate Next(s: State, e: Event, s': State) {
    match e
    case BeginAppend(t, x) => t in s.pc && s.pc[t].Outside? && s' == At(s, t, Acquire(ForAppend(x), false))
    case BeginRemove(t) => t in s.pc && s.pc[t].Outside? && s' == At(s, t, Acquire(ForRemove, false))
    case Step(t) => Runnable(s, t) && Safe(s, t) && s' == Act(s, t)
  }

  predicate IsRun(states: seq<State>, events: seq<Event>) {
    && |states| == |events| + 1
    && Init(states[0])
    && forall i :: 0 <= i < |events| ==> Next(states[i], events[i], states[i + 1])
  }

  // ---- the invariant ----

  /** Between the lock semaphore's P and its V. */
  predicate Inside(p: Pc) {
    p.Acquired? || p.AppendItem? || p.Signal? || p.SignalV? || p.SignalReturn? || p.Test? || p.Enqueue? || p.Take?
    || p.ClearHolder? || p.ReleaseV? || p.DeleteWaiter?
  }

  /** At most one thread is inside, and then the semaphore is down; `lockHolder` names it while it may be used. */
  ghost predicate Mutex(s: State) {
    && s.value <= 1
    && (forall t, u :: t in s.pc && u in s.pc && Inside(s.pc[t]) && Inside(s.pc[u]) ==> t == u)
    && (s.value == 0 <==> exists t :: t in s.pc && Inside(s.pc[t]))
    && (forall t :: t in s.pc && Inside(s.pc[t]) && !s.pc[t].Acquired? && !s.pc[t].ReleaseV? ==> s.holder == Some(t))
  }

  /**
   The lock's queue holds exactly the sleepers; if the lock is free while someone sleeps, a woken thread is
   about to retest.
   */
  ghost predicate LockQueue(s: State) {
    && NoRepeats(s.lockQueue)
    && (forall t :: t in s.lockQueue <==> t in s.pc && s.pc[t].AcquireAsleep?)
    && (s.lockQueue != [] && s.value > 0 ==> exists t :: t in s.pc && s.pc[t].Acquire? && s.pc[t].woken)
  }

  predicate Fifo(s: State) {
    && s.appended == s.removed + s.list
    && (forall t :: t in s.pc && s.pc[t].Take? ==> s.list != [])
    && (forall t :: t in s.pc && s.pc[t].Enqueue? ==> s.list == [])
  }

  /** Inside `Condition::Wait`, from joining the queue to deleting the semaphore. */
  predicate Waiting(p: Pc) {
    p == ClearHolder(Await) || p == ReleaseV(Await) || Unserved(p) || Served(p)
  }

  /** In `Wait`, lock released, the own semaphore's P not yet completed. */
  predicate Unserved(p: Pc) { p.WaitP? || p.WaitAsleep? }

  /** In `Wait`, past the own semaphore's P. */
  predicate Served(p: Pc) {
    p.DeleteWaiter? || ((p.Acquire? || p.AcquireAsleep? || p.Acquired?) && p.goal.ForReacquire?)
  }

  predicate BeingSignalled(s: State, w: Tid) {
    exists u :: u in s.pc && s.pc[u] == SignalV(w)
  }

  /** A thread owns a waiter semaphore exactly while it is inside `Wait`. */
  ghost predicate WaiterSet(s: State) { forall t :: t in s.waiter <==> t in s.pc && Waiting(s.pc[t]) }

  /** Threads in the wait queue have not been signalled; those about to sleep are in it. */
  ghost predicate Queued(s: State)
    requires WaiterSet(s)
  {
    && (forall t :: t in s.waitQueue ==> t in s.waiter && s.waiter[t] == 0 && !Served(s.pc[t]))
    && (forall t :: t in s.waiter && s.pc[t] == ClearHolder(Await) ==> t in s.waitQueue)
    && (forall t :: t in s.waiter && s.pc[t] == ReleaseV(Await) ==> t in s.waitQueue)
    && (forall t :: t in s.waiter && s.pc[t].WaitAsleep? ==> s.waiter[t] == 0)
  }

  /** A waiter off the queue whose semaphore is still zero is about to be signalled. */
  ghost predicate Signalled(s: State)
    requires WaiterSet(s)
  {
    forall t :: t in s.waiter && Unserved(s.pc[t]) && t !in s.waitQueue && s.waiter[t] == 0 ==> BeingSignalled(s, t)
  }

  /** A thread about to signal, or signalling, has a live semaphore to signal. */
  ghost predicate Signallers(s: State)
    requires WaiterSet(s)
  {
    && (forall u :: u in s.pc && s.pc[u].SignalV? ==>
          var w := s.pc[u].waiter;
          w in s.waiter && Unserved(s.pc[w]) && w !in s.waitQueue && s.waiter[w] == 0)
    && (forall u :: u in s.pc && s.pc[u].SignalReturn? ==> s.pc[u].waiter in s.waiter)
  }

  ghost predicate Waiters(s: State) {
    NoRepeats(s.waitQueue) && WaiterSet(s) && Queued(s) && Signalled(s) && Signallers(s)
  }

  /** Signalled, and not yet back at the loop test. */
  predicate MustRecheck(s: State, t: Tid) {
    t in s.pc && ((Unserved(s.pc[t]) && t !in s.waitQueue) || Served(s.pc[t]) || s.pc[t] == Test(true))
  }

  ghost function Recheckers(s: State): set<Tid> {
    set t | t in s.pc && MustRecheck(s, t)
  }

  /** One item may be unaccounted for between an append and its signal, or between a test and its removal. */
  predicate Slack(s: State) {
    exists t :: t in s.pc && (s.pc[t].Signal? || s.pc[t].Take?)
  }

  ghost predicate NoLostSignal(s: State) {
    s.waitQueue != [] ==> |s.list| <= |Recheckers(s)| + (if Slack(s) then 1 else 0)
  }

  ghost predicate Inv(s: State) {
    Mutex(s) && LockQueue(s) && Fifo(s) && Waiters(s) && NoLostSignal(s)
  }

  // ---- every step keeps it ----

  /** The one assertion that can fail: appending an item that the list already holds. */
  predicate AppendsListed(s: State, t: Tid)
    requires t in s.pc
  { s.pc[t].AppendItem? && s.pc[t].item in s.list }

  lemma SafeSteps(s: State, t: Tid)
    requires Inv(s) && Runnable(s, t)
    ensures Safe(s, t) <==> !AppendsListed(s, t)
  {
  }

  /** How a step of one thread may change another: not at all, or by waking it. */
  predicate Kin(p: Pc, q: Pc) {
    p == q || (p.WaitAsleep? && q.WaitP?) || (p.AcquireAsleep? && q == Acquire(p.goal, true))
  }

  predicate Moves(s: State, s': State, t: Tid) {
    && t in s.pc && s'.pc.Keys == s.pc.Keys
    && forall u :: u in s.pc && u != t ==> Kin(s.pc[u], s'.pc[u])
  }

  lemma MutexMove(s: State, s': State, t: Tid)
    requires Mutex(s) && Moves(s, s', t) && s'.value == s.value
    requires Inside(s.pc[t]) == Inside(s'.pc[t])
    requires Inside(s'.pc[t]) && !s'.pc[t].Acquired? && !s'.pc[t].ReleaseV? ==> s'.holder == Some(t)
    requires !Inside(s'.pc[t]) ==> s'.holder == s.holder
    ensures Mutex(s')
  {
    forall u | u in s.pc
      ensures Inside(s'.pc[u]) == Inside(s.pc[u])
    {
      assert u != t ==> Kin(s.pc[u], s'.pc[u]);
    }
    forall u | u in s'.pc && Inside(s'.pc[u]) && !s'.pc[u].Acquired? && !s'.pc[u].ReleaseV?
      ensures s'.holder == Some(u)
    {
      if u != t {
        assert Kin(s.pc[u], s'.pc[u]);
      }
    }
    if s'.value == 0 {
      var u :| u in s.pc && Inside(s.pc[u]);
      assert u in s'.pc && Inside(s'.pc[u]);
    }
  }

  lemma MutexEnter(s: State, t: Tid)
    requires Mutex(s) && t in s.pc && s.pc[t].Acquire? && s.value > 0
    ensures Mutex(Act(s, t))
  {
    var s' := Act(s, t);
    assert t in s'.pc && Inside(s'.pc[t]);
  }

  lemma MutexLeave(s: State, t: Tid)
    requires Mutex(s) && Runnable(s, t) && Safe(s, t) && s.pc[t].ReleaseV?
    ensures Mutex(Act(s, t))
  {
    var s' := Act(s, t);
    assert t in s.pc && Inside(s.pc[t]);
    forall u | u in s'.pc
      ensures !Inside(s'.pc[u])
    {
      if u != t && s.lockQueue != [] && u == s.lockQueue[0] {
        assert u in s.lockQueue;
      }
    }
  }

  lemma LockQueueMove(s: State, s': State, t: Tid)
    requires LockQueue(s) && t in s.pc && s'.lockQueue == s.lockQueue && s'.value <= s.value
    requires s'.pc.Keys == s.pc.Keys && !s.pc[t].AcquireAsleep? && !s'.pc[t].AcquireAsleep?
    requires forall u :: u in s.pc && u != t ==> s'.pc[u] == s.pc[u] || (s.pc[u].WaitAsleep? && s'.pc[u].WaitP?)
    requires s'.value == 0 || !s.pc[t].Acquire?
    ensures LockQueue(s')
  {
    if s'.lockQueue != [] && s'.value > 0 {
      var u :| u in s.pc && s.pc[u].Acquire? && s.pc[u].woken;
      assert s'.pc[u] == s.pc[u];
    }
  }

  lemma LockQueueSleep(s: State, t: Tid)
    requires LockQueue(s) && t in s.pc && s.pc[t].Acquire? && s.value == 0
    ensures LockQueue(Act(s, t))
  {
  }

  lemma LockQueueWake(s: State, t: Tid)
    requires LockQueue(s) && Runnable(s, t) && Safe(s, t) && s.pc[t].ReleaseV?
    ensures LockQueue(Act(s, t))
  {
    var s' := Act(s, t);
    if s.lockQueue != [] {
      var front := s.lockQueue[0];
      assert front in s.lockQueue;
      assert s'.pc[front].Acquire? && s'.pc[front].woken;
      assert forall u :: u in s.lockQueue <==> u == front || u in s'.lockQueue;
      assert front !in s'.lockQueue;
    }
  }

  lemma FifoMove(s: State, s': State, t: Tid)
    requires Fifo(s) && Moves(s, s', t)
    requires s'.list == s.list && s'.appended == s.appended && s'.removed == s.removed
    requires s'.pc[t].Take? ==> s.list != []
    requires s'.pc[t].Enqueue? ==> s.list == []
    ensures Fifo(s')
  {
    forall u | u in s'.pc && (s'.pc[u].Take? || s'.pc[u].Enqueue?)
      ensures s'.pc[u].Take? ==> s'.list != []
      ensures s'.pc[u].Enqueue? ==> s'.list == []
    {
      if u != t {
        assert Kin(s.pc[u], s'.pc[u]);
      }
    }
  }

  lemma FifoInside(s: State, t: Tid)
    requires Fifo(s) && Mutex(s) && Runnable(s, t) && Safe(s, t) && (s.pc[t].AppendItem? || s.pc[t].Take?)
    ensures Fifo(Act(s, t))
  {
    var s' := Act(s, t);
    assert Inside(s.pc[t]);
    forall u | u in s'.pc
      ensures !s'.pc[u].Take? && !s'.pc[u].Enqueue?
    {
      assert u != t ==> !Inside(s.pc[u]);
    }
    if s.pc[t].Take? {
      assert s.list == [s.list[0]] + s.list[1..];
    }
  }

  /** A step of `t` that leaves the condition's queue and semaphores alone. */
  predicate Aside(s: State, s': State, t: Tid) {
    && Moves(s, s', t) && s'.waiter == s.waiter && s'.waitQueue == s.waitQueue
    && Waiting(s.pc[t]) == Waiting(s'.pc[t]) && Served(s.pc[t]) == Served(s'.pc[t])
    && (Unserved(s.pc[t]) ==> Unserved(s'.pc[t]))
    && (Unserved(s'.pc[t]) && !Unserved(s.pc[t]) ==> t in s.waitQueue)
    && (s'.pc[t] == ClearHolder(Await) || s'.pc[t] == ReleaseV(Await) ==> t in s.waitQueue)
    && (s'.pc[t].WaitAsleep? ==> t in s.waiter && s.waiter[t] == 0)
    && !s.pc[t].SignalV? && !s'.pc[t].SignalV? && !s'.pc[t].SignalReturn?
  }

  /** What it leaves as it was in every thread. */
  predicate Steady(p: Pc, q: Pc) {
    && Waiting(p) == Waiting(q) && Served(p) == Served(q) && (Unserved(p) ==> Unserved(q))
    && p.SignalV? == q.SignalV? && (p.SignalV? || q.SignalReturn? ==> p == q)
  }

  lemma AsideSteady(s: State, s': State, t: Tid)
    requires Aside(s, s', t)
    ensures forall u :: u in s.pc ==> u in s'.pc && Steady(s.pc[u], s'.pc[u])
    ensures forall u :: u in s.pc && u != t && Unserved(s'.pc[u]) ==> Unserved(s.pc[u])
    ensures forall u :: u in s.pc && u != t && s'.pc[u].WaitAsleep? ==> s.pc[u].WaitAsleep?
    ensures forall u :: u in s.pc && u != t && s'.pc[u].ClearHolder? ==> s.pc[u] == s'.pc[u]
    ensures forall u :: u in s.pc && u != t && s'.pc[u].ReleaseV? ==> s.pc[u] == s'.pc[u]
  {
    forall u | u in s.pc && u != t
      ensures Steady(s.pc[u], s'.pc[u])
    {
      assert Kin(s.pc[u], s'.pc[u]);
    }
  }

  lemma SignalledMove(s: State, s': State, t: Tid)
    requires Waiters(s) && Aside(s, s', t) && WaiterSet(s')
    ensures Signalled(s')
  {
    hide Waiting, Served, Unserved, Queued, Signallers, NoRepeats, Moves;
    AsideSteady(s, s', t);
    forall u | u in s'.waiter && Unserved(s'.pc[u]) && u !in s'.waitQueue && s'.waiter[u] == 0
      ensures BeingSignalled(s', u)
    {
      assert BeingSignalled(s, u);
      var v :| v in s.pc && s.pc[v] == SignalV(u);
      assert s'.pc[v] == SignalV(u);
    }
  }

  lemma WaitersMove(s: State, s': State, t: Tid)
    requires Waiters(s) && Aside(s, s', t)
    ensures Waiters(s')
  {
    AsideSteady(s, s', t);
    hide Waiting, Served, Unserved, NoRepeats, Moves;
    assert WaiterSet(s') by { hide Queued, Signalled, Signallers; }
    assert Queued(s') by { hide Signalled, Signallers; }
    SignalledMove(s, s', t);
    assert Signallers(s') by { hide Queued, Signalled; }
  }

  /**
   With thread `t` inside, the only waiter removed from the queue and not yet signalled is the one `t` is about
   to signal.
   */
  lemma OnlySignaller(s: State, t: Tid)
    requires Waiters(s) && Mutex(s) && t in s.pc && Inside(s.pc[t])
    ensures forall u :: u in s.waiter && Unserved(s.pc[u]) && u !in s.waitQueue && s.pc[t] != SignalV(u) ==>
                s.waiter[u] > 0
    ensures forall u :: u in s.pc && u != t ==> !s.pc[u].SignalV? && !s.pc[u].SignalReturn? && !Inside(s.pc[u])
  {
  }

  lemma WaitersSignal(s: State, t: Tid)
    requires Waiters(s) && Mutex(s) && Runnable(s, t) && Safe(s, t) && s.pc[t].Signal? && s.waitQueue != []
    ensures Waiters(Act(s, t))
  {
    var s' := Act(s, t);
    var w := s.waitQueue[0];
    assert w in s.waitQueue && w in s.waiter;
    assert Inside(s.pc[t]);
    OnlySignaller(s, t);
    assert w != t && Unserved(s.pc[w]);
    assert forall u :: u in s.waitQueue <==> u == w || u in s'.waitQueue;
    assert w !in s'.waitQueue;
    assert s'.pc[t] == SignalV(w);
    assert BeingSignalled(s', w);
    hide Mutex;
    forall u | u in s.pc
      ensures Waiting(s'.pc[u]) == Waiting(s.pc[u]) && Served(s'.pc[u]) == Served(s.pc[u])
      ensures Unserved(s'.pc[u]) == Unserved(s.pc[u]) && !s'.pc[u].SignalReturn?
      ensures s'.pc[u].SignalV? ==> s'.pc[u].waiter == w
    {
    }
    hide Served, Waiting;
  }

  /** What a signalling step does: the waiter's semaphore goes up, and the waiter, if asleep, wakes. */
  lemma SignalVEffect(s: State, t: Tid)
    requires Waiters(s) && Mutex(s) && Runnable(s, t) && Safe(s, t) && s.pc[t].SignalV?
    ensures var s', w := Act(s, t), s.pc[t].waiter;
            && w in s.waiter && w in s.pc && Unserved(s.pc[w]) && w !in s.waitQueue && w != t
            && s'.pc == s.pc[w := WaitP][t := SignalReturn(w)]
            && s'.waiter == s.waiter[w := s.waiter[w] + 1] && s'.waitQueue == s.waitQueue
    ensures forall u :: u in s.pc && u != t ==> !s.pc[u].SignalV? && !s.pc[u].SignalReturn?
    ensures forall u :: u in s.waiter && Unserved(s.pc[u]) && u !in s.waitQueue && u != s.pc[t].waiter ==>
                s.waiter[u] > 0
  {
    assert Inside(s.pc[t]);
    OnlySignaller(s, t);
  }

  lemma SignalVSteady(s: State, s': State, t: Tid, w: Tid)
    requires t in s.pc && s.pc[t] == SignalV(w) && w in s.pc && Unserved(s.pc[w]) && w != t
    requires s'.pc == s.pc[w := WaitP][t := SignalReturn(w)]
    requires forall u :: u in s.pc && u != t ==> !s.pc[u].SignalV? && !s.pc[u].SignalReturn?
    ensures forall u :: u in s.pc ==> Waiting(s'.pc[u]) == Waiting(s.pc[u]) && Served(s'.pc[u]) == Served(s.pc[u])
    ensures forall u :: u in s.pc ==> Unserved(s'.pc[u]) == Unserved(s.pc[u]) && !s'.pc[u].SignalV?
    ensures forall u :: u in s.pc && s'.pc[u].SignalReturn? ==> s'.pc[u].waiter == w
    ensures forall u :: u in s.pc && s'.pc[u].WaitAsleep? ==> s.pc[u].WaitAsleep? && u != w
    ensures forall u :: u in s.pc && (s'.pc[u].ClearHolder? || s'.pc[u].ReleaseV?) ==> s'.pc[u] == s.pc[u]
  {
  }

  lemma WaitersSignalV(s: State, t: Tid)
    requires Waiters(s) && Mutex(s) && Runnable(s, t) && Safe(s, t) && s.pc[t].SignalV?
    ensures Waiters(Act(s, t))
  {
    hide Mutex, Act, NoRepeats, Waiting, Unserved, Served;
    var s', w := Act(s, t), s.pc[t].waiter;
    SignalVEffect(s, t);
    SignalVSteady(s, s', t, w);
    hide Safe, Runnable;
    assert WaiterSet(s') by { hide Queued, Signalled, Signallers; }
    assert Queued(s') by { hide Signalled, Signallers; }
    assert Signalled(s') by { hide Queued, Signallers; }
    assert Signallers(s') by { hide Queued, Signalled; }
  }

  lemma WaitersEnqueue(s: State, t: Tid)
    requires Waiters(s) && Mutex(s) && Runnable(s, t) && Safe(s, t) && s.pc[t].Enqueue?
    ensures Waiters(Act(s, t))
  {
    var s' := Act(s, t);
    assert Inside(s.pc[t]);
    OnlySignaller(s, t);
    assert forall u :: u in s'.waitQueue <==> u == t || u in s.waitQueue;
  }

  lemma WaitersServed(s: State, t: Tid)
    requires Waiters(s) && Runnable(s, t) && Safe(s, t) && s.pc[t].WaitP? && s.waiter[t] > 0
    ensures Waiters(Act(s, t))
  {
    var s' := Act(s, t);
    forall u | u in s'.waiter && Unserved(s'.pc[u]) && u !in s'.waitQueue && s'.waiter[u] == 0
      ensures BeingSignalled(s', u)
    {
      assert u != t;
      assert BeingSignalled(s, u);
      var v :| v in s.pc && s.pc[v] == SignalV(u);
      assert s'.pc[v] == SignalV(u);
    }
  }

  lemma WaitersDelete(s: State, t: Tid)
    requires Waiters(s) && Mutex(s) && Runnable(s, t) && Safe(s, t) && s.pc[t].DeleteWaiter?
    ensures Waiters(Act(s, t))
  {
    var s' := Act(s, t);
    assert Inside(s.pc[t]);
    OnlySignaller(s, t);
  }

  // ---- items and signals ----

  lemma SignalMove(s: State, s': State, t: Tid)
    requires NoLostSignal(s) && Moves(s, s', t) && s'.list == s.list && s'.waitQueue == s.waitQueue
    requires MustRecheck(s, t) ==> MustRecheck(s', t)
    requires s.pc[t].Signal? || s.pc[t].Take? ==> s'.pc[t].Signal? || s'.pc[t].Take? || s.waitQueue == []
    ensures NoLostSignal(s')
  {
    forall u | u in Recheckers(s)
      ensures u in Recheckers(s')
    {
      if u != t { assert Kin(s.pc[u], s'.pc[u]); }
    }
    SubsetSize(Recheckers(s), Recheckers(s'));
    if Slack(s) && s.waitQueue != [] {
      var u :| u in s.pc && (s.pc[u].Signal? || s.pc[u].Take?);
      assert u in s'.pc && (s'.pc[u].Signal? || s'.pc[u].Take?) by {
        if u != t { assert Kin(s.pc[u], s'.pc[u]); }
      }
    }
  }

  lemma SubsetSize(a: set<Tid>, b: set<Tid>)
    requires a <= b
    ensures |a| <= |b|
  {
    assert b == a + (b - a);
  }

  /** Inside threads are unique, so only the moving thread can account for slack. */
  lemma NoSlack(s: State, t: Tid)
    requires Mutex(s) && t in s.pc && Inside(s.pc[t]) && !s.pc[t].Signal? && !s.pc[t].Take?
    ensures !Slack(s)
  {
    if Slack(s) {
      var u :| u in s.pc && (s.pc[u].Signal? || s.pc[u].Take?);
      assert false;
    }
  }

  lemma SignalAppend(s: State, t: Tid)
    requires NoLostSignal(s) && Mutex(s) && Runnable(s, t) && Safe(s, t) && s.pc[t].AppendItem?
    ensures NoLostSignal(Act(s, t))
  {
    var s' := Act(s, t);
    NoSlack(s, t);
    assert s'.pc[t].Signal?;
    assert Slack(s');
    assert Recheckers(s') == Recheckers(s);
  }

  lemma SignalSend(s: State, t: Tid)
    requires NoLostSignal(s) && Mutex(s) && Waiters(s) && Runnable(s, t) && Safe(s, t) && s.pc[t].Signal?
    requires s.waitQueue != []
    ensures NoLostSignal(Act(s, t))
  {
    var s' := Act(s, t);
    var w := s.waitQueue[0];
    SentWaiter(s, t);
    assert s'.pc == s.pc[t := SignalV(w)] && s'.waitQueue == s.waitQueue[1..] && s'.list == s.list;
    assert s.waitQueue == [w] + s.waitQueue[1..];
    hide Waiters, Mutex, Act, Safe, Runnable;
    RecheckersGain(s, s', t, w);
    NotSlack(s', t, w);
    hide Recheckers, Slack;
  }

  /** Taking a waiter off the queue makes it one that must recheck. */
  lemma RecheckersGain(s: State, s': State, t: Tid, w: Tid)
    requires t in s.pc && s.pc[t] == Signal && s'.pc == s.pc[t := SignalV(w)]
    requires s.waitQueue == [w] + s'.waitQueue && w in s.pc && w != t && Unserved(s.pc[w]) && w !in s'.waitQueue
    ensures Recheckers(s') == Recheckers(s) + {w} && w !in Recheckers(s)
  {
    assert w in s.waitQueue && forall u :: u in s.waitQueue <==> u == w || u in s'.waitQueue;
    forall u
      ensures MustRecheck(s', u) <==> MustRecheck(s, u) || u == w
    {
      if u == w { assert Unserved(s'.pc[w]); }
    }
    assert !MustRecheck(s, w);
    hide MustRecheck;
  }

  lemma SentWaiter(s: State, t: Tid)
    requires Mutex(s) && Waiters(s) && Runnable(s, t) && s.pc[t].Signal? && s.waitQueue != []
    ensures var w := s.waitQueue[0];
            w in s.pc && w != t && Unserved(s.pc[w]) && w !in s.waitQueue[1..]
    ensures forall u :: u in s.pc && u != t ==> !s.pc[u].Signal? && !s.pc[u].Take?
  {
    var w := s.waitQueue[0];
    assert w in s.waitQueue && w in s.waiter && Inside(s.pc[t]);
    assert forall u :: u in s.pc && u != t ==> !Inside(s.pc[u]);
  }

  lemma NotSlack(s: State, t: Tid, w: Tid)
    requires t in s.pc && s.pc[t] == SignalV(w)
    requires forall u :: u in s.pc && u != t ==> !s.pc[u].Signal? && !s.pc[u].Take?
    ensures !Slack(s)
  {
  }

  lemma SignalTest(s: State, t: Tid)
    requires NoLostSignal(s) && Mutex(s) && Runnable(s, t) && s.pc[t].Test?
    ensures NoLostSignal(Act(s, t))
  {
    var s' := Act(s, t);
    NoSlack(s, t);
    assert s'.pc == s.pc[t := if s.list == [] then Enqueue else Take] && s'.waitQueue == s.waitQueue
      && s'.list == s.list;
    hide Mutex, Act;
    assert Recheckers(s') == Recheckers(s) - {t} by { hide Slack; }
    assert s'.pc[t].Take? ==> Slack(s');
  }

  lemma SignalTake(s: State, t: Tid)
    requires NoLostSignal(s) && Mutex(s) && Runnable(s, t) && Safe(s, t) && s.pc[t].Take?
    ensures NoLostSignal(Act(s, t))
  {
    var s' := Act(s, t);
    assert Recheckers(s') == Recheckers(s);
  }

  lemma SignalEnqueue(s: State, t: Tid)
    requires Fifo(s) && Runnable(s, t) && Safe(s, t) && s.pc[t].Enqueue?
    ensures NoLostSignal(Act(s, t))
  {
    assert s.list == [];
  }

  // ---- steps, runs, and what they show ----

  lemma ActMoves(s: State, t: Tid)
    requires Waiters(s) && Runnable(s, t) && Safe(s, t)
    ensures Moves(s, Act(s, t), t)
  {
    var s' := Act(s, t);
    if s.pc[t].ReleaseV? && s.lockQueue != [] {
      assert s.lockQueue[0] in s.lockQueue;
    }
  }

  lemma MutexStep(s: State, t: Tid)
    requires Inv(s) && Runnable(s, t) && Safe(s, t)
    ensures Mutex(Act(s, t))
  {
    if s.pc[t].Acquire? && s.value > 0 {
      MutexEnter(s, t);
    } else if s.pc[t].ReleaseV? {
      MutexLeave(s, t);
    } else {
      ActMoves(s, t);
      MutexMove(s, Act(s, t), t);
    }
  }

  lemma LockQueueStep(s: State, t: Tid)
    requires Inv(s) && Runnable(s, t) && Safe(s, t)
    ensures LockQueue(Act(s, t))
  {
    if s.pc[t].Acquire? && s.value == 0 {
      LockQueueSleep(s, t);
    } else if s.pc[t].ReleaseV? {
      LockQueueWake(s, t);
    } else {
      LockQueueMove(s, Act(s, t), t);
    }
  }

  lemma FifoStep(s: State, t: Tid)
    requires Inv(s) && Runnable(s, t) && Safe(s, t)
    ensures Fifo(Act(s, t))
  {
    if s.pc[t].AppendItem? || s.pc[t].Take? {
      FifoInside(s, t);
    } else {
      ActMoves(s, t);
      FifoMove(s, Act(s, t), t);
    }
  }

  lemma WaitersStep(s: State, t: Tid)
    requires Inv(s) && Runnable(s, t) && Safe(s, t)
    ensures Waiters(Act(s, t))
  {
    hide Mutex, LockQueue, Fifo, NoLostSignal;
    if s.pc[t].Signal? && s.waitQueue != [] {
      WaitersSignal(s, t);
    } else if s.pc[t].SignalV? {
      WaitersSignalV(s, t);
    } else if s.pc[t].Enqueue? {
      WaitersEnqueue(s, t);
    } else if s.pc[t].WaitP? && s.waiter[t] > 0 {
      WaitersServed(s, t);
    } else if s.pc[t].DeleteWaiter? {
      WaitersDelete(s, t);
    } else {
      ActMoves(s, t);
      WaitersFrame(s, t);
      WaitersOwn(s, t);
      hide Act, Waiters, Waiting, Served, Unserved, Moves;
      WaitersMove(s, Act(s, t), t);
    }
  }

  /** A step that has nothing to do with the condition's waiters. */
  predicate Elsewhere(s: State, t: Tid)
    requires Runnable(s, t) && Safe(s, t)
  {
    && !(s.pc[t].Signal? && s.waitQueue != []) && !s.pc[t].SignalV? && !s.pc[t].Enqueue? && !s.pc[t].DeleteWaiter?
    && !(s.pc[t].WaitP? && s.waiter[t] > 0)
  }

  lemma WaitersFrame(s: State, t: Tid)
    requires Runnable(s, t) && Safe(s, t) && Elsewhere(s, t)
    ensures var s' := Act(s, t);
            && s'.waiter == s.waiter && s'.waitQueue == s.waitQueue && t in s'.pc
            && !s.pc[t].SignalV? && !s'.pc[t].SignalV? && !s'.pc[t].SignalReturn?
  {
  }

  /** The step itself, as the condition's waiters see it. */
  lemma OwnStep(s: State, t: Tid)
    requires Runnable(s, t) && Safe(s, t) && Elsewhere(s, t)
    ensures var s' := Act(s, t);
            && t in s'.pc && Waiting(s.pc[t]) == Waiting(s'.pc[t]) && Served(s.pc[t]) == Served(s'.pc[t])
            && (Unserved(s.pc[t]) ==> Unserved(s'.pc[t]))
            && (Unserved(s'.pc[t]) && !Unserved(s.pc[t]) ==> s.pc[t] == ReleaseV(Await))
            && s'.pc[t] != ClearHolder(Await)
            && (s'.pc[t] == ReleaseV(Await) ==> s.pc[t] == ClearHolder(Await))
            && (s'.pc[t].WaitAsleep? ==> s.pc[t].WaitP? && s.waiter[t] == 0)
  {
  }

  lemma WaitersOwn(s: State, t: Tid)
    requires Waiters(s) && Runnable(s, t) && Safe(s, t) && Elsewhere(s, t)
    ensures var s' := Act(s, t);
            && t in s'.pc && Waiting(s.pc[t]) == Waiting(s'.pc[t]) && Served(s.pc[t]) == Served(s'.pc[t])
            && (Unserved(s.pc[t]) ==> Unserved(s'.pc[t]))
            && (Unserved(s'.pc[t]) && !Unserved(s.pc[t]) ==> t in s.waitQueue)
            && (s'.pc[t] == ClearHolder(Await) || s'.pc[t] == ReleaseV(Await) ==> t in s.waitQueue)
            && (s'.pc[t].WaitAsleep? ==> t in s.waiter && s.waiter[t] == 0)
  {
    hide Act;
    OwnStep(s, t);
  }

  lemma SignalStep(s: State, t: Tid)
    requires Inv(s) && Runnable(s, t) && Safe(s, t)
    ensures NoLostSignal(Act(s, t))
  {
    if s.pc[t].AppendItem? {
      SignalAppend(s, t);
    } else if s.pc[t].Signal? && s.waitQueue != [] {
      SignalSend(s, t);
    } else if s.pc[t].Test? {
      SignalTest(s, t);
    } else if s.pc[t].Take? {
      SignalTake(s, t);
    } else if s.pc[t].Enqueue? {
      SignalEnqueue(s, t);
    } else {
      ActMoves(s, t);
      hide Mutex, LockQueue, Fifo;
      SignalMove(s, Act(s, t), t);
    }
  }

  lemma BeginKeeps(s: State, t: Tid, g: Goal)
    requires Inv(s) && t in s.pc && s.pc[t].Outside? && !g.ForReacquire?
    ensures Inv(At(s, t, Acquire(g, false)))
  {
    hide Mutex, LockQueue, Fifo, Waiters, NoLostSignal;
    var s' := At(s, t, Acquire(g, false));
    assert Moves(s, s', t);
    MutexMove(s, s', t);
    LockQueueMove(s, s', t);
    FifoMove(s, s', t);
    WaitersMove(s, s', t);
    SignalMove(s, s', t);
  }

  lemma NextKeeps(s: State, e: Event, s': State)
    requires Inv(s) && Next(s, e, s')
    ensures Inv(s')
  {
    hide Mutex, LockQueue, Fifo, Waiters, NoLostSignal, Act, Safe;
    match e
    case BeginAppend(t, x) => BeginKeeps(s, t, ForAppend(x));
    case BeginRemove(t) => BeginKeeps(s, t, ForRemove);
    case Step(t) =>
      MutexStep(s, t);
      LockQueueStep(s, t);
      FifoStep(s, t);
      WaitersStep(s, t);
      SignalStep(s, t);
  }

  /** The invariant holds in every state of every run, whatever the number of threads and their interleaving. */
  lemma {:induction false} RunKeeps(states: seq<State>, events: seq<Event>, i: nat)
    requires IsRun(states, events) && i < |states|
    ensures Inv(states[i])
  {
    if i == 0 {
      assert Recheckers(states[0]) == {};
    } else {
      RunKeeps(states, events, i - 1);
      assert Next(states[i - 1], events[i - 1], states[i]);
      NextKeeps(states[i - 1], events[i - 1], states[i]);
    }
  }

  /**
   In every run: a step fails an assertion exactly when it appends an item that is listed already, and
   otherwise uses no semaphore after its deletion and takes from no empty list; at most one thread is
   inside; removed items are a prefix of appended ones; and with the lock free and waiters still queued,
   every listed item has a signalled waiter that has yet to recheck.
   */
  lemma MonitorCorrect(states: seq<State>, events: seq<Event>, i: nat)
    requires IsRun(states, events) && i < |states|
    ensures var s := states[i];
            && (forall t :: Runnable(s, t) ==> (Safe(s, t) <==> !AppendsListed(s, t)))
            && (forall t, u :: t in s.pc && u in s.pc && Inside(s.pc[t]) && Inside(s.pc[u]) ==> t == u)
            && s.removed <= s.appended
            && (s.value > 0 && s.waitQueue != [] ==> |s.list| <= |Recheckers(s)|)
  {
    RunKeeps(states, events, i);
    var s := states[i];
    forall t | Runnable(s, t)
      ensures Safe(s, t) <==> !AppendsListed(s, t)
    {
      SafeSteps(s, t);
    }
    if s.value > 0 {
      assert forall t :: t in s.pc ==> !Inside(s.pc[t]);
    }
  }

  // ---- appending only new items ----

  /** A thread on its way to append an item. */
  predicate Appending(p: Pc, x: Item) {
    || ((p.Acquire? || p.AcquireAsleep? || p.Acquired?) && p.goal == ForAppend(x))
    || p == AppendItem(x)
  }

  /** What a caller can see to: no append begins while an equal item is listed or being appended. */
  predicate BeginsFresh(s: State, e: Event) {
    e.BeginAppend? ==> e.item !in s.list && forall u :: u in s.pc ==> !Appending(s.pc[u], e.item)
  }

  ghost predicate FreshAppends(s: State) {
    && (forall t, x :: t in s.pc && Appending(s.pc[t], x) ==> x !in s.list)
    && (forall t, u, x :: t in s.pc && u in s.pc && Appending(s.pc[t], x) && Appending(s.pc[u], x) ==> t == u)
  }

  /** A step begins no append, and puts on the list at most the item that its own thread was appending. */
  lemma StepAppends(s: State, t: Tid)
    requires Waiters(s) && Runnable(s, t) && Safe(s, t)
    ensures var s' := Act(s, t);
            && s'.pc.Keys == s.pc.Keys
            && (forall u, x :: u in s.pc && Appending(s'.pc[u], x) ==> Appending(s.pc[u], x))
            && (forall x :: x in s'.list ==> x in s.list || s.pc[t] == AppendItem(x))
            && (s.pc[t].AppendItem? ==> s'.pc[t] == Signal)
  {
    ActMoves(s, t);
    var s' := Act(s, t);
    forall u, x | u in s.pc && Appending(s'.pc[u], x)
      ensures Appending(s.pc[u], x)
    {
      if u != t { assert Kin(s.pc[u], s'.pc[u]); }
    }
  }

  lemma FreshKeeps(s: State, e: Event, s': State)
    requires Inv(s) && Next(s, e, s') && FreshAppends(s) && BeginsFresh(s, e)
    ensures FreshAppends(s')
  {
    if e.Step? {
      StepAppends(s, e.t);
      hide Act, Safe, Runnable, Inv, Appending;
      forall t, x | t in s'.pc && Appending(s'.pc[t], x)
        ensures x !in s'.list
      {
        if x in s'.list {
          assert Appending(s.pc[e.t], x) by { AppendingItem(x); }
          assert t == e.t;
          assert false by { SignalAppendsNothing(x); }
        }
      }
    }
  }

  lemma AppendingItem(x: Item)
    ensures Appending(AppendItem(x), x)
  {
  }

  lemma SignalAppendsNothing(x: Item)
    ensures !Appending(Signal, x)
  {
  }

  /** If every append begins with a fresh item, no assertion ever fails. */
  lemma {:induction false} FreshRunSafe(states: seq<State>, events: seq<Event>, i: nat)
    requires IsRun(states, events) && i < |states|
    requires forall k :: 0 <= k < |events| ==> BeginsFresh(states[k], events[k])
    ensures FreshAppends(states[i])
    ensures forall t :: Runnable(states[i], t) ==> Safe(states[i], t)
  {
    hide Inv, FreshAppends, Next, Init;
    RunKeeps(states, events, i);
    if i == 0 {
      NoneAppending(states[0]);
    } else {
      FreshRunSafe(states, events, i - 1);
      RunKeeps(states, events, i - 1);
      FreshKeeps(states[i - 1], events[i - 1], states[i]);
    }
    forall t | Runnable(states[i], t)
      ensures Safe(states[i], t)
    {
      SafeSteps(states[i], t);
      FreshNotListed(states[i], t);
    }
  }

  lemma NoneAppending(s: State)
    requires Init(s)
    ensures FreshAppends(s)
  {
  }

  lemma FreshNotListed(s: State, t: Tid)
    requires FreshAppends(s) && t in s.pc
    ensures !AppendsListed(s, t)
  {
    if s.pc[t].AppendItem? { AppendingItem(s.pc[t].item); }
  }

  /** One whole append with nobody in the way. */
  lemma LoneAppend(s: State, t: Tid, x: Item) returns (states: seq<State>, events: seq<Event>)
    requires t in s.pc && s.pc[t] == Outside && s.value == 1 && s.lockQueue == [] && s.waitQueue == [] && x !in s.list
    ensures |events| == 7 && |states| == 8 && states[0] == s
    ensures forall i :: 0 <= i < 7 ==> Next(states[i], events[i], states[i + 1])
    ensures states[7] == s.(holder := None, list := s.list + [x], appended := s.appended + [x])
  {
    var s1 := At(s, t, Acquire(ForAppend(x), false));
    var s2 := Act(s1, t);
    var s3 := Act(s2, t);
    var s4 := Act(s3, t);
    var s5 := Act(s4, t);
    var s6 := Act(s5, t);
    var s7 := Act(s6, t);
    states := [s, s1, s2, s3, s4, s5, s6, s7];
    events := [BeginAppend(t, x), Step(t), Step(t), Step(t), Step(t), Step(t), Step(t)];
    assert s7.pc == s.pc;
  }

  /** The condition is needed: two threads that append the same item, one after the other, fail the assertion. */
  lemma DuplicateFails(s: State, t: Tid, u: Tid, x: Item) returns (states: seq<State>, events: seq<Event>)
    requires Init(s) && t in s.pc && u in s.pc && t != u
    ensures IsRun(states, events) && states[0] == s
    ensures var last := states[|events|];
            Runnable(last, u) && !Safe(last, u) && last.pc[u] == AppendItem(x) && last.list == [x]
  {
    var first, begin := LoneAppend(s, t, x);
    var s8 := At(first[7], u, Acquire(ForAppend(x), false));
    var s9 := Act(s8, u);
    var s10 := Act(s9, u);
    assert Next(first[7], BeginAppend(u, x), s8) && Next(s8, Step(u), s9) && Next(s9, Step(u), s10);
    hide Next, Act;
    states := first + [s8, s9, s10];
    events := begin + [BeginAppend(u, x), Step(u), Step(u)];
    forall i | 0 <= i < 10
      ensures Next(states[i], events[i], states[i + 1])
    {
      if i < 7 { assert states[i] == first[i] && events[i] == begin[i] && states[i + 1] == first[i + 1]; }
    }
  }

  /**
   No wakeup is ever lost: when no thread can run, nobody waits for the lock, and anybody waiting
   for an item is waiting because there is none.
   */
  lemma QuiescentMeansEmpty(states: seq<State>, events: seq<Event>, i: nat)
    requires IsRun(states, events) && i < |states|
    requires forall t :: t in states[i].pc ==> !Runnable(states[i], t)
    ensures var s := states[i];
            && s.value == 1 && s.lockQueue == []
            && (forall t :: t in s.pc ==> s.pc[t].Outside? || (s.pc[t].WaitAsleep? && t in s.waitQueue))
            && ((exists t :: t in s.pc && s.pc[t].WaitAsleep?) ==> s.list == [])
  {
    RunKeeps(states, events, i);
    var s := states[i];
    assert forall t :: t in s.pc ==> s.pc[t].Outside? || s.pc[t].AcquireAsleep? || s.pc[t].WaitAsleep?;
    hide IsRun;
    QuietLock(s);
    QuietWaiters(s);
  }

  /** Nobody can run. */
  predicate Quiet(s: State) {
    forall t :: t in s.pc ==> s.pc[t].Outside? || s.pc[t].AcquireAsleep? || s.pc[t].WaitAsleep?
  }

  lemma QuietLock(s: State)
    requires Inv(s) && Quiet(s)
    ensures s.value == 1 && s.lockQueue == [] && forall t :: t in s.pc ==> !s.pc[t].AcquireAsleep?
  {
    hide Waiters, Fifo, NoLostSignal;
    assert forall t :: t in s.pc ==> !Inside(s.pc[t]);
    assert s.lockQueue == [];
  }

  lemma QuietWaiters(s: State)
    requires Inv(s) && forall t :: t in s.pc ==> s.pc[t].Outside? || s.pc[t].WaitAsleep?
    ensures forall t :: t in s.pc && s.pc[t].WaitAsleep? ==> t in s.waitQueue
    ensures s.waitQueue != [] ==> s.list == []
  {
    hide Mutex, LockQueue, Fifo;
    assert forall t :: t in s.pc ==> !BeingSignalled(s, t);
    assert forall t :: t in s.pc && s.pc[t].WaitAsleep? ==> t in s.waiter && Unserved(s.pc[t]);
    assert forall t :: t in s.pc ==> !MustRecheck(s, t);
    assert Recheckers(s) == {};
  }
}
