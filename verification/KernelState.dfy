/**
 The kernel's objects (threads/scheduler.h, threads/synch.h): the ready list and the queue of every
 semaphore are linked lists that the code changes in place, and no two of them share an element.
 */
module KernelObjects {
  import opened Options
  import Lists
  import opened Kernel

  type Queue = Lists.List<Tid>

  function Up(sem: Sem): Sem { sem.(value := sem.value + 1) }

  function Down(sem: Sem): Sem
    requires sem.value > 0
  { sem.(value := sem.value - 1) }

  class Semaphore {
    var value: nat
    const queue: Queue

    constructor (initialValue: nat)
      ensures queue.Valid() && fresh(queue.Repr) && this !in queue.Repr
      ensures Value() == Sem(initialValue, [])
    {
      value := initialValue;
      queue := new Lists.List<Tid>();
    }

    ghost function Value(): Sem
      reads this, queue
    { Sem(value, queue.Contents()) }

    method Take()
      requires value > 0
      modifies this
      ensures Value() == Down(old(Value()))
    {
      value := value - 1;
    }

    method Give()
      modifies this
      ensures Value() == Up(old(Value()))
    {
      value := value + 1;
    }
  }

  function WithSem(k: State, s: Sid, sem: Sem): State { k.(sems := k.sems[s := sem]) }

  ghost predicate May(k: State, e: Event) { Inv(k) && Enabled(k, e) }

  /** The step is taken, the assertions of the code come true, and the invariant holds again. */
  ghost predicate Steps(k: State, e: Event, k': State) {
    Enabled(k, e) && Asserted(k, e) && k' == Do(k, e) && Inv(k')
  }

  function Roused(k: State, s: Sid): State
    requires s in k.sems
  {
    var queue := k.sems[s].queue;
    if queue == [] then k
    else Readied(WithSem(k, s, k.sems[s].(queue := queue[1..])), queue[0])
  }

  /** `V` in the two parts its code has. */
  lemma DoVParts(k: State, s: Sid)
    requires s in k.sems
    ensures var k1 := Roused(k, s);
            s in k1.sems && DoV(k, s) == WithSem(k1, s, Up(k1.sems[s]))
  {
    var sems := WithSem(Roused(k, s), s, Up(Roused(k, s).sems[s])).sems;
    assert sems == DoV(k, s).sems;
  }

  /** A running thread is in the middle of nothing. */
  lemma Ordinary(k: State)
    requires Inv(k) && k.mode == Running
    ensures k.current in k.doing && k.doing[k.current] == Normal
  {
  }

  /** The kernel's variables; a context switch is a change of `current`. */
  class KernelState {
    var status: map<Tid, Status>
    var doing: map<Tid, Doing>
    var current: Tid
    var mode: Mode
    const ready: Queue
    var toBeDestroyed: Option<Tid>
    var semaphores: map<Sid, Semaphore>
    ghost var Repr: set<object>

    ghost predicate Valid()
      reads this, Repr
      ensures Valid() ==> this in Repr
    {
      && this in Repr && ready in Repr && ready.Repr <= Repr && ready.Valid() && this !in ready.Repr
      && (forall s :: s in semaphores ==> Owns(semaphores[s]))
      && (forall s, r :: s in semaphores && r in semaphores && s != r ==>
            semaphores[s] != semaphores[r] && semaphores[s].queue.Repr !! semaphores[r].queue.Repr)
      && (forall s, r :: s in semaphores && r in semaphores ==> semaphores[s] !in semaphores[r].queue.Repr)
    }

    ghost predicate Owns(sem: Semaphore)
      reads this, Repr
    {
      && sem in Repr && sem.queue in Repr && sem.queue.Repr <= Repr && sem.queue.Valid()
      && this !in sem.queue.Repr && ready in Repr && sem !in ready.Repr && sem.queue.Repr !! ready.Repr
    }

    ghost function Semaphores(): map<Sid, Sem>
      requires Valid()
      reads this, Repr
    { map s | s in semaphores :: semaphores[s].Value() }

    ghost function Value(): State
      requires Valid()
      reads this, Repr
    { State(status, doing, current, mode, ready.Contents(), toBeDestroyed, Semaphores()) }

    constructor (main: Tid)
      ensures Valid() && fresh(Repr) && Init(Value())
    {
      status, doing := map[main := RUNNING], map[main := Normal];
      current, mode, toBeDestroyed, semaphores := main, Running, None, map[];
      ready := new Lists.List<Tid>();
      new;
      Repr := {this} + ready.Repr;
    }

    /** A change to one list leaves it apart from the others, and these as they were. */
    twostate lemma Kept(q: Queue)
      requires old(Valid()) && semaphores == old(semaphores) && Repr == old(Repr) + q.Repr
      requires q.Valid() && fresh(q.Repr - old(q.Repr)) && old(q.Repr) <= old(Repr)
      requires q == ready || exists s :: s in semaphores && semaphores[s].queue == q
      requires forall o :: o in old(Repr) && o !in old(q.Repr) && o != this ==> unchanged(o)
      ensures Valid() && (q != ready ==> ready.Contents() == old(ready.Contents()))
      ensures q == ready ==> Semaphores() == old(Semaphores())
      ensures forall s :: s in semaphores && semaphores[s].queue == q ==>
                Semaphores() == old(Semaphores())[s := semaphores[s].Value()]
    {
      hide Lists.List<Tid>.Valid, Lists.List<Tid>.Holding;
      forall s | s in semaphores
        ensures Owns(semaphores[s])
        ensures semaphores[s].queue != q ==> semaphores[s].Value() == old(semaphores[s].Value())
      {
        assert old(Owns(semaphores[s]));
        assert semaphores[s].queue != q ==> unchanged(semaphores[s]);
      }
      assert q == ready ==> Semaphores() == old(Semaphores());
      forall s | s in semaphores && semaphores[s].queue == q
        ensures Semaphores() == old(Semaphores())[s := semaphores[s].Value()]
      {
        assert forall r :: r in semaphores && r != s ==> semaphores[r].queue != q;
      }
    }

    /** Likewise a change to the counters of one semaphore. */
    twostate lemma Counted(s: Sid)
      requires old(Valid()) && semaphores == old(semaphores) && Repr == old(Repr) && s in semaphores
      requires forall o :: o in old(Repr) && o != semaphores[s] && o != this ==> unchanged(o)
      ensures Valid() && ready.Contents() == old(ready.Contents())
      ensures Semaphores() == old(Semaphores())[s := semaphores[s].Value()]
      ensures semaphores[s].queue.Contents() == old(semaphores[s].queue.Contents())
    {
      hide Lists.List<Tid>.Valid, Lists.List<Tid>.Holding;
      forall r | r in semaphores
        ensures Owns(semaphores[r])
        ensures r != s ==> semaphores[r].Value() == old(semaphores[r].Value())
      {
        assert old(Owns(semaphores[r]));
      }
    }

    /** The variables are no part of the lists. */
    twostate lemma Moved()
      requires old(Valid()) && semaphores == old(semaphores) && Repr == old(Repr)
      requires forall o :: o in old(Repr) && o != this ==> unchanged(o)
      ensures Valid() && ready.Contents() == old(ready.Contents()) && Semaphores() == old(Semaphores())
    {
      hide Lists.List<Tid>.Valid, Lists.List<Tid>.Holding;
      forall r | r in semaphores
        ensures Owns(semaphores[r])
        ensures semaphores[r].Value() == old(semaphores[r].Value())
      {
        assert old(Owns(semaphores[r]));
      }
    }

    /** A new semaphore has a queue of its own. */
    twostate predicate IsAdded(s: Sid)
      requires s in semaphores
      reads this, semaphores[s], semaphores[s].queue, semaphores[s].queue.Repr
    {
      var sem := semaphores[s];
      && s !in old(semaphores) && semaphores == old(semaphores)[s := sem]
      && fresh(sem) && fresh(sem.queue.Repr) && sem.queue.Valid() && sem !in sem.queue.Repr
      && Repr == old(Repr) + {sem} + sem.queue.Repr
    }

    twostate lemma AddedApart(s: Sid)
      requires old(Valid()) && s in semaphores && IsAdded(s)
      requires forall o :: o in old(Repr) && o != this ==> unchanged(o)
      ensures Valid()
    {
      hide Lists.List<Tid>.Valid, Lists.List<Tid>.Holding;
      forall r | r in semaphores
        ensures Owns(semaphores[r])
      {
        if r != s { assert old(Owns(semaphores[r])); }
      }
    }

    twostate lemma Added(s: Sid)
      requires old(Valid()) && s in semaphores && IsAdded(s)
      requires forall o :: o in old(Repr) && o != this ==> unchanged(o)
      ensures Valid() && ready.Contents() == old(ready.Contents())
      ensures Semaphores() == old(Semaphores())[s := semaphores[s].Value()]
    {
      hide Lists.List<Tid>.Valid, Lists.List<Tid>.Holding;
      AddedApart(s);
      forall r | r in old(semaphores)
        ensures semaphores[r].Value() == old(semaphores[r].Value())
      {
        assert old(Owns(semaphores[r]));
      }
    }

    // The scheduler.

    method ReadyToRun(t: Tid)
      requires Valid() && t !in Value().ready
      modifies Repr
      ensures Valid() && fresh(Repr - old(Repr))
      ensures Value() == Readied(old(Value()), t)
    {
      hide Lists.List<Tid>.Valid, Lists.List<Tid>.Holding;
      status := status[t := READY];
      ready.Append(t);
      Repr := Repr + ready.Repr;
      Kept(ready);
    }

    method FindNextToRun() returns (next: Option<Tid>)
      requires Valid()
      modifies Repr
      ensures Valid() && fresh(Repr - old(Repr))
      ensures var queue := old(Value().ready);
              && next == (if queue == [] then None else Some(queue[0]))
              && Value() == old(Value()).(ready := if queue == [] then [] else queue[1..])
    {
      hide Lists.List<Tid>.Valid, Lists.List<Tid>.Holding;
      next := None;
      var empty := ready.IsEmpty();
      if !empty {
        var t := ready.RemoveFront();
        next := Some(t);
      }
      Kept(ready);
    }

    /** Up to the switch; the thread switched to goes on in `Arrive`. */
    method Run(next: Tid, finishing: bool)
      requires Valid() && current in doing && finishing == doing[current].Finishing?
      requires (finishing ==> toBeDestroyed.None?)
      modifies Repr
      ensures Valid() && fresh(Repr - old(Repr))
      ensures Value() == SwitchTo(old(Value()), next)
    {
      hide Lists.List<Tid>.Valid, Lists.List<Tid>.Holding;
      if finishing {
        toBeDestroyed := Some(current);
      }
      current := next;
      status := status[next := RUNNING];
      mode := Arriving;
      Moved();
    }

    method CheckToBeDestroyed()
      requires Valid()
      modifies Repr
      ensures Valid() && fresh(Repr - old(Repr))
      ensures Value() == Reap(old(Value()))
    {
      hide Lists.List<Tid>.Valid, Lists.List<Tid>.Holding;
      if toBeDestroyed.Some? {
        status, doing := status - {toBeDestroyed.value}, doing - {toBeDestroyed.value};
        toBeDestroyed := None;
      }
      Moved();
    }

    // Threads.

    method CreateThread(t: Tid)
      requires Valid() && May(Value(), Event.CreateThread(t))
      modifies Repr
      ensures Valid() && fresh(Repr - old(Repr))
      ensures Steps(old(Value()), Event.CreateThread(t), Value())
    {
      StepKeeps(Value(), Event.CreateThread(t));
      hide Lists.List<Tid>.Valid, Lists.List<Tid>.Holding;
      hide Inv;
      status, doing := status[t := JUST_CREATED], doing[t := Normal];
      Moved();
    }

    method Fork(t: Tid)
      requires Valid() && May(Value(), Event.Fork(t))
      modifies Repr
      ensures Valid() && fresh(Repr - old(Repr))
      ensures Steps(old(Value()), Event.Fork(t), Value())
    {
      hide Valid, Inv;
      StepKeeps(Value(), Event.Fork(t));
      ReadyToRun(t);
    }

    method Yield()
      requires Valid() && May(Value(), Event.Yield)
      modifies Repr
      ensures Valid() && fresh(Repr - old(Repr))
      ensures Steps(old(Value()), Event.Yield, Value())
    {
      hide Valid, Inv;
      StepKeeps(Value(), Event.Yield);
      Ordinary(Value());
      var next := FindNextToRun();
      if next.Some? {
        ReadyToRun(current);
        Run(next.value, false);
      }
    }

    /** Finishing, and sleeping in general, blocks the current thread; `Dispatch` finds the next one. */
    method Sleep(why: Doing)
      requires Valid()
      modifies Repr
      ensures Valid() && fresh(Repr - old(Repr))
      ensures Value() == old(SetStatus(Value(), current, BLOCKED).(doing := doing[current := why], mode := Idle))
    {
      hide Lists.List<Tid>.Valid, Lists.List<Tid>.Holding;
      doing := doing[current := why];
      status := status[current := BLOCKED];
      mode := Idle;
      Moved();
    }

    method Finish()
      requires Valid() && May(Value(), Event.Finish)
      modifies Repr
      ensures Valid() && fresh(Repr - old(Repr))
      ensures Steps(old(Value()), Event.Finish, Value())
    {
      hide Valid, Inv;
      StepKeeps(Value(), Event.Finish);
      Sleep(Finishing);
    }

    /** The end of the idle loop in `Sleep`: somebody is ready. */
    method Dispatch()
      requires Valid() && May(Value(), Event.Dispatch)
      modifies Repr
      ensures Valid() && fresh(Repr - old(Repr))
      ensures Steps(old(Value()), Event.Dispatch, Value())
    {
      hide Valid, Inv;
      StepKeeps(Value(), Event.Dispatch);
      var next := FindNextToRun();
      Run(next.value, doing[current].Finishing?);
    }

    /** Back to ordinary code. */
    method Resume()
      requires Valid()
      modifies Repr
      ensures Valid() && fresh(Repr - old(Repr))
      ensures Value() == old(Value().(doing := doing[current := Normal], mode := Running))
    {
      hide Lists.List<Tid>.Valid, Lists.List<Tid>.Holding;
      doing := doing[current := Normal];
      mode := Running;
      Moved();
    }

    /** After the switch, in the thread switched to: bury the dead, and go back to what it was doing. */
    method Arrive()
      requires Valid() && May(Value(), Event.Arrive)
      modifies Repr
      ensures Valid() && fresh(Repr - old(Repr))
      ensures Steps(old(Value()), Event.Arrive, Value())
    {
      hide Valid, Inv;
      StepKeeps(Value(), Event.Arrive);
      CheckToBeDestroyed();
      if doing[current].InP? {
        TurnOfP(doing[current].sem);
      } else {
        assert doing[current := Normal] == doing;
        Resume();
      }
    }

    // Semaphores.

    method CreateSemaphore(s: Sid, initialValue: nat)
      requires Valid() && May(Value(), Event.CreateSemaphore(s, initialValue))
      modifies Repr
      ensures Valid() && fresh(Repr - old(Repr))
      ensures Steps(old(Value()), Event.CreateSemaphore(s, initialValue), Value())
    {
      hide Valid, Inv;
      StepKeeps(Value(), Event.CreateSemaphore(s, initialValue));
      NewSemaphore(s, initialValue);
    }

    method NewSemaphore(s: Sid, initialValue: nat)
      requires Valid() && s !in Value().sems
      modifies Repr
      ensures Valid() && fresh(Repr - old(Repr))
      ensures Value() == WithSem(old(Value()), s, Sem(initialValue, []))
    {
      hide Lists.List<Tid>.Valid, Lists.List<Tid>.Holding;
      var sem := new Semaphore(initialValue);
      semaphores := semaphores[s := sem];
      Repr := Repr + {sem} + sem.queue.Repr;
      Added(s);
    }

    /** A sleeper in `P` queues up. */
    method Enqueue(s: Sid)
      requires Valid() && s in Value().sems && current !in Value().sems[s].queue
      modifies Repr
      ensures Valid() && fresh(Repr - old(Repr))
      ensures Value() == old(WithSem(Value(), s, Value().sems[s].(queue := Value().sems[s].queue + [current])))
    {
      hide Lists.List<Tid>.Valid, Lists.List<Tid>.Holding;
      var sem := semaphores[s];
      assert Owns(sem);
      sem.queue.Append(current);
      Repr := Repr + sem.queue.Repr;
      Kept(sem.queue);
    }

    /** `V` wakes the first sleeper, if there is one. */
    method Dequeue(s: Sid) returns (sleeper: Option<Tid>)
      requires Valid() && s in Value().sems
      modifies Repr
      ensures Valid() && fresh(Repr - old(Repr))
      ensures var queue := old(Value().sems[s].queue);
              && sleeper == (if queue == [] then None else Some(queue[0]))
              && Value() == old(if queue == [] then Value()
                                else WithSem(Value(), s, Value().sems[s].(queue := queue[1..])))
    {
      hide Lists.List<Tid>.Valid, Lists.List<Tid>.Holding;
      sleeper := None;
      var sem := semaphores[s];
      assert Owns(sem);
      var empty := sem.queue.IsEmpty();
      if !empty {
        var t := sem.queue.RemoveFront();
        sleeper := Some(t);
      }
      Kept(sem.queue);
    }

    method TakeUnit(s: Sid)
      requires Valid() && s in Value().sems && Value().sems[s].value > 0
      modifies Repr
      ensures Valid() && fresh(Repr - old(Repr))
      ensures Value() == old(WithSem(Value(), s, Down(Value().sems[s])))
    {
      hide Lists.List<Tid>.Valid, Lists.List<Tid>.Holding;
      var sem := semaphores[s];
      assert Owns(sem);
      sem.Take();
      Counted(s);
    }

    method GiveUnit(s: Sid)
      requires Valid() && s in Value().sems
      modifies Repr
      ensures Valid() && fresh(Repr - old(Repr))
      ensures Value() == old(WithSem(Value(), s, Up(Value().sems[s])))
    {
      hide Lists.List<Tid>.Valid, Lists.List<Tid>.Holding;
      var sem := semaphores[s];
      assert Owns(sem);
      sem.Give();
      Counted(s);
    }

    method IsZero(s: Sid) returns (zero: bool)
      requires Valid() && s in Value().sems
      ensures zero <==> Value().sems[s].value == 0
    {
      zero := semaphores[s].value == 0;
    }

    /** One turn of the loop of `P`: sleep while the value is zero, otherwise take one unit. */
    method TurnOfP(s: Sid)
      requires Valid() && s in Value().sems && current !in Value().sems[s].queue
      modifies Repr
      ensures Valid() && fresh(Repr - old(Repr))
      ensures Value() == TestP(old(Value()), s)
    {
      hide Valid;
      var none := IsZero(s);
      if none {
        Enqueue(s);
        Sleep(InP(s));
      } else {
        TakeUnit(s);
        Resume();
      }
    }

    method P(s: Sid)
      requires Valid() && May(Value(), Event.P(s))
      modifies Repr
      ensures Valid() && fresh(Repr - old(Repr))
      ensures Steps(old(Value()), Event.P(s), Value())
    {
      hide Valid, Inv;
      StepKeeps(Value(), Event.P(s));
      TurnOfP(s);
    }

    method V(s: Sid)
      requires Valid() && May(Value(), Event.V(s))
      modifies Repr
      ensures Valid() && fresh(Repr - old(Repr))
      ensures Steps(old(Value()), Event.V(s), Value())
    {
      hide Valid, Inv;
      StepKeeps(Value(), Event.V(s));
      DoVParts(Value(), s);
      var sleeper := Dequeue(s);
      if sleeper.Some? {
        ReadyToRun(sleeper.value);
      }
      GiveUnit(s);
    }
  }
}
