/**
 The synchronized list by the calls made on it: which call of `Append` an item comes from, which call of
 `RemoveFront` it goes to, and that each finished call has appended, or got, exactly one.
 */
module SynchListCalls {
  import opened Options
  import opened SynchList

  /** The item a thread was last called upon to append among the first `i` events; none if it was last to remove. */
  function LastAppend(events: seq<Event>, t: Tid, i: nat): Option<Item>
    requires i <= |events|
  {
    if i == 0 then None
    else
      match events[i - 1]
      case BeginAppend(u, x) => if u == t then Some(x) else LastAppend(events, t, i - 1)
      case BeginRemove(u) => if u == t then None else LastAppend(events, t, i - 1)
      case Step(_) => LastAppend(events, t, i - 1)
  }

  /** Event `k` puts an item on the list, or takes one off. */
  predicate Appends(s: State, e: Event) { e.Step? && e.t in s.pc && s.pc[e.t].AppendItem? }

  predicate Removes(s: State, e: Event) { e.Step? && e.t in s.pc && s.pc[e.t].Take? && s.list != [] }

  /** The items appended by the first `i` events, each told from the call it was appended for. */
  function ItemsIn(states: seq<State>, events: seq<Event>, i: nat): seq<Option<Item>>
    requires i <= |events| < |states|
  {
    if i == 0 then []
    else
      ItemsIn(states, events, i - 1)
      + if Appends(states[i - 1], events[i - 1]) then [LastAppend(events, events[i - 1].t, i - 1)] else []
  }

  /** The items that calls of `RemoveFront` were given by the first `i` events. */
  function ItemsOut(states: seq<State>, events: seq<Event>, i: nat): seq<Item>
    requires i <= |events| < |states|
  {
    if i == 0 then []
    else
      ItemsOut(states, events, i - 1)
      + if Removes(states[i - 1], events[i - 1]) then [states[i - 1].list[0]] else []
  }

  /** A call of `Append` that has not appended yet, and the item it is to append. */
  function ToAppend(p: Pc): Option<Item> {
    match p
    case Acquire(ForAppend(x), _) => Some(x)
    case AcquireAsleep(ForAppend(x)) => Some(x)
    case Acquired(ForAppend(x)) => Some(x)
    case AppendItem(x) => Some(x)
    case _ => None
  }

  /** A call of `RemoveFront` that has not got an item yet. */
  predicate ToRemove(p: Pc) {
    match p
    case Acquire(g, _) => !g.ForAppend?
    case AcquireAsleep(g) => !g.ForAppend?
    case Acquired(g) => !g.ForAppend?
    case Test(_) => true
    case Enqueue => true
    case Take => true
    case ClearHolder(a) => a == Await
    case ReleaseV(a) => a == Await
    case WaitP => true
    case WaitAsleep => true
    case DeleteWaiter => true
    case _ => false
  }

  /** What a step does to the calls: only its own thread's, and that only when it appends or takes. */
  lemma StepCalls(s: State, t: Tid, u: Tid)
    requires Runnable(s, t) && Safe(s, t) && u in s.pc
    ensures var s' := Act(s, t);
            && u in s'.pc && ToAppend(s'.pc[u]) == (if u == t && s.pc[t].AppendItem? then None else ToAppend(s.pc[u]))
            && (ToRemove(s'.pc[u]) <==> !(u == t && s.pc[t].Take?) && ToRemove(s.pc[u]))
  {
    if u == t { OwnCall(s, t); } else { OtherCall(s, t, u); }
  }

  lemma OwnCall(s: State, t: Tid)
    requires Runnable(s, t) && Safe(s, t)
    ensures t in Act(s, t).pc
    ensures var p' := Act(s, t).pc[t];
            && ToAppend(p') == (if s.pc[t].AppendItem? then None else ToAppend(s.pc[t]))
            && (ToRemove(p') <==> !s.pc[t].Take? && ToRemove(s.pc[t]))
  {
  }

  lemma OtherCall(s: State, t: Tid, u: Tid)
    requires Runnable(s, t) && Safe(s, t) && u in s.pc && u != t
    ensures var s' := Act(s, t);
            u in s'.pc && ToAppend(s'.pc[u]) == ToAppend(s.pc[u]) && ToRemove(s'.pc[u]) == ToRemove(s.pc[u])
  {
  }

  lemma StepList(s: State, t: Tid)
    requires Runnable(s, t) && Safe(s, t)
    ensures var s' := Act(s, t);
            && (s.pc[t].AppendItem? ==> s'.list == s.list + [s.pc[t].item])
            && (s.pc[t].Take? ==> s.list != [] && s'.list == s.list[1..])
            && (!s.pc[t].AppendItem? && !s.pc[t].Take? ==> s'.list == s.list)
  {
  }

  lemma NextCalls(s: State, e: Event, s': State, u: Tid)
    requires Next(s, e, s') && u in s'.pc
    ensures u in s.pc
    ensures ToAppend(s'.pc[u])
         == if e.BeginAppend? && e.t == u then Some(e.item)
            else if e.Step? && e.t == u && s.pc[u].AppendItem? then None else ToAppend(s.pc[u])
    ensures ToRemove(s'.pc[u]) <==>
              if e.BeginRemove? && e.t == u then true
              else !(e.BeginAppend? && e.t == u) && !(e.Step? && e.t == u && s.pc[u].Take?) && ToRemove(s.pc[u])
    ensures e.BeginAppend? || e.BeginRemove? ==> s'.list == s.list && s.pc[e.t] == Outside
  {
    hide Act, Safe;
    match e
    case Step(t) =>
      SameThreads(s, t);
      StepCalls(s, t, u);
    case _ =>
  }

  lemma SameThreads(s: State, t: Tid)
    requires Runnable(s, t) && Safe(s, t)
    ensures Act(s, t).pc.Keys == s.pc.Keys
  {
  }

  /** A call on its way to append has the item it was called with. */
  lemma {:induction false} CallsItem(states: seq<State>, events: seq<Event>, i: nat, t: Tid)
    requires IsRun(states, events) && i < |states| && t in states[i].pc
    ensures ToAppend(states[i].pc[t]).Some? ==> ToAppend(states[i].pc[t]) == LastAppend(events, t, i)
  {
    hide Next, Init;
    if i == 0 {
      StartsOutside(states[0], t);
    } else {
      assert Next(states[i - 1], events[i - 1], states[i]);
      NextCalls(states[i - 1], events[i - 1], states[i], t);
      CallsItem(states, events, i - 1, t);
      hide ToAppend, ToRemove;
      BeginsIdle(states[i - 1], events[i - 1], states[i]);
    }
  }

  lemma StartsOutside(s: State, t: Tid)
    requires Init(s) && t in s.pc
    ensures s.pc[t] == Outside && s.list == []
  {
  }

  lemma BeginsIdle(s: State, e: Event, s': State)
    requires Next(s, e, s')
    ensures e.BeginRemove? ==> e.t in s'.pc && ToAppend(s'.pc[e.t]) == None
  {
    hide Act, Safe;
  }

  /** What went in is what came out and then what is there. */
  predicate InOrder(into: seq<Option<Item>>, out: seq<Item>, list: seq<Item>) {
    && |into| == |out| + |list|
    && (forall k :: 0 <= k < |out| ==> into[k] == Some(out[k]))
    && (forall k :: 0 <= k < |list| ==> into[|out| + k] == Some(list[k]))
  }

  lemma OneIn(into: seq<Option<Item>>, out: seq<Item>, list: seq<Item>, x: Item)
    requires InOrder(into, out, list)
    ensures InOrder(into + [Some(x)], out, list + [x])
  {
  }

  lemma OneOut(into: seq<Option<Item>>, out: seq<Item>, list: seq<Item>)
    requires InOrder(into, out, list) && list != []
    ensures InOrder(into, out + [list[0]], list[1..])
  {
    forall k | 0 <= k < |list| - 1
      ensures into[|out| + 1 + k] == Some(list[1..][k])
    {
      assert into[|out| + (k + 1)] == Some(list[k + 1]);
    }
  }

  /**
   On every run: the list holds, in order, the items of the calls of `Append` that have appended, less those that
   calls of `RemoveFront` have got; so what the k-th removal gets is the item of the k-th call to append.
   */
  lemma {:induction false} ItemsInOrder(states: seq<State>, events: seq<Event>, i: nat)
    requires IsRun(states, events) && i < |states|
    ensures InOrder(ItemsIn(states, events, i), ItemsOut(states, events, i), states[i].list)
  {
    hide Next, Init, Act, InOrder, Safe, LastAppend, Appends, Removes;
    if i > 0 {
      ItemsInOrder(states, events, i - 1);
      var s, e, s' := states[i - 1], events[i - 1], states[i];
      assert Next(s, e, s');
      if Appends(s, e) {
        AppendsOwn(s, e);
        CallsItem(states, events, i - 1, e.t);
      }
      ItemsStep(s, e, s', ItemsIn(states, events, i - 1), ItemsOut(states, events, i - 1));
    } else {
      NothingYet(states[0]);
    }
  }

  lemma NothingYet(s: State)
    requires Init(s)
    ensures InOrder([], [], s.list)
  {
  }

  lemma AppendsOwn(s: State, e: Event)
    requires Appends(s, e)
    ensures e.t in s.pc && ToAppend(s.pc[e.t]).Some?
  {
  }

  lemma ItemsStep(s: State, e: Event, s': State, into: seq<Option<Item>>, out: seq<Item>)
    requires Next(s, e, s') && InOrder(into, out, s.list)
    ensures var into' := into + if Appends(s, e) then [ToAppend(s.pc[e.t])] else [];
            var out' := out + if Removes(s, e) then [s.list[0]] else [];
            InOrder(into', out', s'.list)
  {
    hide InOrder, Act, Safe;
    assert into + [] == into && out + [] == out;
    if e.Step? {
      StepRuns(s, e, s');
      StepList(s, e.t);
      hide Next, Runnable;
      if s.pc[e.t].AppendItem? {
        OneIn(into, out, s.list, s.pc[e.t].item);
      } else if s.pc[e.t].Take? {
        OneOut(into, out, s.list);
      }
    } else {
      BeginsQuietly(s, e, s');
    }
  }

  lemma StepRuns(s: State, e: Event, s': State)
    requires Next(s, e, s') && e.Step?
    ensures Runnable(s, e.t) && Safe(s, e.t) && s' == Act(s, e.t)
  {
    hide Act, Safe;
  }

  lemma BeginsQuietly(s: State, e: Event, s': State)
    requires Next(s, e, s') && !e.Step?
    ensures s'.list == s.list
  {
    hide Act, Safe;
  }

  // ---- each call once ----

  /** How often a thread is called to append, or to remove, by the first `i` events. */
  function Calls(events: seq<Event>, t: Tid, appending: bool, i: nat): nat
    requires i <= |events|
  {
    if i == 0 then 0
    else
      var e := events[i - 1];
      Calls(events, t, appending, i - 1)
      + if (if appending then e.BeginAppend? else e.BeginRemove?) && e.t == t then 1 else 0
  }

  /** How often it has appended, or taken. */
  function Effects(states: seq<State>, events: seq<Event>, t: Tid, appending: bool, i: nat): nat
    requires i <= |events| < |states|
  {
    if i == 0 then 0
    else
      var s, e := states[i - 1], events[i - 1];
      Effects(states, events, t, appending, i - 1)
      + if (if appending then Appends(s, e) else Removes(s, e)) && e.t == t then 1 else 0
  }

  /**
   On every run each call takes effect once: a thread has appended as often as it was called to, but for a call still
   on its way, and has got as many items as it was called to remove, but for one it is still to get.
   */
  lemma {:induction false} EachCallOnce(states: seq<State>, events: seq<Event>, i: nat, t: Tid)
    requires IsRun(states, events) && i < |states| && t in states[i].pc
    ensures var p := states[i].pc[t];
            && Calls(events, t, true, i) == Effects(states, events, t, true, i) + (if ToAppend(p).Some? then 1 else 0)
            && Calls(events, t, false, i) == Effects(states, events, t, false, i) + (if ToRemove(p) then 1 else 0)
  {
    if i == 0 {
    } else {
      var s, e, s' := states[i - 1], events[i - 1], states[i];
      assert Next(s, e, s');
      NextCalls(s, e, s', t);
      EachCallOnce(states, events, i - 1, t);
      EffectsHere(s, e, s', t);
      hide Next, Init, Act, ToAppend, ToRemove, Appends, Removes;
    }
  }

  lemma EffectsHere(s: State, e: Event, s': State, t: Tid)
    requires Next(s, e, s') && t in s.pc
    ensures Appends(s, e) && e.t == t ==> ToAppend(s.pc[t]).Some?
    ensures Removes(s, e) && e.t == t ==> ToRemove(s.pc[t])
    ensures e.Step? && e.t == t ==> (Appends(s, e) <==> s.pc[t].AppendItem?) && (Removes(s, e) <==> s.pc[t].Take?)
    ensures !e.Step? && e.t == t ==> ToAppend(s.pc[t]).None? && !ToRemove(s.pc[t])
  {
    hide Act;
  }

  // ---- first come, first served ----

  /**
   Threads join the queue of the condition, and that of the lock, at the end, and leave it from the front: a signal
   goes to the first waiter, and a release wakes the first sleeper.
   */
  lemma QueuesFifo(s: State, e: Event, s': State)
    requires Inv(s) && Next(s, e, s')
    ensures s'.waitQueue == s.waitQueue
         || (e.Step? && s'.waitQueue == s.waitQueue + [e.t])
         || (e.Step? && s.waitQueue != [] && s'.waitQueue == s.waitQueue[1..] && e.t in s'.pc
             && s'.pc[e.t] == SignalV(s.waitQueue[0]))
    ensures s'.lockQueue == s.lockQueue
         || (e.Step? && s'.lockQueue == s.lockQueue + [e.t])
         || (e.Step? && s.lockQueue != [] && s'.lockQueue == s.lockQueue[1..]
             && s.lockQueue[0] in s'.pc && s'.pc[s.lockQueue[0]].Acquire?)
    ensures e.Step? && e.t in s.pc && s.pc[e.t].Signal? && s.waitQueue != [] ==> s'.waitQueue == s.waitQueue[1..]
    ensures e.Step? && e.t in s.pc && s.pc[e.t].ReleaseV? && s.lockQueue != [] ==> s'.lockQueue == s.lockQueue[1..]
  {
    hide Mutex, Fifo, NoLostSignal, Queued, Signalled, Signallers, WaiterSet;
    if e.Step? && s.pc[e.t].ReleaseV? && s.lockQueue != [] {
      assert s.lockQueue[0] in s.lockQueue;
    }
  }
}
