/**
 Threads, the FIFO scheduler and counting semaphores (threads/thread.cc, threads/scheduler.cc,
 threads/synch.cc) as one transition system.  A step is a section of code with interrupts off;
 the current thread may lose the processor between any two steps.
 */
module Kernel {
  import opened Options
  import opened Lists

  type Tid = int
  type Sid = int

  datatype Status = JUST_CREATED | RUNNING | READY | BLOCKED

  datatype Sem = Sem(value: nat, queue: seq<Tid>)

  /** What a thread was in the middle of when it last gave up the processor. */
  datatype Doing = Normal | InP(sem: Sid) | Finishing

  /**
   Running: the current thread executes ordinary code.  Idle: it is inside `Sleep`, looking for a
   thread to run, so that only interrupt handlers act.  Arriving: `SWITCH` has just returned in it.
   */
  datatype Mode = Running | Idle | Arriving

  datatype State = State(
    status: map<Tid, Status>, doing: map<Tid, Doing>,
    current: Tid, mode: Mode, ready: seq<Tid>, toBeDestroyed: Option<Tid>,
    sems: map<Sid, Sem>)

  datatype Event =
    | CreateThread(t: Tid) | Fork(t: Tid) | Yield | Finish
    | CreateSemaphore(s: Sid, initial: nat) | P(s: Sid) | V(s: Sid)
    | Dispatch | Arrive

  /** Main thread running, nothing else. */
  predicate Init(k: State) {
    && k.status == map[k.current := RUNNING] && k.doing == map[k.current := Normal]
    && k.mode == Running && k.ready == [] && k.toBeDestroyed == None && k.sems == map[]
  }

  // ---- the code's routines, as state transformers ----

  function SetStatus(k: State, t: Tid, st: Status): State { k.(status := k.status[t := st]) }

  function Readied(k: State, t: Tid): State { SetStatus(k, t, READY).(ready := k.ready + [t]) }

  /** `Scheduler::Run` up to `SWITCH`. */
  function SwitchTo(k: State, next: Tid): State
    requires k.current in k.doing
  {
    SetStatus(k, next, RUNNING).(
      current := next, mode := Arriving,
      toBeDestroyed := if k.doing[k.current].Finishing? then Some(k.current) else k.toBeDestroyed)
  }

  /** One turn of the loop in `P`: take the semaphore, or queue up and go to sleep. */
  function TestP(k: State, s: Sid): State
    requires s in k.sems
  {
    var sem := k.sems[s];
    if sem.value > 0 then
      k.(sems := k.sems[s := sem.(value := sem.value - 1)],
         doing := k.doing[k.current := Normal], mode := Running)
    else
      SetStatus(k, k.current, BLOCKED).(
        sems := k.sems[s := sem.(queue := sem.queue + [k.current])],
        doing := k.doing[k.current := InP(s)], mode := Idle)
  }

  function DoV(k: State, s: Sid): State
    requires s in k.sems
  {
    var sem := k.sems[s];
    var k1 := if sem.queue == [] then k else Readied(k, sem.queue[0]);
    k1.(sems := k.sems[s := sem.(value := sem.value + 1,
                                 queue := if sem.queue == [] then [] else sem.queue[1..])])
  }

  /** `CheckToBeDestroyed`. */
  function Reap(k: State): State {
    if k.toBeDestroyed.None? then k
    else k.(status := k.status - {k.toBeDestroyed.value}, doing := k.doing - {k.toBeDestroyed.value},
      toBeDestroyed := None)
  }

  /** The assertions of the code at each step (and that named threads and semaphores are the right kind). */
  predicate Enabled(k: State, e: Event) {
    match e
    case CreateThread(t) => k.mode == Running && t !in k.status
    case Fork(t) => k.mode == Running && t in k.status && k.status[t] == JUST_CREATED
    case Yield => k.mode == Running
    case Finish => k.mode == Running
    case CreateSemaphore(s, _) => k.mode == Running && s !in k.sems
    case P(s) => k.mode == Running && s in k.sems
    case V(s) => k.mode != Arriving && s in k.sems
    case Dispatch => k.mode == Idle && k.ready != []
    case Arrive => k.mode == Arriving
  }

  /** Assertions that are not the caller's business but must come out true. */
  predicate Asserted(k: State, e: Event) {
    match e
    case Dispatch => k.current in k.doing && (k.doing[k.current].Finishing? ==> k.toBeDestroyed.None?)
    case Yield => k.current in k.doing && k.current !in k.ready && k.toBeDestroyed.None?
    case V(s) => s in k.sems ==> (k.sems[s].queue != [] ==> k.sems[s].queue[0] !in k.ready)
    case Fork(t) => t !in k.ready
    case P(s) => s in k.sems ==> k.current !in k.sems[s].queue
    case Arrive => k.current in k.doing && k.toBeDestroyed != Some(k.current) && !k.doing[k.current].Finishing?
         && (k.doing[k.current].InP? ==>
               k.doing[k.current].sem in k.sems && k.current !in k.sems[k.doing[k.current].sem].queue)
    case _ => true
  }

  function Do(k: State, e: Event): State
    requires Enabled(k, e) && Asserted(k, e)
  {
    match e
    case CreateThread(t) => SetStatus(k, t, JUST_CREATED).(doing := k.doing[t := Normal])
    case Fork(t) => Readied(k, t)
    case Yield =>
      if k.ready == [] then k
      else
        SwitchTo(Readied(k.(ready := k.ready[1..]), k.current), k.ready[0])
    case Finish => SetStatus(k, k.current, BLOCKED).(doing := k.doing[k.current := Finishing], mode := Idle)
    case CreateSemaphore(s, v) => k.(sems := k.sems[s := Sem(v, [])])
    case P(s) => TestP(k, s)
    case V(s) => DoV(k, s)
    case Dispatch => SwitchTo(k.(ready := k.ready[1..]), k.ready[0])
    case Arrive =>
      var k1 := Reap(k);
      if k.doing[k.current].InP? then TestP(k1, k.doing[k.current].sem) else k1.(mode := Running)
  }

  predicate IsRun(states: seq<State>, events: seq<Event>) {
    && |states| == |events| + 1 && Init(states[0])
    && forall i :: 0 <= i < |events| ==>
         Enabled(states[i], events[i]) && (Asserted(states[i], events[i]) ==> states[i + 1] == Do(states[i], events[i]))
  }

  // ---- the invariant ----

  /** Exactly the current thread is RUNNING, except inside `Sleep`, where no thread is. */
  predicate OneRunning(k: State) {
    && k.doing.Keys == k.status.Keys && k.current in k.status
    && (forall t :: t in k.status ==> (k.status[t] == RUNNING <==> t == k.current && k.mode != Idle))
  }

  ghost predicate ReadyList(k: State) {
    && NoRepeats(k.ready)
    && forall t :: t in k.ready <==> t in k.status && k.status[t] == READY
  }

  /** A thread's status fits what it is in the middle of. */
  predicate Activities(k: State) {
    && (forall t :: t in k.status && t in k.doing && k.status[t] == JUST_CREATED ==> k.doing[t] == Normal)
    && (forall t :: t in k.status && t in k.doing && k.status[t] == BLOCKED ==> !k.doing[t].Normal?)
    && (forall t :: t in k.status && t in k.doing && k.doing[t].Finishing? ==> k.status[t] == BLOCKED)
    && (forall t :: t in k.doing && k.doing[t].InP? ==> k.doing[t].sem in k.sems)
    && (k.mode == Running ==> k.current in k.doing && k.doing[k.current] == Normal)
    && (k.mode == Idle ==> k.current in k.doing && k.doing[k.current] != Normal)
  }

  /**
   A finished thread is the one still inside `Sleep`, or the one awaiting destruction, of which there is at
   most one.
   */
  predicate Corpses(k: State) {
    && (forall t :: t in k.doing && k.doing[t].Finishing? ==>
          (t == k.current && k.mode == Idle) || k.toBeDestroyed == Some(t))
    && (k.toBeDestroyed.Some? ==>
          k.mode == Arriving && k.toBeDestroyed.value in k.doing && k.doing[k.toBeDestroyed.value].Finishing?
          && k.toBeDestroyed.value != k.current)
  }

  /** The queue of a semaphore holds exactly the threads blocked in a P on it. */
  ghost predicate Queues(k: State) {
    forall s :: s in k.sems ==>
      && NoRepeats(k.sems[s].queue)
      && forall t :: t in k.sems[s].queue <==>
           t in k.status && t in k.doing && k.status[t] == BLOCKED && k.doing[t] == InP(s)
  }

  /** Woken from `s`, and not yet testing it again. */
  predicate IsWoken(k: State, s: Sid, t: Tid) {
    t in k.doing && k.doing[t] == InP(s) && t in k.status && k.status[t] != BLOCKED
  }

  ghost function Woken(k: State, s: Sid): set<Tid> {
    set t | t in k.doing && IsWoken(k, s, t)
  }

  ghost predicate Counts(k: State) {
    forall s :: s in k.sems && k.sems[s].queue != [] ==> k.sems[s].value <= |Woken(k, s)|
  }

  ghost predicate Inv(k: State) {
    OneRunning(k) && ReadyList(k) && Activities(k) && Corpses(k) && Queues(k) && Counts(k)
  }

  lemma AssertionsHold(k: State, e: Event)
    requires Inv(k) && Enabled(k, e)
    ensures Asserted(k, e)
  {
    hide Counts;
    match e
    case V(s) =>
      if k.sems[s].queue != [] {
        var w := k.sems[s].queue[0];
        assert w in k.sems[s].queue;
        assert k.status[w] == BLOCKED;
      }
    case P(s) =>
      assert k.status[k.current] == RUNNING;
      assert k.current !in k.sems[s].queue;
    case Fork(t) =>
    case Yield =>
    case Dispatch =>
    case Arrive =>
      assert k.status[k.current] == RUNNING;
      assert forall s :: s in k.sems ==> k.current !in k.sems[s].queue;
    case _ =>
  }

  lemma TailOf(q: seq<Tid>)
    requires NoRepeats(q) && q != []
    ensures NoRepeats(q[1..]) && q[0] !in q[1..]
    ensures forall t :: t in q <==> t == q[0] || t in q[1..]
  {
    assert q == [q[0]] + q[1..];
  }

  lemma AppendTo(q: seq<Tid>, t: Tid)
    requires NoRepeats(q) && t !in q
    ensures NoRepeats(q + [t])
    ensures forall u :: u in q + [t] <==> u == t || u in q
  {
    forall i, j | 0 <= i < j < |q + [t]|
      ensures (q + [t])[i] != (q + [t])[j]
    {
      assert (q + [t])[i] == q[i];
    }
  }

  /** What must hold as the current thread enters, or comes back to, the loop of `P`. */
  ghost predicate Testing(k: State, s: Sid) {
    && OneRunning(k) && ReadyList(k) && Corpses(k) && Queues(k) && Counts(k) && Activities(k.(mode := Arriving))
    && k.mode != Idle && s in k.sems && k.toBeDestroyed.None?
    && (k.doing[k.current] == Normal || k.doing[k.current] == InP(s))
  }

  lemma TestPThreads(k: State, s: Sid)
    requires Testing(k, s)
    ensures var k' := TestP(k, s);
            OneRunning(k') && ReadyList(k') && Activities(k') && Corpses(k')
  {
    hide Queues, Counts;
    assert k.status[k.current] == RUNNING && k.current !in k.ready;
  }

  lemma TestPQueues(k: State, s: Sid)
    requires Testing(k, s)
    ensures Queues(TestP(k, s))
  {
    hide Counts, Activities, Corpses, ReadyList;
    assert k.status[k.current] == RUNNING && k.current !in k.sems[s].queue;
    if k.sems[s].value == 0 {
      AppendTo(k.sems[s].queue, k.current);
    }
  }

  lemma TestPCounts(k: State, s: Sid)
    requires Testing(k, s)
    ensures Counts(TestP(k, s))
  {
    hide Queues, Activities, Corpses, ReadyList;
    var k' := TestP(k, s);
    forall r | r in k.sems && r != s
      ensures Woken(k', r) == Woken(k, r)
    {
      assert forall t :: IsWoken(k', r, t) == IsWoken(k, r, t);
    }
    assert Woken(k', s) == Woken(k, s) - {k.current};
  }

  lemma TestPKeeps(k: State, s: Sid)
    requires Testing(k, s)
    ensures Inv(TestP(k, s))
  {
    TestPThreads(k, s);
    TestPQueues(k, s);
    TestPCounts(k, s);
  }

  lemma DoVThreads(k: State, s: Sid)
    requires Inv(k) && k.mode != Arriving && s in k.sems
    ensures var k' := DoV(k, s);
            OneRunning(k') && ReadyList(k') && Activities(k') && Corpses(k')
  {
    hide Counts;
    if k.sems[s].queue != [] {
      var w := k.sems[s].queue[0];
      assert w in k.sems[s].queue;
      AppendTo(k.ready, w);
    }
  }

  lemma DoVQueues(k: State, s: Sid)
    requires Inv(k) && k.mode != Arriving && s in k.sems
    ensures Queues(DoV(k, s))
  {
    hide Counts, Corpses, ReadyList;
    if k.sems[s].queue != [] {
      assert k.sems[s].queue[0] in k.sems[s].queue;
      TailOf(k.sems[s].queue);
    }
  }

  lemma DoVCounts(k: State, s: Sid)
    requires Inv(k) && k.mode != Arriving && s in k.sems
    ensures Counts(DoV(k, s))
  {
    hide Corpses, ReadyList, OneRunning, Activities;
    var k' := DoV(k, s);
    var q := k.sems[s].queue;
    if q != [] {
      assert q[0] in q;
      assert Woken(k', s) == Woken(k, s) + {q[0]};
    } else {
      assert Woken(k', s) == Woken(k, s);
    }
    forall r | r in k.sems && r != s
      ensures Woken(k', r) == Woken(k, r)
    {
      assert forall t :: IsWoken(k', r, t) == IsWoken(k, r, t);
    }
  }

  /** A step that leaves the semaphores, the blocked threads and what each thread is doing alone. */
  lemma SemaphoresKept(k: State, k': State)
    requires Queues(k) && Counts(k) && k'.sems == k.sems
    requires forall s, t :: s in k.sems ==> IsWoken(k', s, t) == IsWoken(k, s, t)
    requires forall s, t :: s in k.sems ==> IsBlockedIn(k', s, t) == IsBlockedIn(k, s, t)
    ensures Queues(k') && Counts(k')
  {
    forall s | s in k.sems
      ensures Woken(k', s) == Woken(k, s)
    {
    }
    forall s, t | s in k.sems
      ensures t in k'.sems[s].queue <==> IsBlockedIn(k', s, t)
    {
      assert IsBlockedIn(k', s, t) == IsBlockedIn(k, s, t);
    }
  }

  predicate IsBlockedIn(k: State, s: Sid, t: Tid) {
    t in k.status && t in k.doing && k.status[t] == BLOCKED && k.doing[t] == InP(s)
  }

  lemma ThreadStepKeeps(k: State, e: Event)
    requires Inv(k) && Enabled(k, e) && Asserted(k, e)
    requires e.CreateThread? || e.Fork? || e.Finish?
    ensures Inv(Do(k, e))
  {
    StepThreads(k, e);
    hide Counts, Queues;
    SemaphoresKept(k, Do(k, e));
  }

  lemma StepThreads(k: State, e: Event)
    requires Inv(k) && Enabled(k, e) && Asserted(k, e)
    requires e.CreateThread? || e.Fork? || e.Finish?
    ensures var k' := Do(k, e);
            OneRunning(k') && ReadyList(k') && Activities(k') && Corpses(k')
  {
    hide Counts, Queues;
    if e.Fork? {
      AppendTo(k.ready, e.t);
    }
  }

  lemma SwitchThreads(k: State, e: Event)
    requires Inv(k) && Enabled(k, e) && Asserted(k, e) && (e.Yield? || e.Dispatch?) && k.ready != []
    ensures var k' := Do(k, e);
            OneRunning(k') && ReadyList(k') && Activities(k') && Corpses(k')
  {
    hide Counts, Queues;
    assert k.ready[0] in k.ready;
    TailOf(k.ready);
    if e.Yield? {
      AppendTo(k.ready[1..], k.current);
    }
  }

  lemma SwitchKeeps(k: State, e: Event)
    requires Inv(k) && Enabled(k, e) && Asserted(k, e) && (e.Yield? || e.Dispatch?) && k.ready != []
    ensures Inv(Do(k, e))
  {
    SwitchThreads(k, e);
    assert k.ready[0] in k.ready;
    assert k.status[k.ready[0]] == READY;
    hide Counts, Queues, NoRepeats, Corpses, Activities;
    SemaphoresKept(k, Do(k, e));
  }

  lemma ReapKeeps(k: State)
    requires Inv(k) && Asserted(k, Arrive) && k.mode == Arriving
    ensures var k1 := Reap(k);
            OneRunning(k1) && ReadyList(k1) && Activities(k1) && Corpses(k1) && Queues(k1) && Counts(k1)
            && k1.toBeDestroyed.None? && k1.current == k.current && k1.mode == Arriving && k.current in k1.doing
            && k1.doing[k.current] == k.doing[k.current]
  {
    var k1 := Reap(k);
    SemaphoresKept(k, k1);
    hide Counts, Queues;
  }

  lemma ArriveKeeps(k: State)
    requires Inv(k) && Enabled(k, Arrive) && Asserted(k, Arrive)
    ensures Inv(Do(k, Arrive))
  {
    ReapKeeps(k);
    var k1 := Reap(k);
    assert k1.(mode := Arriving) == k1;
    if k.doing[k.current].InP? {
      TestPKeeps(k1, k.doing[k.current].sem);
    } else {
      SemaphoresKept(k1, k1.(mode := Running));
    }
  }

  lemma CreateSemaphoreKeeps(k: State, s: Sid, v: nat)
    requires Inv(k) && Enabled(k, CreateSemaphore(s, v))
    ensures Inv(Do(k, CreateSemaphore(s, v)))
  {
    var k' := Do(k, CreateSemaphore(s, v));
    forall r | r in k.sems
      ensures Woken(k', r) == Woken(k, r)
    {
      assert forall t :: IsWoken(k', r, t) == IsWoken(k, r, t);
    }
  }

  lemma StepKeeps(k: State, e: Event)
    requires Inv(k) && Enabled(k, e)
    ensures Asserted(k, e) && Inv(Do(k, e))
  {
    AssertionsHold(k, e);
    match e
    case P(s) =>
      assert Testing(k, s) by { assert Activities(k.(mode := Arriving)); }
      TestPKeeps(k, s);
    case V(s) => DoVThreads(k, s); DoVQueues(k, s); DoVCounts(k, s);
    case CreateSemaphore(s, v) => CreateSemaphoreKeeps(k, s, v);
    case Arrive => ArriveKeeps(k);
    case Dispatch => SwitchKeeps(k, e);
    case Yield => if k.ready != [] { SwitchKeeps(k, e); }
    case _ => ThreadStepKeeps(k, e);
  }

  // ---- runs ----

  lemma {:induction false} RunKeeps(states: seq<State>, events: seq<Event>, i: nat)
    requires IsRun(states, events) && i < |states|
    ensures Inv(states[i])
    ensures i < |events| ==> Asserted(states[i], events[i]) && states[i + 1] == Do(states[i], events[i])
  {
    hide Inv, Do, Asserted;
    if i > 0 {
      RunKeeps(states, events, i - 1);
      StepKeeps(states[i - 1], events[i - 1]);
    } else {
      InitInv(states[0]);
    }
    if i < |events| {
      AssertionsHold(states[i], events[i]);
    }
  }

  lemma InitInv(k: State)
    requires Init(k)
    ensures Inv(k)
  {
  }

  /**
   In every state of every run: outside `Sleep` exactly one thread is RUNNING and it is the current one;
   the ready list is the READY threads, each once; a blocked thread that has not finished is in exactly
   one semaphore queue; at most one finished thread awaits destruction; and no assertion fails next.
   */
  lemma SchedulerCorrect(states: seq<State>, events: seq<Event>, i: nat)
    requires IsRun(states, events) && i < |states|
    ensures var k := states[i];
            && (k.mode != Idle ==> forall t :: t in k.status ==> (k.status[t] == RUNNING <==> t == k.current))
            && NoRepeats(k.ready) && (forall t :: t in k.ready <==> t in k.status && k.status[t] == READY)
            && (forall t :: t in k.status && k.status[t] == BLOCKED && t in k.doing && !k.doing[t].Finishing? ==>
                  exists s :: s in k.sems && t in k.sems[s].queue
                              && forall r :: r in k.sems && t in k.sems[r].queue ==> r == s)
            && (forall t, u :: t in k.doing && u in k.doing && k.doing[t].Finishing? && k.doing[u].Finishing? ==>
                  t == u)
            && (forall e :: Enabled(k, e) ==> Asserted(k, e))
  {
    RunKeeps(states, events, i);
    var k := states[i];
    forall e | Enabled(k, e)
      ensures Asserted(k, e)
    {
      AssertionsHold(k, e);
    }
    hide Counts, Asserted, Enabled;
    forall t | t in k.status && k.status[t] == BLOCKED && t in k.doing && !k.doing[t].Finishing?
      ensures exists s :: s in k.sems && t in k.sems[s].queue && forall r :: r in k.sems && t in k.sems[r].queue ==>
                  r == s
    {
      var s := k.doing[t].sem;
      assert s in k.sems && t in k.sems[s].queue;
    }
  }

  // ---- what the calls on a semaphore come to ----

  /** The current thread gets its unit: its `P` need not wait, or goes on after the switch and need wait no more. */
  predicate Completes(k: State, e: Event, k': State, s: Sid) {
    && k.current in k.doing && k.current in k'.doing && k'.doing[k.current] == Normal
    && (e == P(s) || (e == Arrive && k.doing[k.current] == InP(s)))
  }

  /** How many of the first `i` events are Vs on `s`. */
  function Vs(events: seq<Event>, s: Sid, i: nat): nat
    requires i <= |events|
  {
    if i == 0 then 0 else Vs(events, s, i - 1) + if events[i - 1] == V(s) then 1 else 0
  }

  /** How many Ps on `s` are completed by the first `i` events. */
  function Ps(states: seq<State>, events: seq<Event>, s: Sid, i: nat): nat
    requires i <= |events| < |states|
  {
    if i == 0 then 0
    else Ps(states, events, s, i - 1) + if Completes(states[i - 1], events[i - 1], states[i], s) then 1 else 0
  }

  predicate Creates(e: Event, s: Sid) { e.CreateSemaphore? && e.s == s }

  /** Each event changes the value by what it is. */
  lemma ValueStep(k: State, e: Event, s: Sid)
    requires Inv(k) && Enabled(k, e) && Asserted(k, e)
    ensures var k' := Do(k, e);
            && (s in k.sems ==> s in k'.sems && !Creates(e, s))
            && (s in k.sems ==>
                  k'.sems[s].value
                  == k.sems[s].value + (if e == V(s) then 1 else 0) - if Completes(k, e, k', s) then 1 else 0)
            && (s !in k.sems ==> e != V(s) && !Completes(k, e, k', s) && (s in k'.sems <==> Creates(e, s)))
            && (s !in k.sems && Creates(e, s) ==> k'.sems[s].value == e.initial)
  {
    hide Counts, Queues, ReadyList, Corpses;
    assert k.current in k.doing;
    match e
    case P(r) => TestPValue(k, r, s);
    case Arrive =>
      if k.doing[k.current].InP? { TestPValue(Reap(k), k.doing[k.current].sem, s); }
    case _ =>
  }

  lemma TestPValue(k: State, r: Sid, s: Sid)
    requires r in k.sems && k.current in k.doing
    ensures var k' := TestP(k, r);
            && k'.sems.Keys == k.sems.Keys && k.current in k'.doing
            && (s in k.sems ==>
                  k'.sems[s].value == k.sems[s].value - if r == s && k'.doing[k.current] == Normal then 1 else 0)
  {
  }

  /** Before it is created, nothing has happened to a semaphore; after, its value is what the calls come to. */
  ghost predicate Balanced(states: seq<State>, events: seq<Event>, s: Sid, i: nat)
    requires i <= |events| < |states|
  {
    if s in states[i].sems then
      exists c: nat :: c < i && CreatedOnce(events, s, i, c)
        && states[i].sems[s].value == events[c].initial + Vs(events, s, i) - Ps(states, events, s, i)
    else Vs(events, s, i) == 0 && Ps(states, events, s, i) == 0 && forall d :: 0 <= d < i ==> !Creates(events[d], s)
  }

  /** Event `c` creates the semaphore, and no other one before `i` does. */
  predicate CreatedOnce(events: seq<Event>, s: Sid, i: nat, c: nat)
    requires i <= |events|
  { c < i && Creates(events[c], s) && forall d :: 0 <= d < i && Creates(events[d], s) ==> d == c }

  lemma {:induction false} RunBalanced(states: seq<State>, events: seq<Event>, i: nat, s: Sid)
    requires IsRun(states, events) && i < |states|
    ensures Balanced(states, events, s, i)
  {
    hide Inv, Do, Enabled, Asserted, Completes;
    if i > 0 {
      RunBalanced(states, events, i - 1, s);
      RunKeeps(states, events, i - 1);
      ValueStep(states[i - 1], events[i - 1], s);
      if s in states[i - 1].sems {
        var c: nat :| c < i - 1 && CreatedOnce(events, s, i - 1, c)
          && states[i - 1].sems[s].value == events[c].initial + Vs(events, s, i - 1) - Ps(states, events, s, i - 1);
        assert CreatedOnce(events, s, i, c);
      } else if s in states[i].sems {
        assert CreatedOnce(events, s, i, i - 1);
      }
    }
  }

  /**
   On every run: a semaphore's value is the initial value of the one event that created it, plus the Vs on it since,
   minus the Ps on it that have completed.  No more units are available than woken threads still to test it, while
   anyone sleeps on it; and once the machine idles with nobody ready, everyone asleep on it sleeps because its
   value is zero.
   */
  lemma SemaphoreCorrect(states: seq<State>, events: seq<Event>, i: nat, s: Sid) returns (c: nat)
    requires IsRun(states, events) && i < |states| && s in states[i].sems
    ensures CreatedOnce(events, s, i, c)
    ensures var sem := states[i].sems[s];
            && sem.value == events[c].initial + Vs(events, s, i) - Ps(states, events, s, i)
            && (sem.queue != [] ==> sem.value <= |Woken(states[i], s)|)
            && (sem.queue != [] && states[i].mode == Idle && states[i].ready == [] ==> sem.value == 0)
  {
    RunBalanced(states, events, i, s);
    RunKeeps(states, events, i);
    var k := states[i];
    c :| c < i && CreatedOnce(events, s, i, c)
      && k.sems[s].value == events[c].initial + Vs(events, s, i) - Ps(states, events, s, i);
    if k.mode == Idle && k.ready == [] {
      assert forall t :: !IsWoken(k, s, t);
      assert Woken(k, s) == {};
    }
  }

  /** Sleepers join a semaphore's queue at its end, and leave it from its front, one at each V. */
  lemma QueueStep(k: State, e: Event, s: Sid)
    requires Enabled(k, e) && Asserted(k, e) && s in k.sems && k.current in k.doing
    ensures s in Do(k, e).sems
    ensures var q := k.sems[s].queue;
            (if e == V(s) && q != [] then q[1..] else q) <= Do(k, e).sems[s].queue
    ensures e == V(s) && k.sems[s].queue != [] ==> Do(k, e).ready == k.ready + [k.sems[s].queue[0]]
  {
  }

  /** How many Vs on `s` there are among the steps from `i` to `j`. */
  function VsBetween(events: seq<Event>, s: Sid, i: nat, j: nat): nat
    requires i <= j <= |events|
  {
    if i == j then 0 else VsBetween(events, s, i, j - 1) + if events[j - 1] == V(s) then 1 else 0
  }

  /** A thread asleep on a semaphore moves one place forward at each V on it, and otherwise keeps its place. */
  lemma {:induction false} AdvancesWithVs(states: seq<State>, events: seq<Event>, s: Sid, i: nat, j: nat, p: nat)
    requires IsRun(states, events) && i <= j <= |events|
    requires s in states[i].sems && p < |states[i].sems[s].queue| && VsBetween(events, s, i, j) <= p
    ensures s in states[j].sems
    ensures var q := p - VsBetween(events, s, i, j);
            q < |states[j].sems[s].queue| && states[j].sems[s].queue[q] == states[i].sems[s].queue[p]
    decreases j - i
  {
    hide Do, Enabled, Asserted, Init, Activities, Queues, Counts, Corpses, ReadyList;
    if i < j {
      AdvancesWithVs(states, events, s, i, j - 1, p);
      RunKeeps(states, events, j - 1);
      QueueStep(states[j - 1], events[j - 1], s);
    }
  }

  /** First come, first woken: the sleeper at position `p` is put on the ready list by the (p+1)-th V from now. */
  lemma FifoWake(states: seq<State>, events: seq<Event>, s: Sid, i: nat, j: nat, p: nat)
    requires IsRun(states, events) && i <= j < |events|
    requires s in states[i].sems && p < |states[i].sems[s].queue|
    requires VsBetween(events, s, i, j) == p && events[j] == V(s)
    ensures states[j + 1].ready == states[j].ready + [states[i].sems[s].queue[p]]
  {
    hide Do, Enabled, Asserted, Init, Activities, Queues, Counts, Corpses, ReadyList;
    AdvancesWithVs(states, events, s, i, j, p);
    RunKeeps(states, events, j);
    QueueStep(states[j], events[j], s);
  }

  // ---- what each call does to the threads ----

  /** Nothing but the statuses of these threads has changed. */
  predicate OnlyStatus(k: State, k': State, changed: set<Tid>) {
    forall t :: t in k.status && t !in changed ==> t in k'.status && k'.status[t] == k.status[t]
  }

  /** The front of the ready list has the processor, and is about to come back from its switch. */
  predicate FrontRuns(k: State, k': State)
    requires k.ready != []
  {
    && k'.current == k.ready[0] && k'.mode == Arriving && k.ready[0] in k'.status && k'.status[k.ready[0]] == RUNNING
  }

  /**
   On every run: a thread forked joins the end of the ready list.  A thread that yields goes there and the front runs,
   unless nobody is ready.  A thread that finishes blocks for good, and is gone once the next one has come back from
   its switch.  An idle machine runs the front of the ready list.
   */
  lemma ThreadCalls(states: seq<State>, events: seq<Event>, i: nat)
    requires IsRun(states, events) && i < |events|
    ensures var k, e, k' := states[i], events[i], states[i + 1];
            && (e.CreateThread? ==> e.t in k'.status && k'.status[e.t] == JUST_CREATED && k'.ready == k.ready)
            && (e.Fork? ==>
                  && k'.ready == k.ready + [e.t] && e.t in k'.status && k'.status[e.t] == READY
                  && k'.current == k.current && OnlyStatus(k, k', {e.t}))
            && (e.Yield? && k.ready == [] ==> k' == k)
            && (e.Yield? && k.ready != [] ==>
                  && FrontRuns(k, k') && k'.ready == k.ready[1..] + [k.current]
                  && k.current in k'.status && k'.status[k.current] == READY
                  && OnlyStatus(k, k', {k.current, k.ready[0]}))
            && (e.Finish? ==>
                  && k'.mode == Idle && k'.current == k.current && k'.ready == k.ready
                  && k.current in k'.status && k'.status[k.current] == BLOCKED && OnlyStatus(k, k', {k.current}))
            && (e.Dispatch? ==>
                  && k.ready != [] && FrontRuns(k, k') && k'.ready == k.ready[1..]
                  && OnlyStatus(k, k', {k.ready[0]}))
  {
    hide Counts, Queues, Corpses, Activities;
    RunKeeps(states, events, i);
    hide IsRun;
    var k := states[i];
    assert k.current in k.status;
    if k.ready != [] { assert k.ready[0] in k.ready; }
  }

  /** Once a thread is back from its switch, no finished thread is left. */
  lemma ArrivalBuries(states: seq<State>, events: seq<Event>, i: nat)
    requires IsRun(states, events) && i < |events| && events[i].Arrive?
    ensures var k' := states[i + 1];
            k'.status.Keys == k'.doing.Keys && forall t :: t in k'.doing ==> !k'.doing[t].Finishing?
  {
    RunKeeps(states, events, i);
    RunKeeps(states, events, i + 1);
    hide IsRun, Counts, Queues, ReadyList;
  }

  /**
   On every run: a P, or one that goes on after a switch, takes a unit if there is one and then returns to ordinary
   code; otherwise its thread blocks at the end of the semaphore's queue.
   */
  lemma PCalls(states: seq<State>, events: seq<Event>, i: nat, s: Sid)
    requires IsRun(states, events) && i < |events| && s in states[i].sems
    ensures var k, e, k' := states[i], events[i], states[i + 1];
            && s in k'.sems && k.current in k.doing
            && (e == P(s) || (e == Arrive && k.doing[k.current] == InP(s)) ==>
                  && k'.current == k.current && k'.ready == k.ready && k.current in k'.status
                  && if k.sems[s].value > 0 then
                       && k'.mode == Running && k'.status[k.current] == RUNNING
                       && k'.sems[s] == Sem(k.sems[s].value - 1, k.sems[s].queue)
                     else
                       && k'.mode == Idle && k'.status[k.current] == BLOCKED
                       && k'.sems[s] == Sem(0, k.sems[s].queue + [k.current]))
            && (e == Arrive && k.doing[k.current] == Normal ==> k'.mode == Running)
  {
    hide Counts, Queues, ReadyList, Activities;
    RunKeeps(states, events, i);
    hide IsRun;
    var k := states[i];
    assert k.current in k.doing && k.current in k.status;
  }

  /** On every run: a V wakes the first sleeper, if there is one, and its caller goes on. */
  lemma VCalls(states: seq<State>, events: seq<Event>, i: nat, s: Sid)
    requires IsRun(states, events) && i < |events| && events[i] == V(s)
    ensures var k, k' := states[i], states[i + 1];
            && s in k.sems && s in k'.sems && k'.current == k.current && k'.mode == k.mode
            && k'.sems[s].value == k.sems[s].value + 1
            && if k.sems[s].queue == [] then k'.sems[s].queue == [] && k'.ready == k.ready
               else
                 var w := k.sems[s].queue[0];
                 && k'.sems[s].queue == k.sems[s].queue[1..] && k'.ready == k.ready + [w]
                 && w in k'.status && k'.status[w] == READY
  {
    hide Counts, Queues, ReadyList, Activities, Corpses;
    RunKeeps(states, events, i);
    hide IsRun;
  }

  /** A step that takes the front thread off the ready list and runs it. */
  predicate IsPick(k: State, e: Event) { (e.Dispatch? || e.Yield?) && k.ready != [] }

  /** How many picks there are among the steps from `i` to `j`. */
  function Picks(states: seq<State>, events: seq<Event>, i: nat, j: nat): nat
    requires |states| == |events| + 1 && i <= j <= |events|
  {
    if i == j then 0
    else Picks(states, events, i, j - 1) + if IsPick(states[j - 1], events[j - 1]) then 1 else 0
  }

  /** Steps add to the ready list only at its end, and take from it only its front. */
  lemma ReadyListStep(k: State, e: Event)
    requires Enabled(k, e) && Asserted(k, e)
    ensures (if IsPick(k, e) then k.ready[1..] else k.ready) <= Do(k, e).ready
  {
  }

  /** A ready thread moves one place forward at each pick, and otherwise stays where it is. */
  lemma {:induction false} AdvancesWithPicks(states: seq<State>, events: seq<Event>, i: nat, j: nat, p: nat)
    requires IsRun(states, events) && i <= j <= |events| && p < |states[i].ready|
    requires Picks(states, events, i, j) <= p
    ensures var q := p - Picks(states, events, i, j);
            q < |states[j].ready| && states[j].ready[q] == states[i].ready[p]
    decreases j - i
  {
    hide Do, Enabled, Asserted, Init;
    if i < j {
      AdvancesWithPicks(states, events, i, j - 1, p);
      RunKeeps(states, events, j - 1);
      ReadyListStep(states[j - 1], events[j - 1]);
    }
  }

  /** First come, first served: the thread at position `p` runs at the (p+1)-th pick from now. */
  lemma FifoDispatch(states: seq<State>, events: seq<Event>, i: nat, j: nat, p: nat)
    requires IsRun(states, events) && i <= j < |events| && p < |states[i].ready|
    requires Picks(states, events, i, j) == p && IsPick(states[j], events[j])
    ensures states[j + 1].current == states[i].ready[p] && states[j + 1].mode == Arriving
  {
    AdvancesWithPicks(states, events, i, j, p);
    RunKeeps(states, events, j);
    hide Inv;
  }
}
