/**
 The interrupt and clock simulator (machine/interrupt.cc) over its sorted list of pending interrupts
 (lib/list.cc).  Device handlers are a parameter: a handler may schedule any number of further interrupts,
 each strictly in the future, and may ask for a context switch.
 */
module Interrupts {
  import Lists

  const USER_TICK: int := 1
  const SYSTEM_TICK: int := 10

  datatype IntStatus = IntOff | IntOn

  datatype MachineStatus = IdleMode | SystemMode | UserMode

  datatype IntType = TimerInt | DiskInt | ConsoleWriteInt | ConsoleReadInt | NetworkSendInt | NetworkRecvInt

  /** `serial` tells one pending interrupt object from another: the number scheduled before it. */
  datatype Pending = Pending(when: int, kind: IntType, serial: nat)

  /** An interrupt that went off, and the time at which it did. */
  datatype Firing = Firing(what: Pending, at: int)

  type Delay = d: int | d > 0 witness 1

  datatype Request = Request(fromNow: Delay, kind: IntType)

  datatype Response = Response(requests: seq<Request>, wantsYield: bool)

  /** What the handler of an interrupt does, given how many have fired before it: any response at each firing. */
  type Handler = (Pending, nat) -> Response

  datatype State = State(
    level: IntStatus, pending: seq<Pending>, inHandler: bool, yieldOnReturn: bool, status: MachineStatus,
    total: int, idle: int, system: int, user: int,
    scheduled: seq<Pending>, fired: seq<Firing>)

  // ---- the sorted list ----

  /** Due earlier, or due together and scheduled earlier. */
  predicate Before(x: Pending, y: Pending) { x.when < y.when || (x.when == y.when && x.serial < y.serial) }

  predicate Sorted(s: seq<Pending>) { forall i, j :: 0 <= i < j < |s| ==> Before(s[i], s[j]) }

  /** Which of two interrupts is due first; equal when due together. */
  function PendingCompare(x: Pending, y: Pending): int {
    if x.when < y.when then -1 else if x.when > y.when then 1 else 0
  }

  function Insert(s: seq<Pending>, x: Pending): seq<Pending> { Lists.Inserted(s, x, PendingCompare) }

  lemma InsertMembers(s: seq<Pending>, x: Pending)
    ensures multiset(Insert(s, x)) == multiset(s) + multiset{x}
    ensures forall y :: y in Insert(s, x) <==> y in s || y == x
  {
    Lists.InsertedMembers(s, x, PendingCompare);
  }

  /** A stable insertion: the list stays in order, later-scheduled items after earlier ones due at the same time. */
  lemma InsertSorted(s: seq<Pending>, x: Pending)
    requires Sorted(s) && forall i :: 0 <= i < |s| ==> s[i].serial < x.serial
    ensures Sorted(Insert(s, x))
  {
    hide Lists.Position, Lists.Added;
    var k, r := Lists.Position(s, x, PendingCompare), Insert(s, x);
    forall i, j | 0 <= i < j < |r|
      ensures Before(r[i], r[j])
    {
      Lists.AddedItem(s, k, x, i);
      Lists.AddedItem(s, k, x, j);
      if i == k && j > k + 1 {
        assert Before(s[k], s[j - 1]);
      }
    }
  }

  // ---- what each operation does to the state ----

  function AfterSchedule(st: State, fromNow: Delay, kind: IntType): State {
    var x := Pending(st.total + fromNow, kind, |st.scheduled|);
    st.(pending := Insert(st.pending, x), scheduled := st.scheduled + [x])
  }

  function ScheduleAll(st: State, requests: seq<Request>): State
    decreases |requests|
  {
    if requests == [] then st
    else ScheduleAll(AfterSchedule(st, requests[0].fromNow, requests[0].kind), requests[1..])
  }

  /** Take the first pending interrupt off the list and run its handler. */
  function FireOne(st: State, h: Handler): State
    requires |st.pending| > 0
  {
    var response := h(st.pending[0], |st.fired|);
    var st1 := ScheduleAll(Pop(st), response.requests);
    st1.(yieldOnReturn := st1.yieldOnReturn || response.wantsYield)
  }

  predicate IsDue(st: State) { |st.pending| > 0 && st.pending[0].when <= st.total }

  // ---- the invariant ----

  /** Every interrupt scheduled so far is pending or fired, exactly once. */
  ghost predicate Accounted(st: State) {
    && multiset(st.pending) + multiset(Fired(st.fired)) == multiset(st.scheduled)
    && forall i :: 0 <= i < |st.scheduled| ==> st.scheduled[i].serial == i
  }

  /** The pending ones are in order, and a tick can make none of them ten ticks late. */
  ghost predicate PendingOk(st: State) {
    && Sorted(st.pending)
    && forall y :: y in st.pending ==> y.serial < |st.scheduled| && y.when > st.total - SYSTEM_TICK
  }

  /** The fired ones went off in order, on time, and before every pending one. */
  ghost predicate FiredOk(st: State) {
    && (forall i :: 0 <= i < |st.fired| ==> OnTime(st.fired[i]) && st.fired[i].at <= st.total)
    && (forall i, j :: 0 <= i < j < |st.fired| ==>
          Before(st.fired[i].what, st.fired[j].what) && st.fired[i].at <= st.fired[j].at)
    && (forall i, y :: 0 <= i < |st.fired| && y in st.pending ==> Before(st.fired[i].what, y))
  }

  ghost predicate Inv(st: State) {
    Accounted(st) && PendingOk(st) && FiredOk(st) && st.total == st.idle + st.system + st.user
  }

  predicate OnTime(f: Firing) { f.what.when <= f.at < f.what.when + SYSTEM_TICK }

  /** Nothing pending is due. */
  predicate NoneDue(st: State) { forall y :: y in st.pending ==> y.when > st.total }

  function Fired(fired: seq<Firing>): (s: seq<Pending>)
    ensures |s| == |fired| && forall i :: 0 <= i < |s| ==> s[i] == fired[i].what
  { seq(|fired|, i requires 0 <= i < |fired| => fired[i].what) }

  function DueCount(s: seq<Pending>, now: int): nat {
    if s == [] then 0 else DueCount(s[1..], now) + if s[0].when <= now then 1 else 0
  }

  lemma {:induction false} DueAppend(s: seq<Pending>, t: seq<Pending>, now: int)
    ensures DueCount(s + t, now) == DueCount(s, now) + DueCount(t, now)
  {
    if s == [] {
      assert s + t == t;
    } else {
      assert (s + t)[1..] == s[1..] + t;
      DueAppend(s[1..], t, now);
    }
  }

  lemma DueInsert(s: seq<Pending>, x: Pending, now: int)
    requires x.when > now
    ensures DueCount(Insert(s, x), now) == DueCount(s, now)
  {
    var k := Lists.Position(s, x, PendingCompare);
    DueAppend(s[..k], [x], now);
    DueAppend(s[..k] + [x], s[k..], now);
    DueAppend(s[..k], s[k..], now);
    assert s == s[..k] + s[k..];
  }

  /** What scheduling leaves alone. */
  predicate OnlyMore(st: State, st': State) {
    && st'.level == st.level && st'.inHandler == st.inHandler && st'.yieldOnReturn == st.yieldOnReturn
    && st'.status == st.status
    && st'.total == st.total && st'.idle == st.idle && st'.system == st.system && st'.user == st.user
    && st'.fired == st.fired
    && DueCount(st'.pending, st.total) == DueCount(st.pending, st.total)
  }

  lemma ScheduleKeeps(st: State, fromNow: Delay, kind: IntType)
    requires Inv(st)
    ensures var st' := AfterSchedule(st, fromNow, kind);
            Inv(st') && OnlyMore(st, st') && (NoneDue(st) ==> NoneDue(st'))
  {
    hide Insert, DueCount, Accounted, PendingOk, FiredOk, Sorted, Before, OnTime;
    var x := Pending(st.total + fromNow, kind, |st.scheduled|);
    InsertMembers(st.pending, x);
    DueInsert(st.pending, x, st.total);
    var st' := AfterSchedule(st, fromNow, kind);
    ScheduleAccounted(st, st', x);
    SchedulePending(st, st', x);
    ScheduleFired(st, st', x);
  }

  predicate Scheduled(st: State, st': State, x: Pending) {
    st' == st.(pending := Insert(st.pending, x), scheduled := st.scheduled + [x]) && x.serial == |st.scheduled|
  }

  lemma ScheduleAccounted(st: State, st': State, x: Pending)
    requires Accounted(st) && Scheduled(st, st', x)
    ensures Accounted(st')
  {
    hide Insert;
    InsertMembers(st.pending, x);
  }

  lemma SchedulePending(st: State, st': State, x: Pending)
    requires PendingOk(st) && Scheduled(st, st', x) && x.when > st.total
    ensures PendingOk(st')
  {
    hide Insert, Sorted;
    InsertMembers(st.pending, x);
    InsertSorted(st.pending, x);
  }

  lemma ScheduleFired(st: State, st': State, x: Pending)
    requires FiredOk(st) && PendingOk(st) && Accounted(st) && Scheduled(st, st', x) && x.when > st.total
    ensures FiredOk(st')
  {
    hide Insert, Sorted;
    InsertMembers(st.pending, x);
  }

  lemma {:induction false} ScheduleAllKeeps(st: State, requests: seq<Request>)
    requires Inv(st)
    ensures Inv(ScheduleAll(st, requests)) && OnlyMore(st, ScheduleAll(st, requests))
    decreases |requests|
  {
    hide Inv, AfterSchedule;
    if requests != [] {
      ScheduleKeeps(st, requests[0].fromNow, requests[0].kind);
      ScheduleAllKeeps(AfterSchedule(st, requests[0].fromNow, requests[0].kind), requests[1..]);
    }
  }

  function Pop(st: State): State
    requires |st.pending| > 0
  { st.(pending := st.pending[1..], fired := st.fired + [Firing(st.pending[0], st.total)]) }

  lemma PopAccounted(st: State)
    requires Accounted(st) && |st.pending| > 0
    ensures Accounted(Pop(st))
  {
    var next := st.pending[0];
    assert st.pending == [next] + st.pending[1..];
    assert Fired(Pop(st).fired) == Fired(st.fired) + [next];
    hide Fired;
    assert multiset(st.pending) == multiset{next} + multiset(st.pending[1..]);
  }

  lemma PopFiredOk(st: State)
    requires PendingOk(st) && FiredOk(st) && IsDue(st)
    ensures FiredOk(Pop(st))
  {
    var st' := Pop(st);
    assert st.pending[0] in st.pending;
    assert forall i :: 0 <= i < |st.fired| ==> st'.fired[i] == st.fired[i];
    assert forall y :: y in st'.pending ==> y in st.pending && Before(st.pending[0], y);
  }

  lemma PopKeeps(st: State)
    requires Inv(st) && IsDue(st)
    ensures Inv(Pop(st)) && DueCount(Pop(st).pending, st.total) == DueCount(st.pending, st.total) - 1
  {
    PopAccounted(st);
    PopFiredOk(st);
    hide Accounted, FiredOk;
    assert forall y :: y in st.pending[1..] ==> y in st.pending;
  }

  lemma YieldFlag(st: State, b: bool)
    requires Inv(st)
    ensures Inv(st.(yieldOnReturn := b))
  {
    hide Fired, Sorted, Before, OnTime;
  }

  /** Firing one interrupt leaves one fewer due: whatever its handler schedules is in the future. */
  lemma FireOneKeeps(st: State, h: Handler)
    requires Inv(st) && IsDue(st)
    ensures Inv(FireOne(st, h)) && FireOne(st, h).total == st.total
    ensures DueCount(FireOne(st, h).pending, st.total) == DueCount(st.pending, st.total) - 1
    ensures FireOne(st, h).status == st.status && FireOne(st, h).level == st.level
    ensures FireOne(st, h).inHandler == st.inHandler
  {
    hide Inv, ScheduleAll, DueCount, Pop;
    PopKeeps(st);
    PopLeaves(st);
    var response := h(st.pending[0], |st.fired|);
    ScheduleAllKeeps(Pop(st), response.requests);
    var st1 := ScheduleAll(Pop(st), response.requests);
    YieldFlag(st1, st1.yieldOnReturn || response.wantsYield);
  }

  lemma PopLeaves(st: State)
    requires |st.pending| > 0
    ensures Pop(st).total == st.total && Pop(st).status == st.status && Pop(st).level == st.level
    ensures Pop(st).inHandler == st.inHandler
  {
  }

  /** The do-while loop: fire until nothing is due. */
  function FireAll(st: State, h: Handler): State
    requires Inv(st) && IsDue(st)
    decreases DueCount(st.pending, st.total)
  {
    FireOneKeeps(st, h);
    var st1 := FireOne(st, h);
    if IsDue(st1) then FireAll(st1, h) else st1
  }

  lemma {:induction false} FireAllKeeps(st: State, h: Handler)
    requires Inv(st) && IsDue(st)
    ensures Inv(FireAll(st, h)) && NoneDue(FireAll(st, h))
    ensures FireAll(st, h).total == st.total && FireAll(st, h).level == st.level
    ensures FireAll(st, h).inHandler == st.inHandler
    decreases DueCount(st.pending, st.total)
  {
    hide FireOne;
    FireOneKeeps(st, h);
    var st1 := FireOne(st, h);
    if IsDue(st1) {
      hide Inv;
      FireAllKeeps(st1, h);
    } else {
      assert forall i :: 0 < i < |st1.pending| ==> Before(st1.pending[0], st1.pending[i]);
    }
  }

  // ---- the clock ----

  /** What holds whenever no handler is running: the books balance and nothing due is waiting. */
  ghost predicate Settled(st: State) { Inv(st) && NoneDue(st) && !st.inHandler }

  /** With nothing due yet, move the clock to the first pending interrupt. */
  function Advance(st: State): State
    requires |st.pending| > 0
  {
    if IsDue(st) then st else st.(idle := st.idle + (st.pending[0].when - st.total), total := st.pending[0].when)
  }

  lemma AdvanceKeeps(st: State)
    requires Inv(st) && |st.pending| > 0
    ensures Inv(Advance(st)) && IsDue(Advance(st))
  {
    hide Fired;
    var now := Advance(st).total;
    assert forall y :: y in st.pending ==> y.when >= st.pending[0].when;
  }

  /** Check for due interrupts; when idle, first move the clock to the next one. */
  function AfterCheck(st: State, advanceClock: bool, h: Handler): State
    requires Inv(st)
  {
    if |st.pending| == 0 || (!IsDue(st) && !advanceClock) then st
    else
      AdvanceKeeps(st);
      InHandler(Advance(st), true);
      FireAll(Advance(st).(inHandler := true), h).(inHandler := false)
  }

  lemma InHandler(st: State, b: bool)
    requires Inv(st)
    ensures Inv(st.(inHandler := b))
  {
    hide Fired, Sorted, Before, OnTime;
  }

  lemma CheckKeeps(st: State, advanceClock: bool, h: Handler)
    requires Inv(st) && !st.inHandler
    ensures Settled(AfterCheck(st, advanceClock, h))
    ensures AfterCheck(st, advanceClock, h).level == st.level
  {
    hide Inv, FireAll;
    if |st.pending| == 0 {
    } else if !IsDue(st) && !advanceClock {
      FrontLater(st);
    } else {
      AdvanceKeeps(st);
      InHandler(Advance(st), true);
      FireAllKeeps(Advance(st).(inHandler := true), h);
      InHandler(FireAll(Advance(st).(inHandler := true), h), false);
    }
  }

  lemma FrontLater(st: State)
    requires Inv(st) && |st.pending| > 0 && !IsDue(st)
    ensures NoneDue(st)
  {
    hide Accounted, FiredOk;
  }

  /** One tick, up to the context switch that a handler asked for. */
  function AfterTick(st: State, h: Handler): State
    requires Settled(st)
  {
    LaterKeeps(st);
    var st1 := AfterCheck(Later(st).(level := IntOff), false, h).(level := IntOn);
    if st1.yieldOnReturn then st1.(yieldOnReturn := false, status := SystemMode) else st1
  }

  /** Has a handler asked for a context switch by the end of the tick? */
  predicate WantsSwitch(st: State, h: Handler)
    requires Settled(st)
  {
    LaterKeeps(st);
    AfterCheck(Later(st).(level := IntOff), false, h).yieldOnReturn
  }

  function Later(st: State): State {
    if st.status == SystemMode then st.(total := st.total + SYSTEM_TICK, system := st.system + SYSTEM_TICK)
    else st.(total := st.total + USER_TICK, user := st.user + USER_TICK)
  }

  lemma LaterKeeps(st: State)
    requires Settled(st)
    ensures Inv(Later(st).(level := IntOff)) && !Later(st).inHandler
  {
    hide Fired, Sorted, Before;
  }

  lemma TickKeeps(st: State, h: Handler)
    requires Settled(st)
    ensures Settled(AfterTick(st, h)) && AfterTick(st, h).level == IntOn && !AfterTick(st, h).yieldOnReturn
  {
    hide AfterCheck, Inv, Later;
    LaterKeeps(st);
    var st0 := Later(st).(level := IntOff);
    CheckKeeps(st0, false, h);
    ModesKeep(AfterCheck(st0, false, h), AfterTick(st, h));
  }

  /** The level, the yield flag and the status play no part in the books. */
  lemma ModesKeep(st: State, st': State)
    requires Settled(st) && st' == st.(level := st'.level, yieldOnReturn := st'.yieldOnReturn, status := st'.status)
    ensures Settled(st')
  {
    hide Fired, Sorted, Before, OnTime;
  }

  // ---- whole runs ----

  /** Everything that can happen while no handler is running. */
  datatype Event =
    | SetLevel(now: IntStatus, h: Handler)
    | UserInstruction(h: Handler)
    | Idle(h: Handler)
    | Device(fromNow: Delay, kind: IntType)
    | SetStatus(status: MachineStatus)

  /** What holds at all times, inside a handler and out: only a running handler leaves due interrupts waiting. */
  ghost predicate WellTimed(st: State) { Inv(st) && (st.inHandler || NoneDue(st)) }

  /** Anyone may turn interrupts off; only outside a handler may they be turned on. */
  function AfterLevel(st: State, now: IntStatus, h: Handler): State
    requires WellTimed(st) && (now == IntOff || !st.inHandler)
  {
    if now == IntOn && st.level == IntOff then
      ModesKeep(st, st.(level := now));
      AfterTick(st.(level := now), h)
    else st.(level := now)
  }

  lemma LevelKeeps(st: State, now: IntStatus)
    requires WellTimed(st)
    ensures WellTimed(st.(level := now))
  {
    hide Fired, Sorted, Before, OnTime;
  }

  function Step(st: State, e: Event): State
    requires Settled(st)
  {
    match e
    case SetLevel(now, h) =>
      AfterLevel(st, now, h)
    case UserInstruction(h) => AfterTick(st, h)
    case Idle(h) =>
      ModesKeep(st, st.(status := IdleMode));
      var st1 := AfterCheck(st.(status := IdleMode), true, h);
      if |st.pending| > 0 then st1.(status := SystemMode) else st1
    case Device(fromNow, kind) => AfterSchedule(st, fromNow, kind)
    case SetStatus(status) => st.(status := status)
  }

  lemma StepKeeps(st: State, e: Event)
    requires Settled(st)
    ensures Settled(Step(st, e))
  {
    hide AfterCheck, Inv, AfterTick, AfterSchedule;
    match e
    case SetLevel(now, h) =>
      ModesKeep(st, st.(level := now));
      TickKeeps(st.(level := now), h);
    case UserInstruction(h) => TickKeeps(st, h);
    case Idle(h) =>
      ModesKeep(st, st.(status := IdleMode));
      CheckKeeps(st.(status := IdleMode), true, h);
      ModesKeep(AfterCheck(st.(status := IdleMode), true, h), Step(st, e));
    case Device(fromNow, kind) => ScheduleKeeps(st, fromNow, kind);
    case SetStatus(status) => ModesKeep(st, st.(status := status));
  }

  function Init(): State { State(IntOff, [], false, false, SystemMode, 0, 0, 0, 0, [], []) }

  lemma InitSettled()
    ensures Settled(Init())
  {
    var st := Init();
    assert Fired(st.fired) == [];
  }

  /** The state after any sequence of events, with any behaviour of the handlers. */
  ghost function RunFrom(start: State, events: seq<Event>): (st: State)
    requires Settled(start)
    ensures Settled(st)
  {
    if events == [] then start
    else
      var n := |events| - 1;
      StepKeeps(RunFrom(start, events[..n]), events[n]);
      Step(RunFrom(start, events[..n]), events[n])
  }

  /** What the code asserts of those events: nobody idles with interrupts on. */
  ghost predicate Proper(start: State, events: seq<Event>)
    requires Settled(start)
  { forall k :: 0 <= k < |events| && events[k].Idle? ==> RunFrom(start, events[..k]).level == IntOff }

  ghost function Run(events: seq<Event>): (st: State)
    ensures Settled(st)
  {
    InitSettled();
    RunFrom(Init(), events)
  }

  /**
   On every run interrupts go off in order of due time, ties in scheduling order, never early and less than ten
   ticks late.
   */
  lemma FiresInOrder(events: seq<Event>, i: nat, j: nat)
    requires i <= j < |Run(events).fired|
    ensures var f := Run(events).fired;
            && f[i].what.when <= f[i].at < f[i].what.when + SYSTEM_TICK
            && (i < j ==> f[i].what.when <= f[j].what.when)
            && (i < j && f[i].what.when == f[j].what.when ==> f[i].what.serial < f[j].what.serial)
            && f[i].at <= f[j].at
  {
    hide Run;
    var st := Run(events);
    assert Settled(st) && OnTime(st.fired[i]);
    assert i < j ==> Before(st.fired[i].what, st.fired[j].what);
  }

  lemma {:induction false} OnceEach(s: seq<Pending>, x: Pending)
    requires forall i :: 0 <= i < |s| ==> s[i].serial == i
    ensures multiset(s)[x] <= 1
  {
    if s != [] {
      var n := |s| - 1;
      OnceEach(s[..n], x);
      assert s == s[..n] + [s[n]];
      if x == s[n] {
        assert x !in s[..n];
      }
    }
  }

  /** On every run, an interrupt has gone off, once, exactly when its time has come. */
  lemma DueExactlyFired(events: seq<Event>, x: Pending)
    requires x in Run(events).scheduled
    ensures var st := Run(events);
            multiset(Fired(st.fired))[x] == (if x.when <= st.total then 1 else 0)
  {
    hide Run, Before, Sorted;
    var st := Run(events);
    OnceEach(st.scheduled, x);
    assert x in multiset(st.scheduled);
    assert multiset(st.pending)[x] + multiset(Fired(st.fired))[x] == 1;
    if multiset(st.pending)[x] == 1 {
      assert x in st.pending;
    } else {
      assert x in Fired(st.fired);
      var i :| 0 <= i < |st.fired| && Fired(st.fired)[i] == x;
      assert OnTime(st.fired[i]);
    }
  }

  /** On every run, time is what was spent idle, in the kernel and in user programs. */
  lemma TicksAddUp(events: seq<Event>)
    ensures var st := Run(events);
            st.total == st.idle + st.system + st.user
  {
    hide Run, Accounted, PendingOk, FiredOk;
    assert Settled(Run(events));
  }

  /** What a whole tick does: when it ends in a switch, the others run, and the status is restored. */
  ghost predicate Ticked(st: State, st': State, h: Handler, others: seq<Event>) {
    Settled(st) && Settled(AfterTick(st, h)) &&
    st' == if WantsSwitch(st, h) then RunFrom(AfterTick(st, h), others).(status := st.status) else AfterTick(st, h)
  }

  ghost predicate OthersProper(st: State, h: Handler, others: seq<Event>) {
    Settled(st) && Settled(AfterTick(st, h)) && Proper(AfterTick(st, h), others)
  }

  // ---- the simulator itself ----

  class Interrupt {
    var level: IntStatus
    var pending: seq<Pending>
    var inHandler: bool
    var yieldOnReturn: bool
    var status: MachineStatus
    var totalTicks: int
    var idleTicks: int
    var systemTicks: int
    var userTicks: int
    var serial: nat
    var fires: nat
    ghost var scheduled: seq<Pending>
    ghost var fired: seq<Firing>

    ghost function Value(): State
      reads this
    {
      State(level, pending, inHandler, yieldOnReturn, status, totalTicks, idleTicks, systemTicks, userTicks, scheduled,
        fired)
    }

    ghost predicate Valid()
      reads this
    { serial == |scheduled| && fires == |fired| }

    constructor ()
      ensures Valid() && Value() == Init()
    {
      level, pending, inHandler, yieldOnReturn, status := IntOff, [], false, false, SystemMode;
      totalTicks, idleTicks, systemTicks, userTicks := 0, 0, 0, 0;
      serial, fires, scheduled, fired := 0, 0, [], [];
    }

    method Schedule(fromNow: Delay, kind: IntType)
      requires Valid()
      modifies this
      ensures Valid() && Value() == AfterSchedule(old(Value()), fromNow, kind)
      ensures var x := Pending(old(totalTicks) + fromNow, kind, |old(scheduled)|);
              && multiset(pending) == multiset(old(pending)) + multiset{x}
              && scheduled == old(scheduled) + [x] && totalTicks == old(totalTicks)
    {
      hide Insert;
      var toOccur := Pending(totalTicks + fromNow, kind, serial);
      InsertMembers(pending, toOccur);
      pending := Insert(pending, toOccur);
      scheduled := scheduled + [toOccur];
      serial := serial + 1;
    }

    /** A device handler at work. */
    method CallBack(response: Response)
      requires Valid()
      modifies this
      ensures Valid()
      ensures var st := ScheduleAll(old(Value()), response.requests);
              Value() == st.(yieldOnReturn := st.yieldOnReturn || response.wantsYield)
    {
      var k := 0;
      while k < |response.requests|
        invariant 0 <= k <= |response.requests| && Valid()
        invariant ScheduleAll(Value(), response.requests[k..]) == ScheduleAll(old(Value()), response.requests)
      {
        ghost var rest := response.requests[k..];
        assert rest[0] == response.requests[k] && rest[1..] == response.requests[k + 1..];
        Schedule(response.requests[k].fromNow, response.requests[k].kind);
        k := k + 1;
      }
      if response.wantsYield {
        yieldOnReturn := true;
      }
    }

    method CheckIfDue(advanceClock: bool, h: Handler) returns (any: bool)
      requires Valid() && Inv(Value()) && level == IntOff
      modifies this
      ensures Valid() && Value() == AfterCheck(old(Value()), advanceClock, h)
      ensures any <==> old(|pending| > 0 && (IsDue(Value()) || advanceClock))
    {
      if |pending| == 0 {
        return false;
      }
      if pending[0].when > totalTicks {
        if !advanceClock {
          return false;
        }
        idleTicks := idleTicks + (pending[0].when - totalTicks);
        totalTicks := pending[0].when;
      }
      assert Value() == Advance(old(Value()));
      AdvanceKeeps(old(Value()));
      InHandler(Value(), true);
      inHandler := true;
      FireDue(h);
      inHandler := false;
      any := true;
    }

    /** Pull one interrupt off the list and call its handler. */
    method FireFirst(h: Handler)
      requires Valid() && |pending| > 0
      modifies this
      ensures Valid() && Value() == FireOne(old(Value()), h)
    {
      hide ScheduleAll;
      var next := pending[0];
      var response := h(next, fires);
      pending := pending[1..];
      fired, fires := fired + [Firing(next, totalTicks)], fires + 1;
      assert Value() == Pop(old(Value()));
      CallBack(response);
    }

    /** The do-while loop. */
    method FireDue(h: Handler)
      requires Valid() && Inv(Value()) && IsDue(Value())
      modifies this
      ensures Valid() && Value() == FireAll(old(Value()), h)
    {
      hide Inv, FireOne;
      var more := true;
      while more
        invariant Valid() && Inv(Value())
        invariant more == IsDue(Value())
        invariant FireAll(old(Value()), h) == if more then FireAll(Value(), h) else Value()
        decreases DueCount(pending, totalTicks), more
      {
        FireOneKeeps(Value(), h);
        FireFirst(h);
        more := |pending| > 0 && pending[0].when <= totalTicks;
      }
    }

    method AdvanceTime()
      requires Valid()
      modifies this
      ensures Valid() && Value() == Later(old(Value()))
    {
      if status == SystemMode {
        totalTicks := totalTicks + SYSTEM_TICK;
        systemTicks := systemTicks + SYSTEM_TICK;
      } else {
        totalTicks := totalTicks + USER_TICK;
        userTicks := userTicks + USER_TICK;
      }
    }

    /** A tick, up to the context switch that a handler asked for. */
    method Tick(h: Handler) returns (switching: bool)
      requires Valid() && Settled(Value())
      modifies this
      ensures Valid() && Value() == AfterTick(old(Value()), h) && switching == WantsSwitch(old(Value()), h)
    {
      hide Inv, AfterCheck, Later;
      LaterKeeps(Value());
      AdvanceTime();
      level := IntOff;
      var any := CheckIfDue(false, h);
      level := IntOn;
      switching := yieldOnReturn;
      if yieldOnReturn {
        yieldOnReturn := false;
        status := SystemMode;
      }
    }

    /**
     The whole of `OneTick`.  If a handler asked for it, the current thread yields: `others` is whatever
     then happens until it runs again, when it finds its own status restored.
     */
    method OneTick(h: Handler, others: seq<Event>)
      requires Valid() && Settled(Value()) && OthersProper(Value(), h, others)
      modifies this
      ensures Valid() && Settled(Value()) && Ticked(old(Value()), Value(), h, others)
    {
      hide Inv, AfterCheck, AfterTick, WantsSwitch;
      var oldStatus := status;
      TickKeeps(Value(), h);
      var switching := Tick(h);
      if switching {
        Yield(others);
        ModesKeep(Value(), Value().(status := oldStatus));
        status := oldStatus;
      }
    }

    /** Other threads run: any events at all. */
    method Yield(others: seq<Event>)
      requires Valid() && Settled(Value()) && Proper(Value(), others)
      modifies this
      ensures Valid() && Value() == RunFrom(old(Value()), others)
    {
      hide Inv, Step;
      var k := 0;
      assert others[..0] == [];
      while k < |others|
        invariant 0 <= k <= |others| && Valid() && Settled(Value())
        invariant Value() == RunFrom(old(Value()), others[..k])
      {
        assert others[..k + 1][..k] == others[..k];
        StepKeeps(Value(), others[k]);
        Perform(others[k]);
        k := k + 1;
      }
      assert others[..k] == others;
    }

    /** One event of the run. */
    method Perform(e: Event)
      requires Valid() && Settled(Value()) && (e.Idle? ==> level == IntOff)
      modifies this
      ensures Valid() && Value() == Step(old(Value()), e)
    {
      hide Inv, AfterCheck, AfterTick, WantsSwitch;
      match e {
        case SetLevel(now, h) =>
          ModesKeep(Value(), Value().(level := now));
          var was := level;
          level := now;
          if now == IntOn && was == IntOff {
            var switching := Tick(h);
          }
        case UserInstruction(h) =>
          var switching := Tick(h);
        case Idle(h) =>
          var halt := Idle(h);
        case Device(fromNow, kind) =>
          Schedule(fromNow, kind);
        case SetStatus(s) =>
          status := s;
      }
    }

    /** A handler may turn interrupts off, as `Semaphore::V` does in one, but not on. */
    method SetLevel(now: IntStatus, h: Handler, others: seq<Event>) returns (was: IntStatus)
      requires Valid() && WellTimed(Value()) && (now == IntOff || !inHandler)
      requires now == IntOn && level == IntOff ==> OthersProper(Value().(level := now), h, others)
      modifies this
      ensures Valid() && WellTimed(Value()) && was == old(level)
      ensures now == IntOff || old(level) == IntOn ==> Value() == old(Value()).(level := now)
      ensures now == IntOn && old(level) == IntOff ==> Ticked(old(Value()).(level := now), Value(), h, others)
    {
      hide Inv, AfterTick, WantsSwitch;
      was := level;
      LevelKeeps(Value(), now);
      level := now;
      if now == IntOn && was == IntOff {
        OneTick(h, others);
      }
    }

    /** Nothing to run: move on to the next interrupt, or stop for good when there is none. */
    method Idle(h: Handler) returns (halt: bool)
      requires Valid() && Settled(Value()) && level == IntOff
      modifies this
      ensures Valid() && Value() == Step(old(Value()), Event.Idle(h)) && halt == (old(pending) == [])
    {
      hide Inv, AfterCheck;
      ModesKeep(Value(), Value().(status := IdleMode));
      status := IdleMode;
      var any := CheckIfDue(true, h);
      if any {
        status := SystemMode;
      }
      halt := !any;
    }
  }
}
