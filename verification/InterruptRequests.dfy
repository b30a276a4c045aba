/**
 Interrupts by the requests for them: who asked, when, and with what delay.  On every run each request is answered
 by one interrupt, which goes off when its delay is over.
 */
module InterruptRequests {
  import opened Interrupts

  /** A request as it was made: the time on the clock, the delay and the kind asked for. */
  datatype Made = Made(at: int, fromNow: int, kind: IntType)

  function MadeBy(requests: seq<Request>, now: int): (r: seq<Made>)
    ensures |r| == |requests|
    ensures forall n :: 0 <= n < |r| ==> r[n] == Made(now, requests[n].fromNow, requests[n].kind)
  { seq(|requests|, n requires 0 <= n < |requests| => Made(now, requests[n].fromNow, requests[n].kind)) }

  /** What the handlers of firings number `from` and later asked for, at time `now`. */
  function AskedByHandlers(fired: seq<Firing>, from: nat, h: Handler, now: int): seq<Made>
    decreases |fired| - from
  {
    if from >= |fired| then []
    else MadeBy(h(fired[from].what, from).requests, now) + AskedByHandlers(fired, from + 1, h, now)
  }

  /** The handlers' behaviour during an event. */
  function HandlerOf(e: Event): Handler
    requires e.SetLevel? || e.UserInstruction? || e.Idle?
  { e.h }

  /** What an event asks for: a device, its own interrupt; a tick or idling, what the handlers it sets off ask for. */
  ghost function Asked(st: State, e: Event, st': State): seq<Made> {
    match e
    case Device(fromNow, kind) => [Made(st.total, fromNow, kind)]
    case SetStatus(_) => []
    case _ => AskedByHandlers(st'.fired, |st.fired|, HandlerOf(e), st'.total)
  }

  /** Everything asked for on a run, in order. */
  ghost function Requests(events: seq<Event>): seq<Made> {
    if events == [] then []
    else
      var n := |events| - 1;
      Requests(events[..n]) + Asked(Run(events[..n]), events[n], Run(events))
  }

  /** Each request has become one interrupt, due when its delay is over. */
  ghost predicate Answers(scheduled: seq<Pending>, made: seq<Made>) {
    && |scheduled| == |made|
    && forall n :: 0 <= n < |made| ==> scheduled[n] == Pending(made[n].at + made[n].fromNow, made[n].kind, n)
  }

  lemma AnswersOne(st: State, fromNow: Delay, kind: IntType, made: seq<Made>)
    requires Answers(st.scheduled, made)
    ensures Answers(AfterSchedule(st, fromNow, kind).scheduled, made + [Made(st.total, fromNow, kind)])
    ensures AfterSchedule(st, fromNow, kind).fired == st.fired && AfterSchedule(st, fromNow, kind).total == st.total
  {
    hide Insert;
  }

  lemma {:induction false} AnswersAll(st: State, requests: seq<Request>, made: seq<Made>)
    requires Answers(st.scheduled, made)
    ensures Answers(ScheduleAll(st, requests).scheduled, made + MadeBy(requests, st.total))
    ensures ScheduleAll(st, requests).fired == st.fired && ScheduleAll(st, requests).total == st.total
    decreases |requests|
  {
    hide MadeBy, Answers, AfterSchedule;
    if requests == [] {
      assert made + MadeBy(requests, st.total) == made;
    } else {
      var st1 := AfterSchedule(st, requests[0].fromNow, requests[0].kind);
      var one := [Made(st.total, requests[0].fromNow, requests[0].kind)];
      AnswersOne(st, requests[0].fromNow, requests[0].kind, made);
      AnswersAll(st1, requests[1..], made + one);
      assert MadeBy(requests, st.total) == one + MadeBy(requests[1..], st.total);
      var rest := MadeBy(requests[1..], st.total);
      assert made + (one + rest) == made + one + rest;
    }
  }

  lemma FireOneAnswers(st: State, h: Handler, made: seq<Made>)
    requires Answers(st.scheduled, made) && |st.pending| > 0
    ensures var st' := FireOne(st, h);
            && st'.total == st.total && st'.fired == st.fired + [Firing(st.pending[0], st.total)]
            && Answers(st'.scheduled, made + MadeBy(h(st.pending[0], |st.fired|).requests, st.total))
  {
    hide Answers, ScheduleAll, MadeBy;
    AnswersAll(Pop(st), h(st.pending[0], |st.fired|).requests, made);
  }

  /** Firings from number `from` on happened now. */
  predicate FiredNow(fired: seq<Firing>, from: nat, now: int) {
    from <= |fired| && forall j :: from <= j < |fired| ==> fired[j].at == now
  }

  lemma {:induction false} FireAllAnswers(st: State, h: Handler, made: seq<Made>)
    requires Inv(st) && IsDue(st) && Answers(st.scheduled, made)
    ensures var st' := FireAll(st, h);
            && st'.total == st.total && st.fired < st'.fired && FiredNow(st'.fired, |st.fired|, st.total)
            && Answers(st'.scheduled, made + AskedByHandlers(st'.fired, |st.fired|, h, st.total))
    decreases DueCount(st.pending, st.total)
  {
    hide Inv, FireOne, Answers, DueCount, MadeBy;
    FireOneAnswers(st, h, made);
    FireOneKeeps(st, h);
    var st1, st', n := FireOne(st, h), FireAll(st, h), |st.fired|;
    var first := MadeBy(h(st.pending[0], n).requests, st.total);
    if IsDue(st1) {
      FireAllAnswers(st1, h, made + first);
      assert st'.fired[n] == st1.fired[n];
      var rest := AskedByHandlers(st'.fired, n + 1, h, st.total);
      assert made + first + rest == made + (first + rest);
    } else {
      assert AskedByHandlers(st'.fired, n + 1, h, st.total) == [];
      assert first + [] == first;
    }
  }

  lemma CheckAnswers(st: State, advanceClock: bool, h: Handler, made: seq<Made>)
    requires Inv(st) && Answers(st.scheduled, made)
    ensures var st' := AfterCheck(st, advanceClock, h);
            && st.fired <= st'.fired && FiredNow(st'.fired, |st.fired|, st'.total)
            && Answers(st'.scheduled, made + AskedByHandlers(st'.fired, |st.fired|, h, st'.total))
  {
    hide Inv, Answers, FireAll;
    if |st.pending| == 0 || (!IsDue(st) && !advanceClock) {
      assert made + [] == made;
    } else {
      AdvanceKeeps(st);
      InHandler(Advance(st), true);
      FireAllAnswers(Advance(st).(inHandler := true), h, made);
    }
  }

  lemma TickAnswers(st: State, h: Handler, made: seq<Made>)
    requires Settled(st) && Answers(st.scheduled, made)
    ensures var st' := AfterTick(st, h);
            && st.fired <= st'.fired && FiredNow(st'.fired, |st.fired|, st'.total)
            && Answers(st'.scheduled, made + AskedByHandlers(st'.fired, |st.fired|, h, st'.total))
  {
    hide Inv, Answers, AfterCheck, AskedByHandlers;
    LaterKeeps(st);
    CheckAnswers(Later(st).(level := IntOff), false, h, made);
  }

  lemma StepAnswers(st: State, e: Event, made: seq<Made>)
    requires Settled(st) && Answers(st.scheduled, made)
    ensures Answers(Step(st, e).scheduled, made + Asked(st, e, Step(st, e)))
    ensures st.fired <= Step(st, e).fired && FiredNow(Step(st, e).fired, |st.fired|, Step(st, e).total)
  {
    hide Inv, Answers, AfterCheck, AfterTick, Insert;
    match e
    case Device(fromNow, kind) => AnswersOne(st, fromNow, kind, made);
    case SetStatus(_) => assert made + [] == made;
    case SetLevel(now, h) =>
      if now == IntOn && st.level == IntOff {
        ModesKeep(st, st.(level := now));
        TickAnswers(st.(level := now), h, made);
      } else {
        assert made + [] == made;
      }
    case UserInstruction(h) => TickAnswers(st, h, made);
    case Idle(h) =>
      ModesKeep(st, st.(status := IdleMode));
      CheckAnswers(st.(status := IdleMode), true, h, made);
  }

  lemma {:induction false} AllAnswered(events: seq<Event>)
    ensures Answers(Run(events).scheduled, Requests(events))
  {
    hide Step, Answers, Settled, Asked;
    if events == [] {
      NothingAsked();
    } else {
      var n := |events| - 1;
      AllAnswered(events[..n]);
      StepAnswers(Run(events[..n]), events[n], Requests(events[..n]));
    }
  }

  lemma NothingAsked()
    ensures Answers(Run([]).scheduled, Requests([])) && Run([]) == Init()
  {
    hide Inv;
    InitSettled();
    assert Run([]) == Init();
    assert Answers([], []);
  }

  /**
   On every run: for each request, a device's or a handler's, there is exactly one interrupt, of the kind asked for;
   it has gone off, once, if and only if the clock has reached the time of the request plus the delay asked for.
   */
  lemma RequestAnswered(events: seq<Event>, n: nat)
    requires n < |Requests(events)|
    ensures var r, st := Requests(events)[n], Run(events);
            var x := Pending(r.at + r.fromNow, r.kind, n);
            && multiset(Fired(st.fired))[x] == (if r.at + r.fromNow <= st.total then 1 else 0)
            && x in st.scheduled && (forall y :: y in st.scheduled && y.serial == n ==> y == x)
            && |st.scheduled| == |Requests(events)|
  {
    hide Run;
    AllAnswered(events);
    DueExactlyFired(events, Run(events).scheduled[n]);
  }

  /**
   A firing is recorded at the time on the clock when it happened: no event moves the clock after the first
   firing.
   */
  lemma FiredOnTheClock(events: seq<Event>, k: nat, j: nat)
    requires k < |events| && |Run(events[..k]).fired| <= j < |Run(events[..k + 1]).fired|
    ensures Run(events[..k + 1]).fired[j].at == Run(events[..k + 1]).total
  {
    hide Step, Answers, Settled, Asked;
    AllAnswered(events[..k]);
    assert events[..k + 1][..k] == events[..k];
    StepAnswers(Run(events[..k]), events[k], Requests(events[..k]));
  }

  // ---- what the clock charges ----

  /** Time between two states, and where it went. */
  predicate Passed(st: State, st': State, total: int, idle: int, system: int, user: int) {
    && st'.total == st.total + total && st'.idle == st.idle + idle
    && st'.system == st.system + system && st'.user == st.user + user
  }

  lemma {:induction false} ScheduleAllTime(st: State, requests: seq<Request>)
    ensures Passed(st, ScheduleAll(st, requests), 0, 0, 0, 0)
    ensures ScheduleAll(st, requests).yieldOnReturn == st.yieldOnReturn
    decreases |requests|
  {
    if requests != [] {
      ScheduleAllTime(AfterSchedule(st, requests[0].fromNow, requests[0].kind), requests[1..]);
    }
  }

  /** Did the handler of one of the firings from number `from` on ask for a switch? */
  predicate Wanted(fired: seq<Firing>, from: nat, h: Handler) {
    exists j :: from <= j < |fired| && h(fired[j].what, j).wantsYield
  }

  lemma {:induction false} FireAllTime(st: State, h: Handler)
    requires Inv(st) && IsDue(st)
    ensures var st' := FireAll(st, h);
            && Passed(st, st', 0, 0, 0, 0) && st.fired < st'.fired
            && (st'.yieldOnReturn <==> st.yieldOnReturn || Wanted(st'.fired, |st.fired|, h))
    decreases DueCount(st.pending, st.total)
  {
    hide Inv, DueCount, ScheduleAll;
    FireOneKeeps(st, h);
    var n := |st.fired|;
    var response := h(st.pending[0], n);
    ScheduleAllTime(Pop(st), response.requests);
    AnswersAllFired(Pop(st), response.requests);
    var st1, st' := FireOne(st, h), FireAll(st, h);
    hide FireOne, FireAll;
    assert st1.fired[n].what == st.pending[0];
    if IsDue(st1) {
      FireAllTime(st1, h);
      assert st'.fired[n] == st1.fired[n];
      assert st' == FireAll(st1, h) by { FireAllAgain(st, h); }
    } else {
      assert st' == st1 by { FireAllAgain(st, h); }
    }
  }

  lemma FireAllAgain(st: State, h: Handler)
    requires Inv(st) && IsDue(st) && Inv(FireOne(st, h))
    ensures FireAll(st, h) == if IsDue(FireOne(st, h)) then FireAll(FireOne(st, h), h) else FireOne(st, h)
  {
    hide Inv, FireOne;
  }

  lemma {:induction false} AnswersAllFired(st: State, requests: seq<Request>)
    ensures ScheduleAll(st, requests).fired == st.fired
    decreases |requests|
  {
    if requests != [] {
      AnswersAllFired(AfterSchedule(st, requests[0].fromNow, requests[0].kind), requests[1..]);
    }
  }

  lemma CheckTime(st: State, advanceClock: bool, h: Handler)
    requires Inv(st)
    ensures var st' := AfterCheck(st, advanceClock, h);
            var wait := if advanceClock && |st.pending| > 0 && !IsDue(st) then st.pending[0].when - st.total else 0;
            && Passed(st, st', wait, wait, 0, 0) && st.fired <= st'.fired
            && (st'.yieldOnReturn <==> st.yieldOnReturn || Wanted(st'.fired, |st.fired|, h))
  {
    hide Inv, FireAll;
    if !(|st.pending| == 0 || (!IsDue(st) && !advanceClock)) {
      AdvanceKeeps(st);
      InHandler(Advance(st), true);
      FireAllTime(Advance(st).(inHandler := true), h);
    }
  }

  /** A tick costs ten in the kernel and one in a user program; it ends in a switch if a handler asks for one. */
  lemma TickTime(st: State, h: Handler)
    requires Settled(st)
    ensures var st' := AfterTick(st, h);
            && (if st.status == SystemMode then Passed(st, st', 10, 0, 10, 0) else Passed(st, st', 1, 0, 0, 1))
            && st.fired <= st'.fired
            && (WantsSwitch(st, h) <==> st.yieldOnReturn || Wanted(st'.fired, |st.fired|, h))
  {
    hide Inv, AfterCheck;
    LaterKeeps(st);
    CheckTime(Later(st).(level := IntOff), false, h);
  }

  /**
   On every run: turning interrupts on, and a user instruction, cost ten ticks in the kernel and one in a user
   program; idling takes until the first pending interrupt is due; nothing else takes any time.
   */
  lemma TimeCharged(events: seq<Event>, k: nat)
    requires k < |events|
    ensures var st, st', e := Run(events[..k]), Run(events[..k + 1]), events[k];
            if e.UserInstruction? || (e.SetLevel? && e.now == IntOn && st.level == IntOff) then
              if st.status == SystemMode then Passed(st, st', 10, 0, 10, 0) else Passed(st, st', 1, 0, 0, 1)
            else if e.Idle? && st.pending != [] then
              Passed(st, st', st.pending[0].when - st.total, st.pending[0].when - st.total, 0, 0)
              && forall y :: y in st.pending ==> st.pending[0].when <= y.when
            else Passed(st, st', 0, 0, 0, 0)
  {
    var st, e := Run(events[..k]), events[k];
    assert events[..k + 1][..k] == events[..k];
    assert Run(events[..k + 1]) == Step(st, e);
    hide Run;
    StepTime(st, e);
  }

  lemma StepTime(st: State, e: Event)
    requires Settled(st)
    ensures var st' := Step(st, e);
            if e.UserInstruction? || (e.SetLevel? && e.now == IntOn && st.level == IntOff) then
              if st.status == SystemMode then Passed(st, st', 10, 0, 10, 0) else Passed(st, st', 1, 0, 0, 1)
            else if e.Idle? && st.pending != [] then
              Passed(st, st', st.pending[0].when - st.total, st.pending[0].when - st.total, 0, 0)
              && forall y :: y in st.pending ==> st.pending[0].when <= y.when
            else Passed(st, st', 0, 0, 0, 0)
  {
    FirstIsFirst(st);
    hide Inv, AfterCheck, AfterTick, Insert;
    match e
    case SetLevel(now, h) =>
      if now == IntOn && st.level == IntOff {
        ModesKeep(st, st.(level := now));
        TickTime(st.(level := now), h);
      }
    case UserInstruction(h) => TickTime(st, h);
    case Idle(h) =>
      ModesKeep(st, st.(status := IdleMode));
      CheckTime(st.(status := IdleMode), true, h);
    case _ =>
  }

  lemma FirstIsFirst(st: State)
    requires Inv(st)
    ensures st.pending != [] ==> forall y :: y in st.pending ==> st.pending[0].when <= y.when
  {
    hide Accounted, FiredOk;
  }
}
