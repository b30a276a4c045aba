/**
 User registers across context switches (threads/thread.cc, threads/scheduler.cc, userprog/addrspace.cc):
 the runs of `Kernel`, with the machine's registers, the copy each thread keeps of them, and the
 address spaces.  Handlers run while the machine idles touch none of these.
 */
module UserStates {
  import opened Options
  import Kernel

  type Tid = Kernel.Tid
  type Space = int

  const NUM_TOTAL_REGS := 40

  type Registers = r: seq<int> | |r| == NUM_TOTAL_REGS witness seq(NUM_TOTAL_REGS, i => 0)

  /** `spaces` has the threads that run a user program, `saved` what `userRegisters` of a thread was last given. */
  datatype State = State(
    kernel: Kernel.State, registers: Registers, pageTable: Option<Space>,
    spaces: map<Tid, Space>, saved: map<Tid, Registers>)

  /** Execute: the current thread starts the program in a space.  Compute: the current thread changes the registers. */
  datatype Event =
    | Switching(event: Kernel.Event)
    | Execute(space: Space, initial: Registers)
    | Compute(result: Registers)

  predicate Init(s: State) {
    Kernel.Init(s.kernel) && s.spaces == map[] && s.saved == map[]
  }

  /** `Scheduler::Run` before `SWITCH`: a user program's registers are saved. */
  function Leave(s: State): State {
    if s.kernel.current in s.spaces then s.(saved := s.saved[s.kernel.current := s.registers]) else s
  }

  /** `Scheduler::Run` after `SWITCH`, in the thread switched to. */
  function Return(s: State): State {
    var t := s.kernel.current;
    if t in s.spaces && t in s.saved then s.(registers := s.saved[t], pageTable := Some(s.spaces[t])) else s
  }

  predicate Enabled(s: State, e: Event) {
    match e
    case Switching(k) => Kernel.Enabled(s.kernel, k)
    case _ => s.kernel.mode == Kernel.Running
  }

  /** The assertions of the code. */
  predicate Asserted(s: State, e: Event) { e.Switching? ==> Kernel.Asserted(s.kernel, e.event) }

  function Do(s: State, e: Event): State
    requires Enabled(s, e) && Asserted(s, e)
  {
    match e
    case Switching(k) =>
      var s1 := if Kernel.IsPick(s.kernel, k) then Leave(s)
                else if k.Arrive? then Return(s)
                else if k.CreateThread? then s.(spaces := s.spaces - {k.t})
                else s;
      s1.(kernel := Kernel.Do(s.kernel, k))
    case Execute(space, initial) =>
      s.(spaces := s.spaces[s.kernel.current := space], registers := initial, pageTable := Some(space))
    case Compute(result) => s.(registers := result)
  }

  predicate IsRun(states: seq<State>, events: seq<Event>) {
    && |states| == |events| + 1 && Init(states[0])
    && forall i :: 0 <= i < |events| ==>
         Enabled(states[i], events[i]) && (Asserted(states[i], events[i]) ==> states[i + 1] == Do(states[i], events[i]))
  }

  // ---- what every run keeps ----

  /** A thread with a space has been through a switch since it got it, or has the processor and the page table. */
  ghost predicate Inv(s: State) {
    && Kernel.Inv(s.kernel)
    && (forall t :: t in s.spaces ==> InCharge(s, t) || t in s.saved)
    && (forall t :: t in s.spaces && InCharge(s, t) ==> s.pageTable == Some(s.spaces[t]))
  }

  /** The processor is the thread's: it is not in the middle of a switch. */
  predicate InCharge(s: State, t: Tid) { s.kernel.current == t && s.kernel.mode != Kernel.Arriving }

  /** Where a step of the kernel leaves the processor. */
  lemma Moves(k: Kernel.State, e: Kernel.Event)
    requires Kernel.Enabled(k, e) && Kernel.Asserted(k, e)
    ensures var k' := Kernel.Do(k, e);
            if Kernel.IsPick(k, e) then k'.current == k.ready[0] && k'.mode == Kernel.Arriving
            else k'.current == k.current && k'.mode != Kernel.Arriving
    ensures e.Arrive? <==> k.mode == Kernel.Arriving
  {
  }

  lemma StepKeeps(s: State, e: Event)
    requires Inv(s) && Enabled(s, e)
    ensures Asserted(s, e) && Inv(Do(s, e))
  {
    hide Kernel.Inv, Kernel.Do, Kernel.Asserted, Kernel.Enabled;
    if e.Switching? {
      Kernel.StepKeeps(s.kernel, e.event);
      Moves(s.kernel, e.event);
      hide Kernel.IsPick;
    }
  }

  lemma {:induction false} RunKeeps(states: seq<State>, events: seq<Event>, i: nat)
    requires IsRun(states, events) && i < |states|
    ensures Inv(states[i])
    ensures i < |events| ==> Asserted(states[i], events[i]) && states[i + 1] == Do(states[i], events[i])
  {
    hide Inv, Do, Enabled, Asserted;
    if i > 0 {
      RunKeeps(states, events, i - 1);
      StepKeeps(states[i - 1], events[i - 1]);
    } else {
      InitInv(states[0]);
    }
    if i < |events| {
      StepKeeps(states[i], events[i]);
    }
  }

  lemma InitInv(s: State)
    requires Init(s)
    ensures Inv(s)
  {
    Kernel.InitInv(s.kernel);
  }

  /** Whenever a user program has the processor, the machine translates through the program's own page table. */
  lemma OwnPageTable(states: seq<State>, events: seq<Event>, i: nat)
    requires IsRun(states, events) && i < |states|
    requires states[i].kernel.mode != Kernel.Arriving && states[i].kernel.current in states[i].spaces
    ensures states[i].pageTable == Some(states[i].spaces[states[i].kernel.current])
  {
    RunKeeps(states, events, i);
    assert InCharge(states[i], states[i].kernel.current);
  }

  // ---- resuming ----

  predicate Runs(s: State, t: Tid) { s.kernel.current == t && s.kernel.mode == Kernel.Running }

  /** The thread is not running, and its registers are in the machine, untouched, or in its own copy. */
  predicate Parked(s: State, t: Tid, registers: Registers, space: Space) {
    && t in s.spaces && s.spaces[t] == space && t in s.kernel.doing && !s.kernel.doing[t].Finishing? && !Runs(s, t)
    && (if InCharge(s, t) then s.registers == registers else t in s.saved && s.saved[t] == registers)
  }

  predicate Resumed(s: State, t: Tid, registers: Registers, space: Space) {
    Runs(s, t) && t in s.spaces && s.spaces[t] == space && s.registers == registers
  }

  lemma Suspends(s: State, k: Kernel.Event)
    requires Inv(s) && Enabled(s, Switching(k)) && Asserted(s, Switching(k)) && !k.Finish?
    requires s.kernel.mode == Kernel.Running && s.kernel.current in s.spaces
    ensures var t, s' := s.kernel.current, Do(s, Switching(k));
            Parked(s', t, s.registers, s.spaces[t]) || Resumed(s', t, s.registers, s.spaces[t])
  {
    hide Kernel.Counts, Kernel.Queues, Kernel.ReadyList;
  }

  /** A thread not running goes on existing and does not end. */
  lemma StaysAlive(k: Kernel.State, e: Kernel.Event, t: Tid)
    requires Kernel.Inv(k) && Kernel.Enabled(k, e) && Kernel.Asserted(k, e)
    requires t in k.doing && !k.doing[t].Finishing? && !(k.current == t && k.mode == Kernel.Running)
    ensures t in Kernel.Do(k, e).doing && !Kernel.Do(k, e).doing[t].Finishing? && e != Kernel.CreateThread(t)
  {
    hide Kernel.Counts, Kernel.Queues, Kernel.ReadyList, Kernel.Activities;
  }

  lemma StaysParked(s: State, e: Event, t: Tid, registers: Registers, space: Space)
    requires Inv(s) && Enabled(s, e) && Asserted(s, e) && Parked(s, t, registers, space)
    ensures Parked(Do(s, e), t, registers, space) || Resumed(Do(s, e), t, registers, space)
  {
    hide Kernel.Inv, Kernel.Do, Kernel.Asserted, Kernel.Enabled;
    if e.Switching? {
      Moves(s.kernel, e.event);
      StaysAlive(s.kernel, e.event, t);
      hide Kernel.IsPick;
    }
  }

  /**
   On every run: the registers a user program had at a step of the kernel other than its own end are
   those it has when it next runs, whoever ran, blocked, was created or ended in between.
   */
  lemma {:induction false} ResumesWithRegisters(states: seq<State>, events: seq<Event>, i: nat, j: nat, t: Tid)
    requires IsRun(states, events) && i < j < |states|
    requires Runs(states[i], t) && t in states[i].spaces && events[i].Switching? && !events[i].event.Finish?
    requires forall m :: i < m < j ==> !Runs(states[m], t)
    ensures Runs(states[j], t) ==>
              states[j].registers == states[i].registers && t in states[j].spaces
                && states[j].spaces[t] == states[i].spaces[t]
    ensures Parked(states[j], t, states[i].registers, states[i].spaces[t])
         || Resumed(states[j], t, states[i].registers, states[i].spaces[t])
    decreases j
  {
    hide Inv, Do, Enabled, Init;
    RunKeeps(states, events, j - 1);
    if j == i + 1 {
      Suspends(states[i], events[i].event);
    } else {
      ResumesWithRegisters(states, events, i, j - 1, t);
      StaysParked(states[j - 1], events[j - 1], t, states[i].registers, states[i].spaces[t]);
    }
  }

  // ---- the routines themselves ----

  class Machine {
    const registers: array<int>

    constructor ()
      ensures registers.Length == NUM_TOTAL_REGS && fresh(registers)
    {
      registers := new int[NUM_TOTAL_REGS](i => 0);
    }
  }

  class Thread {
    const userRegisters: array<int>

    predicate Fits(machine: Machine) {
      userRegisters != machine.registers && userRegisters.Length == machine.registers.Length == NUM_TOTAL_REGS
    }

    constructor ()
      ensures userRegisters.Length == NUM_TOTAL_REGS && fresh(userRegisters)
    {
      userRegisters := new int[NUM_TOTAL_REGS](i => 0);
    }

    method SaveUserState(machine: Machine)
      requires Fits(machine)
      modifies userRegisters
      ensures userRegisters[..] == machine.registers[..]
    {
      for i := 0 to NUM_TOTAL_REGS
        invariant userRegisters[..i] == machine.registers[..i]
      {
        userRegisters[i] := machine.registers[i];
      }
    }

    method RestoreUserState(machine: Machine)
      requires Fits(machine)
      modifies machine.registers
      ensures machine.registers[..] == userRegisters[..]
    {
      for i := 0 to NUM_TOTAL_REGS
        invariant machine.registers[..i] == userRegisters[..i]
      {
        machine.registers[i] := userRegisters[i];
      }
    }
  }
}
