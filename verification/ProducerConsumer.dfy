/**
 The bounded-buffer programs (test/producer.c, test/consumer.c, test/main.c): any number of producers and
 consumers share the file of items under three named semaphores.  Every system call is a step of its own.
 */
module ProducerConsumer {
  import opened Options

  const CAPACITY: int := 10
  const MAX_PRODUCE: int := 20
  const MAX_CONSUME: int := 10
  const BUFFER_SIZE: int := 100

  // ---- the contents of the file ----

  predicate IsDigit(c: char) { '0' <= c <= '9' }

  predicate AllDigits(s: seq<char>) { forall i :: 0 <= i < |s| ==> IsDigit(s[i]) }

  /** Items as the file stores them: the digits, then the terminator. */
  function Stored(items: seq<char>): seq<char> { items + ['e'] }

  /** The digits of a file, in order. */
  function Digits(file: seq<char>): seq<char> {
    if file == [] then []
    else
      var n := |file| - 1;
      Digits(file[..n]) + if IsDigit(file[n]) then [file[n]] else []
  }

  /** The item after the ones stored: the next digit, or the first. */
  function NextItem(items: seq<char>): (c: char)
    requires AllDigits(items)
    ensures IsDigit(c)
  {
    if items == [] || items[|items| - 1] == '9' then '0' else items[|items| - 1] + 1 as char
  }

  lemma {:induction false} DigitsAreDigits(file: seq<char>)
    ensures AllDigits(Digits(file)) && |Digits(file)| <= |file|
  {
    if file != [] {
      DigitsAreDigits(file[..|file| - 1]);
    }
  }

  lemma {:induction false} DigitsOfDigits(items: seq<char>)
    requires AllDigits(items)
    ensures Digits(items) == items
  {
    if items != [] {
      var n := |items| - 1;
      DigitsOfDigits(items[..n]);
      assert items == items[..n] + [items[n]];
    }
  }

  /** The stored form gives back the items. */
  lemma DigitsOfStored(items: seq<char>)
    requires AllDigits(items)
    ensures Digits(Stored(items)) == items
  {
    DigitsOfDigits(items);
    assert Stored(items)[..|items|] == items;
  }

  /** Where the terminator is, or the length if there is none. */
  function Terminator(s: seq<char>): (k: nat)
    ensures k <= |s| && (k < |s| ==> s[k] == 'e')
    ensures forall i :: 0 <= i < k ==> s[i] != 'e'
  {
    if s == [] || s[0] == 'e' then 0 else 1 + Terminator(s[1..])
  }

  /** What the consumer writes back: everything up to the terminator, moved one place. */
  function Shifted(s: seq<char>): seq<char>
    requires Terminator(s) < |s|
  { s[1..Terminator(s) + 1] }

  lemma ShiftedStored(items: seq<char>, rest: seq<char>)
    requires AllDigits(items) && items != []
    ensures Terminator(Stored(items) + rest) == |items| && Shifted(Stored(items) + rest) == Stored(items[1..])
  {
    var s := Stored(items) + rest;
    assert s[|items|] == 'e';
    assert forall i :: 0 <= i < |items| ==> s[i] == items[i];
    assert s[1..|items| + 1] == items[1..] + ['e'];
  }

  // ---- the two loops ----

  /** The consumer's shift loop; it ends because the terminator is there. */
  method Shift(item: array<char>) returns (numNew: nat)
    requires Terminator(item[..]) < item.Length
    modifies item
    ensures numNew == Terminator(old(item[..])) && item[..numNew] == Shifted(old(item[..]))
    ensures item[numNew..] == old(item[..])[numNew..]
  {
    ghost var k, was := Terminator(item[..]), item[..];
    hide Terminator;
    var i := 0;
    while item[i] != 'e'
      invariant 0 <= i <= k < item.Length && item[i..] == was[i..] && item[..i] == was[1..i + 1]
      decreases k - i
    {
      assert item[i] == item[i..][0] == was[i];
      assert item[i + 1] == item[i..][1] == was[i + 1];
      item[i] := item[i + 1];
      i := i + 1;
      assert item[i..] == was[i..];
      assert item[..i] == was[1..i] + [was[i]];
    }
    assert item[i] == item[i..][0] == was[i];
    numNew := i;
  }

  /** The producer's scan of the file and its new list. */
  method Produce(file: seq<char>, listItems: array<char>) returns (numItem: nat, newItem: char)
    requires listItems.Length == BUFFER_SIZE && |Digits(file)| <= BUFFER_SIZE - 2
    modifies listItems
    ensures AllDigits(Digits(file)) && newItem == NextItem(Digits(file))
    ensures numItem == |Digits(file)| + 2 && listItems[..numItem] == Stored(Digits(file) + [newItem])
  {
    DigitsAreDigits(file);
    numItem := 0;
    var position := 0;
    while position < |file|
      invariant 0 <= position <= |file| && numItem == |Digits(file[..position])| <= |Digits(file)|
      invariant listItems[..numItem] == Digits(file[..position])
    {
      var c := file[position];
      assert file[..position + 1][..position] == file[..position];
      DigitsMonotone(file, position + 1);
      if c != 'e' && '0' <= c && c <= '9' {
        listItems[numItem] := c;
        numItem := numItem + 1;
      }
      position := position + 1;
    }
    assert file[..position] == file;
    if numItem == 0 {
      newItem := '0';
    } else {
      assert listItems[numItem - 1] == listItems[..numItem][numItem - 1];
      var lastItem := listItems[numItem - 1];
      newItem := lastItem + 1 as char;
      if newItem > '9' {
        newItem := '0';
      }
    }
    listItems[numItem], listItems[numItem + 1] := newItem, 'e';
    numItem := numItem + 2;
  }

  lemma {:induction false} DigitsMonotone(file: seq<char>, n: nat)
    requires n <= |file|
    ensures |Digits(file[..n])| <= |Digits(file)|
    decreases |file|
  {
    if n == |file| {
      assert file[..n] == file;
    } else {
      var m := |file| - 1;
      assert file[..m][..n] == file[..n];
      DigitsMonotone(file[..m], n);
    }
  }

  // ---- the system ----

  /** The next system call of a process; `list` is what it is about to write back. */
  datatype Pc =
    | PWaitFull | PWaitAccess | PRead | PRemove(list: seq<char>) | PCreate(list: seq<char>) | PWrite(list: seq<char>)
    | PSignalAccess | PSignalEmpty
    | CWaitEmpty | CWaitAccess | CRead | CRemove(list: seq<char>) | CCreate(list: seq<char>) | CWrite(list: seq<char>)
    | CSignalAccess | CSignalFull

  datatype Process = Process(pc: Pc, count: nat)

  /** `file` is the item file, absent between its removal and its creation; the logs record what was printed. */
  datatype State = State(
    procs: seq<Process>, access: nat, empty: nat, full: nat, file: Option<seq<char>>, halted: bool,
    produced: seq<char>, consumed: seq<char>)

  predicate Init(s: State) {
    && (forall i :: 0 <= i < |s.procs| ==> s.procs[i].pc in {PWaitFull, CWaitEmpty} && s.procs[i].count == 0)
    && s.access == 1 && s.empty == 0 && s.full == CAPACITY && !s.halted
    && s.file.Some? && Digits(s.file.value) == [] && s.produced == [] && s.consumed == []
  }

  /** A process can take its next step; a wait needs a positive semaphore. */
  predicate Enabled(s: State, i: int) {
    && 0 <= i < |s.procs| && !s.halted
    && match s.procs[i].pc
       case PWaitFull => s.procs[i].count >= MAX_PRODUCE || s.full > 0
       case CWaitEmpty => s.procs[i].count >= MAX_CONSUME || s.empty > 0
       case PWaitAccess => s.access > 0
       case CWaitAccess => s.access > 0
       case _ => true
  }

  /** What a step silently relies on. */
  predicate Safe(s: State, i: int)
    requires 0 <= i < |s.procs|
  {
    match s.procs[i].pc
    case PRead => s.file.Some? && |Digits(s.file.value)| <= BUFFER_SIZE - 2
    case CRead => s.file.Some? && 0 < |s.file.value| <= BUFFER_SIZE && Terminator(s.file.value) < |s.file.value|
    case PCreate(_) => s.file.None?
    case CCreate(_) => s.file.None?
    case PWrite(_) => s.file == Some([])
    case CWrite(_) => s.file == Some([])
    case _ => true
  }

  function At(s: State, i: int, pc: Pc): State
    requires 0 <= i < |s.procs|
  { s.(procs := s.procs[i := s.procs[i].(pc := pc)]) }

  function Do(s: State, i: int): State
    requires Enabled(s, i) && Safe(s, i)
  {
    match s.procs[i].pc
    case PWaitFull => if s.procs[i].count >= MAX_PRODUCE then s.(halted := true)
      else At(s, i, PWaitAccess).(full := s.full - 1)
    case PWaitAccess => At(s, i, PRead).(access := s.access - 1)
    case PRead =>
      DigitsAreDigits(s.file.value);
      var items := Digits(s.file.value);
      At(s, i, PRemove(Stored(items + [NextItem(items)]))).(produced := s.produced + [NextItem(items)])
    case PRemove(list) => At(s, i, PCreate(list)).(file := None)
    case PCreate(list) => At(s, i, PWrite(list)).(file := Some([]))
    case PWrite(list) => s.(procs := s.procs[i := Process(PSignalAccess, s.procs[i].count + 1)], file := Some(list))
    case PSignalAccess => At(s, i, PSignalEmpty).(access := s.access + 1)
    case PSignalEmpty => At(s, i, PWaitFull).(empty := s.empty + 1)
    case CWaitEmpty => if s.procs[i].count >= MAX_CONSUME then s.(halted := true)
      else At(s, i, CWaitAccess).(empty := s.empty - 1)
    case CWaitAccess => At(s, i, CRead).(access := s.access - 1)
    case CRead => At(s, i, CRemove(Shifted(s.file.value))).(consumed := s.consumed + [s.file.value[0]])
    case CRemove(list) => At(s, i, CCreate(list)).(file := None)
    case CCreate(list) => At(s, i, CWrite(list)).(file := Some([]))
    case CWrite(list) => s.(procs := s.procs[i := Process(CSignalAccess, s.procs[i].count + 1)], file := Some(list))
    case CSignalAccess => At(s, i, CSignalFull).(access := s.access + 1)
    case CSignalFull => At(s, i, CWaitEmpty).(full := s.full + 1)
  }

  // ---- bookkeeping ----

  /** Holds the token of one slot or item. */
  function Slot(pc: Pc): nat { if pc.PWaitFull? || pc.CWaitEmpty? then 0 else 1 }

  /** About to read the file, rewriting it, or about to leave: inside the critical section. */
  function Inside(pc: Pc): (n: nat)
    ensures n <= 1
  {
    if pc.PWaitFull? || pc.PWaitAccess? || pc.PSignalEmpty? || pc.CWaitEmpty? || pc.CWaitAccess? || pc.CSignalFull?
    then 0 else 1
  }

  /** Stands for one stored item: produced and not yet announced, or claimed and not yet consumed. */
  function Item(pc: Pc): nat {
    match pc
    case PRemove(_) => 1
    case PCreate(_) => 1
    case PWrite(_) => 1
    case PSignalAccess => 1
    case PSignalEmpty => 1
    case CWaitAccess => 1
    case CRead => 1
    case _ => 0
  }

  predicate Updating(pc: Pc) { pc.PRemove? || pc.PCreate? || pc.PWrite? || pc.CRemove? || pc.CCreate? || pc.CWrite? }

  function Sum(procs: seq<Process>, weight: Pc -> nat): nat {
    if procs == [] then 0 else weight(procs[0].pc) + Sum(procs[1..], weight)
  }

  lemma {:induction false} SumUpdate(procs: seq<Process>, weight: Pc -> nat, i: nat, p: Process)
    requires i < |procs|
    ensures Sum(procs[i := p], weight) == Sum(procs, weight) - weight(procs[i].pc) + weight(p.pc)
    ensures Sum(procs, weight) >= weight(procs[i].pc)
  {
    var q := procs[i := p];
    if i == 0 {
      assert q[1..] == procs[1..];
    } else {
      assert q[1..] == procs[1..][i - 1 := p];
      SumUpdate(procs[1..], weight, i - 1, p);
    }
  }

  lemma {:induction false} SumTwo(procs: seq<Process>, weight: Pc -> nat, i: nat, j: nat)
    requires i < j < |procs|
    ensures Sum(procs, weight) >= weight(procs[i].pc) + weight(procs[j].pc)
  {
    if i == 0 {
      SumUpdate(procs[1..], weight, j - 1, procs[j]);
    } else {
      SumTwo(procs[1..], weight, i - 1, j - 1);
    }
  }

  lemma {:induction false} SumZero(procs: seq<Process>, weight: Pc -> nat)
    requires forall i :: 0 <= i < |procs| ==> weight(procs[i].pc) == 0
    ensures Sum(procs, weight) == 0
  {
    if procs != [] {
      SumZero(procs[1..], weight);
    }
  }

  /** The items stored once every update under way is finished. */
  function Pending(s: State): seq<char>
    requires |s.consumed| <= |s.produced|
  { s.produced[|s.consumed|..] }

  /** The semaphores and the processes together account for every slot, every stored item and the critical section. */
  ghost predicate CountInv(s: State) {
    && s.full + s.empty + Sum(s.procs, Slot) == CAPACITY
    && |s.produced| - |s.consumed| == s.empty + Sum(s.procs, Item)
    && s.access + Sum(s.procs, Inside) == 1
  }

  /** The item file as it is between updates. */
  predicate FileOk(s: State)
    requires |s.consumed| <= |s.produced|
  {
    s.file.Some? && if s.produced == [] then Digits(s.file.value) == [] else s.file.value == Stored(Pending(s))
  }

  /** A process updating the file carries its new contents. */
  predicate UpdateOk(s: State, pc: Pc)
    requires |s.consumed| <= |s.produced|
  {
    match pc
    case PRemove(list) => list == Stored(Pending(s))
    case PCreate(list) => list == Stored(Pending(s)) && s.file.None?
    case PWrite(list) => list == Stored(Pending(s)) && s.file == Some([])
    case CRemove(list) => list == Stored(Pending(s))
    case CCreate(list) => list == Stored(Pending(s)) && s.file.None?
    case CWrite(list) => list == Stored(Pending(s)) && s.file == Some([])
    case _ => true
  }

  ghost predicate Inv(s: State) {
    && CountInv(s) && AllDigits(s.produced) && s.consumed <= s.produced
    && (forall i :: 0 <= i < |s.procs| ==> UpdateOk(s, s.procs[i].pc) && (Updating(s.procs[i].pc) ==> s.produced != []))
    && ((forall i :: 0 <= i < |s.procs| ==> !Updating(s.procs[i].pc)) ==> FileOk(s))
  }

  lemma CountAfter(s: State, s': State, i: int, p: Process)
    requires CountInv(s) && 0 <= i < |s.procs| && s'.procs == s.procs[i := p]
    requires s'.full + s'.empty + Slot(p.pc) == s.full + s.empty + Slot(s.procs[i].pc)
    requires |s'.produced| - |s'.consumed| - s'.empty - Item(p.pc)
             == |s.produced| - |s.consumed| - s.empty - Item(s.procs[i].pc)
    requires s'.access + Inside(p.pc) == s.access + Inside(s.procs[i].pc)
    ensures CountInv(s')
  {
    SumUpdate(s.procs, Slot, i, p);
    SumUpdate(s.procs, Item, i, p);
    SumUpdate(s.procs, Inside, i, p);
  }

  lemma CountKeeps(s: State, i: int)
    requires CountInv(s) && Enabled(s, i) && Safe(s, i)
    ensures CountInv(Do(s, i))
  {
    hide Digits, Terminator, NextItem, Stored, Shifted, Sum, CountInv;
    var s' := Do(s, i);
    assert s'.procs == s.procs[i := s'.procs[i]];
    CountAfter(s, s', i, s'.procs[i]);
  }

  /** Mutual exclusion: while one process is inside, no other is, and the access semaphore is zero. */
  lemma AloneInside(s: State, i: int, j: int)
    requires CountInv(s) && 0 <= i < |s.procs| && 0 <= j < |s.procs| && i != j && Inside(s.procs[i].pc) == 1
    ensures Inside(s.procs[j].pc) == 0 && s.access == 0
  {
    SumTwo(s.procs, Inside, if i < j then i else j, if i < j then j else i);
  }

  lemma InsideFile(s: State, i: int)
    requires Inv(s) && 0 <= i < |s.procs| && Inside(s.procs[i].pc) == 1 && !Updating(s.procs[i].pc)
    ensures FileOk(s)
  {
    hide UpdateOk, FileOk;
    forall j | 0 <= j < |s.procs|
      ensures !Updating(s.procs[j].pc)
    {
      if j != i { AloneInside(s, i, j); }
    }
  }

  /** Never more stored than there is room for, and something for a process that is about to take it. */
  lemma Room(s: State, i: int)
    requires CountInv(s) && |s.consumed| <= |s.produced| && 0 <= i < |s.procs|
    ensures |Pending(s)| <= CAPACITY && (s.procs[i].pc == CRead ==> Pending(s) != [])
  {
    hide Sum;
    SumUpdate(s.procs, Item, i, s.procs[i]);
    ItemsAreSlots(s.procs);
  }

  /** So a reader finds a finished file, with an item to take or room to add one. */
  lemma ReadSafe(s: State, i: int)
    requires Inv(s) && 0 <= i < |s.procs|
    ensures Safe(s, i)
    ensures s.procs[i].pc in {PRead, CRead} ==> FileOk(s)
    ensures s.procs[i].pc == CRead ==> Pending(s) != []
  {
    hide CountInv, Sum, Digits, Terminator, Shifted;
    var pc := s.procs[i].pc;
    if pc == PRead || pc == CRead {
      InsideFile(s, i);
      Room(s, i);
      hide UpdateOk;
      DigitsOfStored(Pending(s));
      if pc == CRead {
        ShiftedStored(Pending(s), []);
        assert Stored(Pending(s)) + [] == Stored(Pending(s));
      }
    }
  }

  lemma {:induction false} ItemsAreSlots(procs: seq<Process>)
    ensures Sum(procs, Item) <= Sum(procs, Slot)
  {
    if procs != [] {
      ItemsAreSlots(procs[1..]);
    }
  }

  lemma ProduceFile(s: State, i: int)
    requires Inv(s) && Enabled(s, i) && Safe(s, i) && s.procs[i].pc == PRead
    ensures var s' := Do(s, i);
            && AllDigits(s'.produced) && s'.consumed <= s'.produced && s'.procs[i].pc == PRemove(Stored(Pending(s')))
            && s'.produced != []
  {
    hide NextItem, Sum, CountInv;
    ReadSafe(s, i);
    var s' := Do(s, i);
    DigitsAreDigits(s.file.value);
    assert Digits(s.file.value) == Pending(s) by {
      if s.produced != [] { DigitsOfStored(Pending(s)); }
    }
    hide Digits;
    assert Pending(s') == Pending(s) + [s'.produced[|s.produced|]];
  }

  lemma ConsumeFile(s: State, i: int)
    requires Inv(s) && Enabled(s, i) && Safe(s, i) && s.procs[i].pc == CRead
    ensures var s' := Do(s, i);
            && s'.produced == s.produced != [] && s'.consumed <= s'.produced
            && s'.procs[i].pc == CRemove(Stored(Pending(s')))
  {
    hide NextItem, Digits, Sum, CountInv, Terminator;
    ReadSafe(s, i);
    var s' := Do(s, i);
    ShiftedStored(Pending(s), []);
    assert Stored(Pending(s)) + [] == Stored(Pending(s));
    hide Shifted;
    assert s.file.value[0] == Pending(s)[0] == s.produced[|s.consumed|];
    assert Pending(s') == Pending(s)[1..];
  }

  /** What each step does to the file and the logs, inside the critical section. */
  lemma StepFile(s: State, i: int)
    requires Inv(s) && Enabled(s, i) && Safe(s, i)
    ensures var s' := Do(s, i);
            && AllDigits(s'.produced) && s'.consumed <= s'.produced
            && UpdateOk(s', s'.procs[i].pc) && (Updating(s'.procs[i].pc) ==> s'.produced != [])
            && (Inside(s.procs[i].pc) == 1 && !Updating(s'.procs[i].pc) ==> FileOk(s'))
  {
    hide NextItem, Digits, Sum, CountInv, Terminator, Shifted, Stored;
    match s.procs[i].pc
    case PRead => ProduceFile(s, i);
    case CRead => ConsumeFile(s, i);
    case PSignalAccess => InsideFile(s, i);
    case CSignalAccess => InsideFile(s, i);
    case _ =>
  }

  /** A step outside the critical section leaves the file and the logs alone. */
  lemma OutsideStep(s: State, i: int)
    requires Enabled(s, i) && Safe(s, i) && Inside(s.procs[i].pc) == 0
    ensures var s' := Do(s, i);
            s'.file == s.file && s'.produced == s.produced && s'.consumed == s.consumed && !Updating(s'.procs[i].pc)
  {
  }

  lemma NextKeeps(s: State, i: int)
    requires Inv(s) && Enabled(s, i) && Safe(s, i)
    ensures Inv(Do(s, i))
  {
    hide Do, Safe, CountInv, Stored, Digits, Sum, AllDigits, Inside, UpdateOk, FileOk, Updating;
    CountKeeps(s, i);
    StepFile(s, i);
    OthersStay(s, i);
    if Inside(s.procs[i].pc) == 0 {
      OutsideStep(s, i);
      SameFile(s, Do(s, i));
      IdleOutside(s, s.procs[i].pc);
    } else {
      hide Enabled;
      forall j | 0 <= j < |s.procs| && j != i
        ensures !Updating(s.procs[j].pc) && UpdateOk(Do(s, i), s.procs[j].pc)
      {
        AloneInside(s, i, j);
        IdleOutside(Do(s, i), s.procs[j].pc);
      }
    }
  }

  lemma SameFile(s: State, s': State)
    requires |s.consumed| <= |s.produced| && s'.consumed == s.consumed && s'.produced == s.produced && s'.file == s.file
    ensures forall pc: Pc :: UpdateOk(s', pc) == UpdateOk(s, pc)
    ensures FileOk(s') == FileOk(s)
  {
  }

  lemma IdleOutside(s: State, pc: Pc)
    requires |s.consumed| <= |s.produced|
    ensures Inside(pc) == 0 ==> !Updating(pc) && UpdateOk(s, pc)
  {
  }

  lemma OthersStay(s: State, i: int)
    requires Enabled(s, i) && Safe(s, i)
    ensures var s' := Do(s, i);
            |s'.procs| == |s.procs| && forall j :: 0 <= j < |s.procs| && j != i ==> s'.procs[j] == s.procs[j]
  {
  }

  // ---- every run ----

  ghost predicate IsRun(states: seq<State>, steps: seq<int>) {
    && |states| == |steps| + 1 && Init(states[0])
    && forall k :: 0 <= k < |steps| ==>
         Enabled(states[k], steps[k]) && (Safe(states[k], steps[k]) ==> states[k + 1] == Do(states[k], steps[k]))
  }

  lemma InitInv(s: State)
    requires Init(s)
    ensures Inv(s)
  {
    SumZero(s.procs, Slot);
    SumZero(s.procs, Item);
    SumZero(s.procs, Inside);
  }

  /**
   On every run every step is safe: reads fit their buffers, find a finished file, and the shift loop meets its
   terminator.
   */
  lemma {:induction false} RunKeeps(states: seq<State>, steps: seq<int>, k: nat)
    requires IsRun(states, steps) && k < |states|
    ensures Inv(states[k]) && (k < |steps| ==> Safe(states[k], steps[k]) && states[k + 1] == Do(states[k], steps[k]))
  {
    hide Inv, Init, Do, Safe;
    if k == 0 {
      InitInv(states[0]);
    } else {
      RunKeeps(states, steps, k - 1);
      NextKeeps(states[k - 1], steps[k - 1]);
    }
    if k < |steps| {
      ReadSafe(states[k], steps[k]);
    }
  }

  /**
   On every run: consumed items are a prefix of produced ones, the store never exceeds its capacity, and whenever
   no process is in the critical section the file holds exactly the unconsumed items and the terminator.
   */
  lemma BufferCorrect(states: seq<State>, steps: seq<int>, k: nat)
    requires IsRun(states, steps) && k < |states|
    ensures var s := states[k];
            && s.consumed <= s.produced && 0 <= |s.produced| - |s.consumed| <= CAPACITY
            && (s.access == 1 && s.produced != [] ==> s.file == Some(s.produced[|s.consumed|..] + ['e']))
  {
    RunKeeps(states, steps, k);
    hide IsRun;
    var s := states[k];
    ItemsAreSlots(s.procs);
    if s.access == 1 {
      forall j | 0 <= j < |s.procs|
        ensures !Updating(s.procs[j].pc)
      {
        SumUpdate(s.procs, Inside, j, s.procs[j]);
      }
    }
  }

  /**
   On every run: an item is produced when a producer reads the file, and only then.  It is the digit after the last
   one stored, 0 coming after 9; and 0 when nothing is stored.  An item is consumed when a consumer reads the file,
   and is the first one stored.
   */
  lemma ItemsFollow(states: seq<State>, steps: seq<int>, k: nat)
    requires IsRun(states, steps) && k < |steps|
    ensures 0 <= steps[k] < |states[k].procs| && |states[k].consumed| <= |states[k].produced|
    ensures var s, s' := states[k], states[k + 1];
            var pc, stored := s.procs[steps[k]].pc, s.produced[|s.consumed|..];
            && (if pc == PRead then
                  exists c :: s'.produced == s.produced + [c] && '0' <= c <= '9'
                    && c as int - '0' as int
                       == if stored == [] then 0 else (stored[|stored| - 1] as int - '0' as int + 1) % 10
                else s'.produced == s.produced)
            && (if pc == CRead then stored != [] && s'.consumed == s.consumed + [stored[0]]
                else s'.consumed == s.consumed)
  {
    RunKeeps(states, steps, k);
    ReadSafe(states[k], steps[k]);
    hide IsRun, Inv, Digits, Terminator, Shifted, Stored, Sum, CountInv;
    var s, i := states[k], steps[k];
    if s.procs[i].pc == PRead {
      ProducedFollows(s, i);
    } else if s.procs[i].pc == CRead {
      ConsumedFirst(s, i);
    }
  }

  lemma ProducedFollows(s: State, i: int)
    requires Inv(s) && Enabled(s, i) && Safe(s, i) && s.procs[i].pc == PRead && FileOk(s)
    ensures var stored := s.produced[|s.consumed|..];
            exists c :: Do(s, i).produced == s.produced + [c] && '0' <= c <= '9'
              && c as int - '0' as int
                 == if stored == [] then 0 else (stored[|stored| - 1] as int - '0' as int + 1) % 10
  {
    hide Sum, CountInv, Stored;
    DigitsAreDigits(s.file.value);
    assert Digits(s.file.value) == Pending(s) by {
      if s.produced != [] { DigitsOfStored(Pending(s)); }
    }
    hide Digits;
    NextDigit(Pending(s));
    var c := NextItem(Pending(s));
    assert Do(s, i).produced == s.produced + [c];
  }

  lemma NextDigit(items: seq<char>)
    requires AllDigits(items)
    ensures NextItem(items) as int - '0' as int
         == if items == [] then 0 else (items[|items| - 1] as int - '0' as int + 1) % 10
  {
  }

  lemma ConsumedFirst(s: State, i: int)
    requires Inv(s) && Enabled(s, i) && Safe(s, i) && s.procs[i].pc == CRead && FileOk(s) && Pending(s) != []
    ensures Do(s, i).consumed == s.consumed + [s.produced[|s.consumed|..][0]]
    ensures Do(s, i).produced == s.produced
  {
    hide Sum, CountInv, Digits, Terminator;
  }

  /**
   Every step takes its process to the next system call of its program: a producer waits for room, then for access,
   reads, removes the file, creates it, writes it, and signals twice; a consumer likewise.  The twenty-first turn of a
   producer, and the eleventh of a consumer, halt the machine.
   */
  lemma ProgramOrder(states: seq<State>, steps: seq<int>, k: nat)
    requires IsRun(states, steps) && k < |steps|
    ensures var s, s', i := states[k], states[k + 1], steps[k];
            && 0 <= i < |s.procs| == |s'.procs|
            && (forall j :: 0 <= j < |s.procs| && j != i ==> s'.procs[j] == s.procs[j])
            && var p, p' := s.procs[i], s'.procs[i];
            && s'.halted == ((p.pc == PWaitFull && p.count >= 20) || (p.pc == CWaitEmpty && p.count >= 10))
            && (if s'.halted then p' == p else p'.count == p.count + if p.pc.PWrite? || p.pc.CWrite? then 1 else 0)
            && (s'.halted ||
                match p.pc
                case PWaitFull => p'.pc == PWaitAccess && s'.full == s.full - 1
                case PWaitAccess => p'.pc == PRead && s'.access == s.access - 1
                case PRead => p'.pc.PRemove?
                case PRemove(list) => p'.pc == PCreate(list) && s'.file == None
                case PCreate(list) => p'.pc == PWrite(list) && s'.file == Some([])
                case PWrite(list) => p'.pc == PSignalAccess && s'.file == Some(list)
                case PSignalAccess => p'.pc == PSignalEmpty && s'.access == s.access + 1
                case PSignalEmpty => p'.pc == PWaitFull && s'.empty == s.empty + 1
                case CWaitEmpty => p'.pc == CWaitAccess && s'.empty == s.empty - 1
                case CWaitAccess => p'.pc == CRead && s'.access == s.access - 1
                case CRead => p'.pc.CRemove?
                case CRemove(list) => p'.pc == CCreate(list) && s'.file == None
                case CCreate(list) => p'.pc == CWrite(list) && s'.file == Some([])
                case CWrite(list) => p'.pc == CSignalAccess && s'.file == Some(list)
                case CSignalAccess => p'.pc == CSignalFull && s'.access == s.access + 1
                case CSignalFull => p'.pc == CWaitEmpty && s'.full == s.full + 1)
  {
    RunKeeps(states, steps, k);
    assert Enabled(states[k], steps[k]);
    hide IsRun, Inv, Digits, Terminator, Shifted, Stored, NextItem;
  }

  /** On every run with a producer and a consumer, some process can move until the machine is halted. */
  lemma NoDeadlock(states: seq<State>, steps: seq<int>, k: nat, p: nat, c: nat)
    requires IsRun(states, steps) && k < |states| && !states[k].halted
    requires p < |states[k].procs| && c < |states[k].procs| && IsProducer(states[k].procs[p].pc)
    requires !IsProducer(states[k].procs[c].pc)
    ensures exists i :: Enabled(states[k], i)
  {
    RunKeeps(states, steps, k);
    hide IsRun, UpdateOk, FileOk, Pending;
    var s := states[k];
    if i :| 0 <= i < |s.procs| && Inside(s.procs[i].pc) == 1 {
      assert Enabled(s, i);
    } else {
      SumZero(s.procs, Inside);
      if i :| 0 <= i < |s.procs| && Slot(s.procs[i].pc) == 1 {
        assert Enabled(s, i);
      } else {
        SumZero(s.procs, Slot);
        assert Enabled(s, if s.full > 0 then p else c);
      }
    }
  }

  predicate IsProducer(pc: Pc) {
    pc.PWaitFull? || pc.PWaitAccess? || pc.PRead? || pc.PRemove? || pc.PCreate? || pc.PWrite? || pc.PSignalAccess?
      || pc.PSignalEmpty?
  }
}
