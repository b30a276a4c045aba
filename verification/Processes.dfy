/**
 Many address spaces over one physical memory: every run of loads, accesses and destructions keeps
 frames accounted for and spaces isolated (userprog/addrspace.cc, machine/translate.cc).
 */
module Processes {
  import opened Words
  import opened PagedMemory
  import opened AddrSpaces
  import opened Options

  /** `marked` is the frame bitmap; `spaces` the live address spaces' page tables. */
  datatype World = World(marked: set<int>, mem: Memory, spaces: map<int, PageTable>)

  datatype Event =
    | Load(id: int, pages: PageTable, image: seq<Byte>)
    | Destroy(id: int)
    | Read(id: int, va: Word, size: int)
    | Write(id: int, va: Word, size: int, value: Word)

  predicate Init(w: World) { w.marked == {} && w.spaces == map[] }

  /** One event; loads and destructions do what the methods of `AddrSpace` promise. */
  ghost predicate Next(w: World, e: Event, w': World) {
    match e
    case Load(id, pages, image) =>
      && id !in w.spaces && Claimed(pages, w.marked, w'.marked) && w'.spaces == w.spaces[id := pages]
      && Holds(w'.mem, pages, image) && SameOutside(w.mem, w'.mem, Frames(pages))
    case Destroy(id) =>
      id in w.spaces && w' == World(w.marked - Frames(w.spaces[id]), w.mem, w.spaces - {id})
    case Read(id, va, size) =>
      && id in w.spaces && size in {1, 2, 4}
      && w' == (if AccessFault(w.spaces[id], va, size, false).Some? then w
                else w.(spaces := w.spaces[id := Touch(w.spaces[id], va, false)]))
    case Write(id, va, size, value) =>
      && id in w.spaces && size in {1, 2, 4}
      && match WriteMem(w.spaces[id], w.mem, va, size, value)
         case StoreFault(_) => w' == w
         case Stored(m) => w' == World(w.marked, m, w.spaces[id := Touch(w.spaces[id], va, true)])
  }

  ghost predicate IsRun(states: seq<World>, events: seq<Event>) {
    && |states| == |events| + 1 && Init(states[0])
    && forall i :: 0 <= i < |events| ==> Next(states[i], events[i], states[i + 1])
  }

  /** Live spaces own pairwise disjoint frames, and the marked frames are exactly the owned ones. */
  ghost predicate Inv(w: World) {
    && (forall id :: id in w.spaces ==> SpaceOk(w.spaces[id]))
    && (forall a, b :: a in w.spaces && b in w.spaces && a != b ==> Frames(w.spaces[a]) !! Frames(w.spaces[b]))
    && w.marked == AllFrames(w.spaces)
  }

  ghost function AllFrames(spaces: map<int, PageTable>): set<int> {
    set id, f | id in spaces && f in Frames(spaces[id]) :: f
  }

  lemma TouchKeeps(pages: PageTable, va: Word, writing: bool)
    requires SpaceOk(pages) && IsMapped(pages, va)
    ensures SpaceOk(Touch(pages, va, writing)) && Frames(Touch(pages, va, writing)) == Frames(pages)
    ensures |Touch(pages, va, writing)| == |pages|
    ensures forall x :: IsMapped(pages, x) ==>
                IsMapped(Touch(pages, va, writing), x) && Physical(Touch(pages, va, writing), x) == Physical(pages, x)
  {
    var t := Touch(pages, va, writing);
    assert forall i :: 0 <= i < |pages| ==> t[i].physicalPage == pages[i].physicalPage;
    assert forall f :: f in Frames(t) <==> f in Frames(pages);
  }

  lemma ReplaceSpace(w: World, id: int, pages: PageTable)
    requires Inv(w) && id in w.spaces && SpaceOk(pages) && Frames(pages) == Frames(w.spaces[id])
    ensures Inv(w.(spaces := w.spaces[id := pages]))
  {
    hide Frames, SpaceOk;
    var s' := w.spaces[id := pages];
    forall f
      ensures f in AllFrames(s') <==> f in AllFrames(w.spaces)
    {
      if f in AllFrames(w.spaces) {
        var a :| a in w.spaces && f in Frames(w.spaces[a]);
        assert a in s' && f in Frames(s'[a]);
      }
      if f in AllFrames(s') {
        var a :| a in s' && f in Frames(s'[a]);
        assert a in w.spaces && f in Frames(w.spaces[a]);
      }
    }
  }

  lemma LoadKeeps(w: World, w': World, id: int, pages: PageTable)
    requires Inv(w) && id !in w.spaces && Claimed(pages, w.marked, w'.marked) && w'.spaces == w.spaces[id := pages]
    ensures Inv(w')
  {
    hide Frames, SpaceOk;
    forall f
      ensures f in AllFrames(w'.spaces) <==> f in w.marked || f in Frames(pages)
    {
      if f in Frames(pages) { assert id in w'.spaces && f in Frames(w'.spaces[id]); }
      if f in AllFrames(w.spaces) {
        var a :| a in w.spaces && f in Frames(w.spaces[a]);
        assert a in w'.spaces && f in Frames(w'.spaces[a]);
      }
    }
    forall a | a in w.spaces
      ensures Frames(w.spaces[a]) !! Frames(pages)
    {
      assert forall f :: f in Frames(w.spaces[a]) ==> f in AllFrames(w.spaces);
    }
  }

  lemma DestroyKeeps(w: World, id: int)
    requires Inv(w) && id in w.spaces
    ensures Inv(World(w.marked - Frames(w.spaces[id]), w.mem, w.spaces - {id}))
  {
    hide Frames, SpaceOk;
    var s' := w.spaces - {id};
    forall f
      ensures f in AllFrames(s') <==> f in AllFrames(w.spaces) && f !in Frames(w.spaces[id])
    {
      if f in AllFrames(w.spaces) && f !in Frames(w.spaces[id]) {
        var a :| a in w.spaces && f in Frames(w.spaces[a]);
        assert a in s' && f in Frames(s'[a]);
      }
    }
  }

  lemma NextKeeps(w: World, e: Event, w': World)
    requires Inv(w) && Next(w, e, w')
    ensures Inv(w')
  {
    hide Frames, SpaceOk, Inv;
    match e
    case Load(id, pages, image) => LoadKeeps(w, w', id, pages);
    case Destroy(id) => DestroyKeeps(w, id);
    case Read(id, va, size) =>
      assert SpaceOk(w.spaces[id]) by { SpaceIsOk(w, id); }
      if AccessFault(w.spaces[id], va, size, false).None? {
        TouchKeeps(w.spaces[id], va, false);
        ReplaceSpace(w, id, Touch(w.spaces[id], va, false));
      }
    case Write(id, va, size, value) =>
      assert SpaceOk(w.spaces[id]) by { SpaceIsOk(w, id); }
      if AccessFault(w.spaces[id], va, size, true).None? {
        TouchKeeps(w.spaces[id], va, true);
        ReplaceSpace(w, id, Touch(w.spaces[id], va, true));
        SameAccounts(w.(spaces := w.spaces[id := Touch(w.spaces[id], va, true)]), w');
      }
  }

  lemma SpaceIsOk(w: World, id: int)
    requires Inv(w) && id in w.spaces
    ensures SpaceOk(w.spaces[id])
  {
  }

  lemma SameAccounts(w: World, w': World)
    requires Inv(w) && w'.marked == w.marked && w'.spaces == w.spaces
    ensures Inv(w')
  {
  }

  lemma {:induction false} RunKeeps(states: seq<World>, events: seq<Event>, i: nat)
    requires IsRun(states, events) && i < |states|
    ensures Inv(states[i])
  {
    if i > 0 {
      RunKeeps(states, events, i - 1);
      NextKeeps(states[i - 1], events[i - 1], states[i]);
    }
  }

  // ---- conservation ----

  lemma SomeKey(m: map<int, PageTable>)
    requires m != map[]
    ensures exists id :: id in m
  {
    if forall id :: id !in m {
      assert false;
    }
  }

  ghost function Pick(m: map<int, PageTable>): (id: int)
    requires m != map[]
    ensures id in m
  {
    SomeKey(m);
    var id :| id in m; id
  }

  /** Pages owned by all live spaces together. */
  ghost function TotalPages(m: map<int, PageTable>): nat
    decreases |m|
  {
    if m == map[] then 0
    else
      var id := Pick(m);
      assert (m - {id}).Keys == m.Keys - {id};
      |m[id]| + TotalPages(m - {id})
  }

  lemma {:induction false} FramesCount(pages: PageTable)
    requires SpaceOk(pages)
    ensures |Frames(pages)| == |pages|
  {
    if pages == [] {
      assert Frames(pages) == {};
    } else {
      var n := |pages| - 1;
      FramesCount(pages[..n]);
      FramesStep(pages, n);
      assert pages[..n + 1] == pages;
      assert pages[n].physicalPage !in Frames(pages[..n]);
    }
  }

  lemma {:induction false} AllFramesCount(w: World)
    requires Inv(w)
    ensures |w.marked| == TotalPages(w.spaces)
    decreases |w.spaces|
  {
    if w.spaces == map[] {
      assert w.marked == {};
    } else {
      var id := Pick(w.spaces);
      FramesCount(w.spaces[id]);
      DestroyKeeps(w, id);
      assert (w.spaces - {id}).Keys == w.spaces.Keys - {id};
      AllFramesCount(World(w.marked - Frames(w.spaces[id]), w.mem, w.spaces - {id}));
      hide Frames;
      assert Frames(w.spaces[id]) <= w.marked;
      assert w.marked == (w.marked - Frames(w.spaces[id])) + Frames(w.spaces[id]);
    }
  }

  ghost function FirstFrames(n: nat): (s: set<int>)
    ensures forall f :: f in s <==> 0 <= f < n
    ensures |s| == n
  {
    if n == 0 then {} else FirstFrames(n - 1) + {n - 1}
  }

  ghost function FreeFrames(w: World): set<int> { FirstFrames(NUM_PHYS_PAGES) - w.marked }

  lemma MarkedAreFrames(w: World)
    requires Inv(w)
    ensures forall f :: f in w.marked ==> 0 <= f < NUM_PHYS_PAGES
  {
    forall f | f in w.marked
      ensures 0 <= f < NUM_PHYS_PAGES
    {
      var id :| id in w.spaces && f in Frames(w.spaces[id]);
      assert SpaceOk(w.spaces[id]);
    }
  }

  lemma Complement(s: set<int>, n: nat)
    requires forall f :: f in s ==> 0 <= f < n
    ensures |FirstFrames(n) - s| + |s| == n
  {
    hide FirstFrames;
    assert FirstFrames(n) == (FirstFrames(n) - s) + s;
  }

  /** In every state of every run, free frames plus owned frames are all the frames there are. */
  lemma FramesConserved(states: seq<World>, events: seq<Event>, i: nat)
    requires IsRun(states, events) && i < |states|
    ensures |FreeFrames(states[i])| + TotalPages(states[i].spaces) == NUM_PHYS_PAGES
  {
    hide FirstFrames, IsRun, TotalPages, Inv;
    RunKeeps(states, events, i);
    var w := states[i];
    AllFramesCount(w);
    MarkedAreFrames(w);
    Complement(w.marked, NUM_PHYS_PAGES);
  }

  // ---- flat memory and isolation ----

  /** Different addresses of one space, or any addresses of two spaces, are different bytes of memory. */
  lemma DistinctBytes(p: PageTable, q: PageTable, x: int, y: int)
    requires SpaceOk(p) && SpaceOk(q) && IsMapped(p, x) && IsMapped(q, y)
    requires (p == q && x != y) || Frames(p) !! Frames(q)
    ensures Physical(p, x) != Physical(q, y)
  {
    var i, j := x / PAGE_SIZE, y / PAGE_SIZE;
    assert p[i].physicalPage in Frames(p) && q[j].physicalPage in Frames(q);
    if p == q && i == j {
      assert x % PAGE_SIZE != y % PAGE_SIZE;
    } else {
      assert p[i].physicalPage != q[j].physicalPage;
    }
  }

  /** Reading a word is reading four consecutive bytes of the space, lowest first (and likewise for shorter reads). */
  lemma ReadIsFlat(pages: PageTable, mem: Memory, va: Word, size: int)
    requires size in {1, 2, 4} && AccessFault(pages, va, size, false).None?
    ensures IsMapped(pages, va) && (size >= 2 ==> IsMapped(pages, va + 1))
    ensures (size == 4 ==> IsMapped(pages, va + 2) && IsMapped(pages, va + 3))
    ensures ReadMem(pages, mem, va, size) == Loaded(
              if size == 1 then SignExtend8(VirtualByte(pages, mem, va))
              else if size == 2 then FromBytes(VirtualByte(pages, mem, va), VirtualByte(pages, mem, va + 1), 0, 0)
              else FromBytes(VirtualByte(pages, mem, va), VirtualByte(pages, mem, va + 1),
                             VirtualByte(pages, mem, va + 2), VirtualByte(pages, mem, va + 3)))
  {
    AlignedWithinFrame(pages, va, size, 0);
    if size >= 2 {
      AlignedWithinFrame(pages, va, size, 1);
    }
    if size == 4 {
      AlignedWithinFrame(pages, va, size, 2);
      AlignedWithinFrame(pages, va, size, 3);
    }
  }

  /** A store changes exactly the addressed bytes of its own space... */
  lemma WriteIsFlat(pages: PageTable, mem: Memory, va: Word, size: int, value: Word, x: int)
    requires SpaceOk(pages) && size in {1, 2, 4} && AccessFault(pages, va, size, true).None? && IsMapped(pages, x)
    ensures WriteMem(pages, mem, va, size, value).Stored?
    ensures VirtualByte(pages, WriteMem(pages, mem, va, size, value).mem, x)
         == if va <= x < va + size then ByteOf(value, x - va) else VirtualByte(pages, mem, x)
  {
    hide ByteOf, SpaceOk;
    AlignedWithinFrame(pages, va, size, 0);
    var pa := Physical(pages, va);
    hide Physical;
    if va <= x < va + size {
      AlignedWithinFrame(pages, va, size, x - va);
    } else if pa <= Physical(pages, x) < pa + size {
      var k := Physical(pages, x) - pa;
      AlignedWithinFrame(pages, va, size, k);
      DistinctBytes(pages, pages, x, va + k);
    }
  }

  /** ... and no byte of any other space. */
  lemma WriteIsIsolated(p: PageTable, q: PageTable, mem: Memory, va: Word, size: int, value: Word, y: int)
    requires SpaceOk(p) && SpaceOk(q) && Frames(p) !! Frames(q) && IsMapped(q, y)
    requires size in {1, 2, 4} && AccessFault(p, va, size, true).None?
    ensures WriteMem(p, mem, va, size, value).Stored?
    ensures VirtualByte(q, WriteMem(p, mem, va, size, value).mem, y) == VirtualByte(q, mem, y)
  {
    hide ByteOf;
    AlignedWithinFrame(p, va, size, 0);
    var pa := Physical(p, va);
    if pa <= Physical(q, y) < pa + size {
      var k := Physical(q, y) - pa;
      AlignedWithinFrame(p, va, size, k);
      DistinctBytes(p, q, va + k, y);
    }
  }

  /** In every run, an event of one process changes no byte that another live process can see. */
  lemma ProcessesIsolated(states: seq<World>, events: seq<Event>, i: nat, other: int, y: int)
    requires IsRun(states, events) && i < |events|
    requires other != events[i].id && other in states[i].spaces && IsMapped(states[i].spaces[other], y)
    ensures var w, w' := states[i], states[i + 1];
            other in w'.spaces && w'.spaces[other] == w.spaces[other] &&
            VirtualByte(w'.spaces[other], w'.mem, y) == VirtualByte(w.spaces[other], w.mem, y)
  {
    RunKeeps(states, events, i);
    var w, w', e := states[i], states[i + 1], events[i];
    assert Next(w, e, w');
    var q := w.spaces[other];
    match e
    case Load(id, pages, image) =>
      var f := q[y / PAGE_SIZE].physicalPage;
      assert f in Frames(q) && f in AllFrames(w.spaces);
      assert FrameBytes(w'.mem, f)[y % PAGE_SIZE] == FrameBytes(w.mem, f)[y % PAGE_SIZE];
    case Write(id, va, size, value) =>
      if AccessFault(w.spaces[id], va, size, true).None? {
        WriteIsIsolated(w.spaces[id], q, w.mem, va, size, value, y);
      }
    case _ =>
  }

  // ---- each process has a memory of its own ----

  /** An access of this size at this address is aligned and inside a memory of this length. */
  predicate Inside(length: nat, va: int, size: int)
    requires size > 0
  { 0 <= va && va % size == 0 && va + size <= length }

  function NewByte(m: seq<Byte>, va: int, size: int, value: Word, x: nat): Byte
    requires size <= 4 && x < |m|
  { if va <= x < va + size then ByteOf(value, x - va) else m[x] }

  function Overwritten(m: seq<Byte>, va: int, size: int, value: Word): (r: seq<Byte>)
    requires 0 < size <= 4 && Inside(|m|, va, size)
    ensures |r| == |m|
    ensures forall x :: 0 <= x < |m| ==> r[x] == if va <= x < va + size then ByteOf(value, x - va) else m[x]
  {
    seq(|m|, x requires 0 <= x < |m| => NewByte(m, va, size, value, x))
  }

  /** The memory of process `id` after the first `i` events, told from the events alone; none while it is not loaded. */
  function MemoryOf(events: seq<Event>, id: int, i: nat): Option<seq<Byte>>
    requires i <= |events|
  {
    if i == 0 then None
    else
      var before := MemoryOf(events, id, i - 1);
      match events[i - 1]
      case Load(a, _, image) => if a == id then Some(image) else before
      case Destroy(a) => if a == id then None else before
      case Read(_, _, _) => before
      case Write(a, va, size, value) =>
        if a == id && before.Some? && 0 < size <= 4 && Inside(|before.value|, va, size)
        then Some(Overwritten(before.value, va, size, value)) else before
  }

  /** Through its page table a process sees these bytes, from address zero on. */
  predicate Sees(pages: PageTable, mem: Memory, m: seq<Byte>) {
    && |m| == |pages| * PAGE_SIZE
    && forall x :: 0 <= x < |m| ==> IsMapped(pages, x) && VirtualByte(pages, mem, x) == m[x]
  }

  /** In a loaded space, the only accesses that fault are the misaligned ones and those past its end. */
  lemma OnlyOutside(pages: PageTable, va: Word, size: int, writing: bool)
    requires SpaceOk(pages) && size in {1, 2, 4}
    ensures AccessFault(pages, va, size, writing).None? <==> Inside(|pages| * PAGE_SIZE, va, size)
  {
    if va % size == 0 && va / PAGE_SIZE < |pages| { AlignedOffset(va, size); }
  }

  lemma LoadSees(w: World, w': World, id: int, pages: PageTable, image: seq<Byte>)
    requires Next(w, Load(id, pages, image), w')
    ensures id in w'.spaces && Sees(w'.spaces[id], w'.mem, image)
  {
    forall x | 0 <= x < |image|
      ensures IsMapped(pages, x) && VirtualByte(pages, w'.mem, x) == image[x]
    {
      SeesImage(w'.mem, pages, image, x);
    }
  }

  lemma WriteSees(w: World, w': World, id: int, va: Word, size: int, value: Word, m: seq<Byte>)
    requires Inv(w) && Next(w, Write(id, va, size, value), w') && Sees(w.spaces[id], w.mem, m)
    ensures id in w'.spaces
    ensures Sees(w'.spaces[id], w'.mem, if Inside(|m|, va, size) then Overwritten(m, va, size, value) else m)
  {
    var pages := w.spaces[id];
    OnlyOutside(pages, va, size, true);
    hide Frames, SpaceOk, Physical;
    if Inside(|m|, va, size) {
      AlignedWithinFrame(pages, va, size, 0);
      TouchKeeps(pages, va, true);
      forall x | 0 <= x < |m|
        ensures IsMapped(w'.spaces[id], x)
        ensures VirtualByte(w'.spaces[id], w'.mem, x) == Overwritten(m, va, size, value)[x]
      {
        WriteIsFlat(pages, w.mem, va, size, value, x);
      }
    }
  }

  lemma ReadSees(w: World, w': World, id: int, va: Word, size: int, m: seq<Byte>)
    requires Inv(w) && Next(w, Read(id, va, size), w') && Sees(w.spaces[id], w.mem, m)
    ensures id in w'.spaces && Sees(w'.spaces[id], w'.mem, m)
  {
    var pages := w.spaces[id];
    OnlyOutside(pages, va, size, false);
    hide Frames, SpaceOk, Physical;
    if AccessFault(pages, va, size, false).None? {
      AlignedWithinFrame(pages, va, size, 0);
      TouchKeeps(pages, va, false);
    }
  }

  /**
   On every run: a process is loaded exactly when it has a memory, and sees that memory, byte for byte: what it was
   loaded with, and what it has itself stored since, whatever other processes were doing.
   */
  lemma {:induction false} FlatMemory(states: seq<World>, events: seq<Event>, i: nat, id: int)
    requires IsRun(states, events) && i < |states|
    ensures id in states[i].spaces <==> MemoryOf(events, id, i).Some?
    ensures id in states[i].spaces ==> Sees(states[i].spaces[id], states[i].mem, MemoryOf(events, id, i).value)
  {
    hide Inv, Sees, Inside;
    if i > 0 {
      FlatMemory(states, events, i - 1, id);
      RunKeeps(states, events, i - 1);
      assert Next(states[i - 1], events[i - 1], states[i]);
      if events[i - 1].id == id {
        OwnEvent(states[i - 1], events[i - 1], states[i], MemoryOf(events, id, i - 1));
      } else {
        OthersEvent(states, events, i, id, MemoryOf(events, id, i - 1));
      }
    }
  }

  lemma OwnEvent(w: World, e: Event, w': World, m: Option<seq<Byte>>)
    requires Inv(w) && Next(w, e, w') && (e.id in w.spaces <==> m.Some?)
    requires m.Some? ==> Sees(w.spaces[e.id], w.mem, m.value)
    ensures e.id in w'.spaces <==> !e.Destroy?
    ensures match e
            case Load(id, _, image) => Sees(w'.spaces[id], w'.mem, image)
            case Destroy(_) => true
            case Read(id, _, _) => m.Some? && Sees(w'.spaces[id], w'.mem, m.value)
            case Write(id, va, size, value) =>
              && m.Some? && 0 < size <= 4
              && Sees(w'.spaces[id], w'.mem,
                      if Inside(|m.value|, va, size) then Overwritten(m.value, va, size, value) else m.value)
  {
    hide Inv, Sees, Inside;
    match e
    case Load(id, pages, image) => LoadSees(w, w', id, pages, image);
    case Destroy(_) =>
    case Read(id, va, size) => ReadSees(w, w', id, va, size, m.value);
    case Write(id, va, size, value) => WriteSees(w, w', id, va, size, value, m.value);
  }

  lemma OthersEvent(states: seq<World>, events: seq<Event>, i: nat, id: int, m: Option<seq<Byte>>)
    requires IsRun(states, events) && 0 < i < |states| && events[i - 1].id != id
    requires id in states[i - 1].spaces <==> m.Some?
    requires m.Some? ==> Sees(states[i - 1].spaces[id], states[i - 1].mem, m.value)
    ensures id in states[i].spaces <==> m.Some?
    ensures m.Some? ==> Sees(states[i].spaces[id], states[i].mem, m.value)
  {
    var w, w' := states[i - 1], states[i];
    assert Next(w, events[i - 1], w');
    if m.Some? {
      forall x | 0 <= x < |m.value|
        ensures id in w'.spaces && w'.spaces[id] == w.spaces[id]
        ensures VirtualByte(w'.spaces[id], w'.mem, x) == m.value[x]
      {
        ProcessesIsolated(states, events, i - 1, id, x);
      }
      OtherSpace(w, events[i - 1], w', id);
    }
  }

  lemma OtherSpace(w: World, e: Event, w': World, id: int)
    requires Next(w, e, w') && e.id != id
    ensures id in w'.spaces <==> id in w.spaces
    ensures id in w.spaces ==> w'.spaces[id] == w.spaces[id]
  {
    hide Claimed, Holds, SameOutside, Frames;
  }

  /**
   So what a process reads is the little-endian value of its own bytes, and it faults exactly when it reads
   outside.
   */
  lemma ReadsOwn(states: seq<World>, events: seq<Event>, i: nat)
    requires IsRun(states, events) && i < |events| && events[i].Read?
    ensures var id, va, size := events[i].id, events[i].va, events[i].size;
            && id in states[i].spaces && MemoryOf(events, id, i).Some? && size in {1, 2, 4}
            && var m := MemoryOf(events, id, i).value;
               match ReadMem(states[i].spaces[id], states[i].mem, va, size)
               case LoadFault(_) => !Inside(|m|, va, size)
               case Loaded(v) =>
                 && Inside(|m|, va, size)
                 && v == if size == 1 then if m[va] < 128 then m[va] as int else m[va] as int + 0xffff_ff00
                         else if size == 2 then m[va] as int + 256 * (m[va + 1] as int)
                         else m[va] as int + 256 * (m[va + 1] as int) + 65536 * (m[va + 2] as int)
                              + 16777216 * (m[va + 3] as int)
  {
    FlatMemory(states, events, i, events[i].id);
    RunKeeps(states, events, i);
    assert Next(states[i], events[i], states[i + 1]);
    var pages, va, size := states[i].spaces[events[i].id], events[i].va, events[i].size;
    OnlyOutside(pages, va, size, false);
    hide Frames, SpaceOk, Inv, IsRun;
    if AccessFault(pages, va, size, false).None? { ReadIsFlat(pages, states[i].mem, va, size); }
  }
}
