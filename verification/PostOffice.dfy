/**
 The post office (network/post.cc) over an unreliable network device (machine/network.cc): any number of
 threads on any number of machines send to the mailboxes of one machine, whose postal worker delivers.
 One step is one section of code without a preemption point.  Locks, semaphores and the mailboxes' synchronized
 lists are assumed to act atomically.
 */
module PostOffice {
  import opened Words
  import FileFormats
  import opened Options

  const MAX_PACKET_SIZE: int := 52
  const MAX_MAIL_SIZE: int := 40
  const MAX_WIRE_SIZE: int := 64
  const HEADER_SIZE: int := 12

  // ---- messages as bytes ----

  datatype Message = Message(to: int, from: int, toBox: int, fromBox: int, data: seq<Byte>)

  /** What `Send` asserts, and the widths of the fields. */
  predicate IsMessage(m: Message) {
    && IsInt32(m.to) && IsInt32(m.from) && IsInt32(m.toBox) && IsInt32(m.fromBox)
    && 0 <= m.toBox && |m.data| <= MAX_MAIL_SIZE
  }

  /** A packet or mail header: destination, source, length. */
  datatype Header = Header(to: int, from: int, length: Word)

  function HeaderBytes(h: Header): (bs: seq<Byte>)
    ensures |bs| == HEADER_SIZE
  { FileFormats.WordsToBytes([Wrap(h.to), Wrap(h.from), h.length]) }

  function HeaderOf(bs: seq<Byte>): Header
    requires |bs| == HEADER_SIZE
  {
    var ws := FileFormats.BytesToWords(bs);
    Header(Signed(ws[0]), Signed(ws[1]), ws[2])
  }

  lemma HeaderBack(h: Header)
    requires IsInt32(h.to) && IsInt32(h.from)
    ensures HeaderOf(HeaderBytes(h)) == h
  {
    hide FileFormats.WordsToBytes, FileFormats.BytesToWords;
    FileFormats.WordsRoundTrip([Wrap(h.to), Wrap(h.from), h.length]);
  }

  function PacketHeader(m: Message): Header
    requires IsMessage(m)
  { Header(m.to, m.from, HEADER_SIZE + |m.data|) }

  /** Mail header and data: what the network sees as the data of a packet. */
  function Payload(m: Message): (bs: seq<Byte>)
    requires IsMessage(m)
    ensures |bs| == HEADER_SIZE + |m.data| <= MAX_PACKET_SIZE
  { HeaderBytes(Header(m.toBox, m.fromBox, |m.data|)) + m.data }

  /** Packets are padded to full size with whatever the buffer held. */
  function Wire(m: Message, junk: seq<Byte>): (bs: seq<Byte>)
    requires IsMessage(m) && |junk| == MAX_PACKET_SIZE
    ensures |bs| == MAX_WIRE_SIZE
  { HeaderBytes(PacketHeader(m)) + Payload(m) + junk[|Payload(m)|..] }

  /** Copy the first bytes of one buffer over another. */
  function Overwrite(buffer: seq<Byte>, bytes: seq<Byte>): (r: seq<Byte>)
    requires |bytes| <= |buffer|
    ensures |r| == |buffer|
  { bytes + buffer[|bytes|..] }

  /** What the worker makes of a buffer, if its assertions hold. */
  function Unpack(h: Header, buffer: seq<Byte>, numBoxes: nat): Option<Message>
    requires |buffer| == MAX_PACKET_SIZE
  {
    var mail := HeaderOf(buffer[..HEADER_SIZE]);
    if 0 <= mail.to < numBoxes && mail.length <= MAX_MAIL_SIZE
    then Some(Message(h.to, h.from, mail.to, mail.from, buffer[HEADER_SIZE..HEADER_SIZE + mail.length]))
    else None
  }

  /** A buffer that holds a message's bytes, whatever follows them. */
  predicate Carries(h: Header, buffer: seq<Byte>, m: Message) {
    && |buffer| == MAX_PACKET_SIZE && IsMessage(m) && h == PacketHeader(m) && buffer[..|Payload(m)|] == Payload(m)
  }

  /**
   However stale the buffers on the way, a packet unpacks to the message sent, or to nothing if its box does
   not exist.
   */
  lemma UnpackCarried(h: Header, buffer: seq<Byte>, m: Message, numBoxes: nat)
    requires Carries(h, buffer, m)
    ensures Unpack(h, buffer, numBoxes) == if m.toBox < numBoxes then Some(m) else None
  {
    hide HeaderBytes, HeaderOf;
    var p, mail := Payload(m), Header(m.toBox, m.fromBox, |m.data|);
    HeaderBack(mail);
    assert buffer[..HEADER_SIZE] == p[..HEADER_SIZE] == HeaderBytes(mail);
    assert buffer[HEADER_SIZE..HEADER_SIZE + |m.data|] == p[HEADER_SIZE..] == m.data;
  }

  // ---- the system ----

  /** A packet in the socket; `index` is its place among the packets sent to this machine. */
  datatype Packet = Packet(bytes: seq<Byte>, index: nat)

  datatype Mail = Mail(message: Message, index: nat)

  datatype Sender = Resting | Locking(m: Message) | Sending(m: Message) | Awaiting | Releasing

  /** The output side of one machine: its send lock, its semaphore and its pending send interrupts. */
  datatype Output = Output(holder: Option<int>, messageSent: nat, interrupts: nat)

  datatype Worker = Waiting | Receiving | Holding(h: Header, index: nat)

  datatype State = State(
    home: map<int, int>, senders: map<int, Sender>, outputs: map<int, Output>,
    host: int, socket: seq<Packet>,
    inHdr: Header, inbox: seq<Byte>, inIndex: nat,
    messageAvailable: nat, worker: Worker, buffer: seq<Byte>, halted: bool,
    boxes: seq<seq<Mail>>, received: seq<seq<Mail>>,
    sent: seq<Message>, lost: set<nat>)

  datatype Event =
    | Send(t: int, m: Message)
    | Acquire(t: int)
    | Transmit(t: int, dropped: bool, junk: seq<Byte>)
    | AwaitSent(t: int)
    | Release(t: int)
    | SendInterrupt(machine: int)
    | Poll
    | WorkerP
    | WorkerReceive
    | WorkerPut
    | Receive(box: int)

  /** The thread is known and its machine has an output side. */
  predicate IsThread(s: State, t: int) { t in s.senders && t in s.home && s.home[t] in s.outputs }

  function OutputOf(s: State, t: int): Output
    requires IsThread(s, t)
  { s.outputs[s.home[t]] }

  predicate Enabled(s: State, e: Event) {
    match e
    case Send(t, m) => IsThread(s, t) && s.senders[t] == Resting && IsMessage(m) && m.from == s.home[t]
    case Acquire(t) => IsThread(s, t) && s.senders[t].Locking? && OutputOf(s, t).holder == None
    case Transmit(t, _, junk) => IsThread(s, t) && s.senders[t].Sending? && |junk| == MAX_PACKET_SIZE
      && IsMessage(s.senders[t].m)
    case AwaitSent(t) => IsThread(s, t) && s.senders[t] == Awaiting && OutputOf(s, t).messageSent > 0
    case Release(t) => IsThread(s, t) && s.senders[t] == Releasing
    case SendInterrupt(machine) => machine in s.outputs && s.outputs[machine].interrupts > 0
    case Poll => !s.halted && |s.inbox| == MAX_PACKET_SIZE && (s.socket != [] ==> Arrives(s, s.socket[0]))
    case WorkerP => !s.halted && s.worker == Waiting && s.messageAvailable > 0
    case WorkerReceive => !s.halted && s.worker == Receiving && |s.inbox| == |s.buffer| == MAX_PACKET_SIZE
      && s.inHdr.length <= MAX_PACKET_SIZE
    case WorkerPut => !s.halted && s.worker.Holding? && |s.buffer| == MAX_PACKET_SIZE
    case Receive(box) => !s.halted && 0 <= box < |s.boxes| == |s.received| && s.boxes[box] != []
  }

  /** What `NetworkInput::CallBack` asserts of a packet. */
  predicate Arrives(s: State, p: Packet) {
    |p.bytes| == MAX_WIRE_SIZE && HeaderOf(p.bytes[..HEADER_SIZE]).length <= MAX_PACKET_SIZE
      && HeaderOf(p.bytes[..HEADER_SIZE]).to == s.host
  }

  function Transmitted(s: State, t: int, dropped: bool, junk: seq<Byte>): State
    requires IsThread(s, t) && s.senders[t].Sending? && |junk| == MAX_PACKET_SIZE && IsMessage(s.senders[t].m)
  {
    var m := s.senders[t].m;
    var o := OutputOf(s, t);
    var s1 :=
      s.(senders := s.senders[t := Awaiting], outputs := s.outputs[s.home[t] := o.(interrupts := o.interrupts + 1)]);
    if m.to != s.host then s1
    else if dropped then s1.(sent := s.sent + [m], lost := s.lost + {|s.sent|})
    else s1.(sent := s.sent + [m], socket := s.socket + [Packet(Wire(m, junk), |s.sent|)])
  }

  /** Take a packet from the socket unless one is already buffered, and signal the worker. */
  function Polled(s: State): State
    requires Enabled(s, Poll)
  {
    if s.inHdr.length != 0 || s.socket == [] then s
    else
      var h := HeaderOf(s.socket[0].bytes[..HEADER_SIZE]);
      s.(inHdr := h, inbox := Overwrite(s.inbox, s.socket[0].bytes[HEADER_SIZE..HEADER_SIZE + h.length]),
        inIndex := s.socket[0].index,
        socket := s.socket[1..], messageAvailable := s.messageAvailable + 1)
  }

  function Do(s: State, e: Event): State
    requires Enabled(s, e)
  {
    match e
    case Send(t, m) => s.(senders := s.senders[t := Locking(m)])
    case Acquire(t) =>
      s.(senders := s.senders[t := Sending(s.senders[t].m)],
        outputs := s.outputs[s.home[t] := OutputOf(s, t).(holder := Some(t))])
    case Transmit(t, dropped, junk) => Transmitted(s, t, dropped, junk)
    case AwaitSent(t) =>
      s.(senders := s.senders[t := Releasing],
        outputs := s.outputs[s.home[t] := OutputOf(s, t).(messageSent := OutputOf(s, t).messageSent - 1)])
    case Release(t) => s.(senders := s.senders[t := Resting],
      outputs := s.outputs[s.home[t] := OutputOf(s, t).(holder := None)])
    case SendInterrupt(machine) =>
      var o := s.outputs[machine];
      s.(outputs := s.outputs[machine := Output(o.holder, o.messageSent + 1, o.interrupts - 1)])
    case Poll => Polled(s)
    case WorkerP => s.(worker := Receiving, messageAvailable := s.messageAvailable - 1)
    case WorkerReceive =>
      s.(worker := Holding(s.inHdr, s.inIndex), buffer := Overwrite(s.buffer, s.inbox[..s.inHdr.length]),
        inHdr := s.inHdr.(length := 0))
    case WorkerPut =>
      (match Unpack(s.worker.h, s.buffer, |s.boxes|)
       case None => s.(halted := true)
       case Some(m) => s.(worker := Waiting, boxes := s.boxes[m.toBox := s.boxes[m.toBox] + [Mail(m, s.worker.index)]]))
    case Receive(box) =>
      s.(boxes := s.boxes[box := s.boxes[box][1..]], received := s.received[box := s.received[box] + [s.boxes[box][0]]])
  }

  predicate Init(s: State) {
    && (forall t :: t in s.senders ==> s.senders[t] == Resting && IsThread(s, t))
    && (forall m :: m in s.outputs ==> s.outputs[m] == Output(None, 0, 0))
    && s.socket == [] && s.inHdr.length == 0 && |s.inbox| == MAX_PACKET_SIZE && |s.buffer| == MAX_PACKET_SIZE
    && s.messageAvailable == 0 && s.worker == Waiting && !s.halted
    && |s.received| == |s.boxes| && (forall b :: 0 <= b < |s.boxes| ==> s.boxes[b] == [] && s.received[b] == [])
    && s.sent == [] && s.lost == {}
  }

  // ---- the send side: one packet at a time ----

  predicate Busy(x: Sender) { x.Sending? || x.Awaiting? || x.Releasing? }

  /** The lock's holder is the one thread of its machine at the network, and awaits its own interrupt. */
  predicate OutputOk(s: State, machine: int)
    requires machine in s.outputs
  {
    var o := s.outputs[machine];
    match o.holder
    case None => o.messageSent == 0 && o.interrupts == 0
    case Some(t) =>
      && IsThread(s, t) && s.home[t] == machine && Busy(s.senders[t])
      && o.messageSent + o.interrupts == if s.senders[t] == Awaiting then 1 else 0
  }

  predicate SenderOk(s: State, t: int)
    requires t in s.senders
  {
    && IsThread(s, t)
    && (Busy(s.senders[t]) ==> OutputOf(s, t).holder == Some(t))
    && (s.senders[t].Locking? || s.senders[t].Sending? ==>
          IsMessage(s.senders[t].m) && s.senders[t].m.from == s.home[t])
  }

  ghost predicate SendInv(s: State) {
    && (forall machine :: machine in s.outputs ==> OutputOk(s, machine))
    && (forall t :: t in s.senders ==> SenderOk(s, t))
  }

  /** One thread at the head of its machine's output moves on. */
  lemma HolderMoves(s: State, s': State, t: int, x: Sender, o: Output)
    requires SendInv(s) && IsThread(s, t) && OutputOf(s, t).holder in {None, Some(t)}
    requires s'.home == s.home && s'.senders == s.senders[t := x] && s'.outputs == s.outputs[s.home[t] := o]
    requires o.holder == if Busy(x) then Some(t) else None
    requires o.messageSent + o.interrupts == if x == Awaiting then 1 else 0
    requires x.Locking? || x.Sending? ==> IsMessage(x.m) && x.m.from == s.home[t]
    ensures SendInv(s')
  {
    hide IsMessage;
    forall u | u in s'.senders
      ensures SenderOk(s', u)
    {
      assert SenderOk(s, u);
    }
    forall m | m in s'.outputs
      ensures OutputOk(s', m)
    {
      if m != s.home[t] { assert OutputOk(s, m); }
    }
  }

  lemma SenderStarts(s: State, s': State, t: int, x: Sender)
    requires SendInv(s) && t in s.senders && !Busy(s.senders[t]) && !Busy(x)
    requires s'.home == s.home && s'.outputs == s.outputs && s'.senders == s.senders[t := x]
    requires x.Locking? ==> IsMessage(x.m) && x.m.from == s.home[t]
    ensures SendInv(s')
  {
    hide IsMessage;
    forall u | u in s'.senders
      ensures SenderOk(s', u)
    {
      assert SenderOk(s, u);
    }
    assert forall m :: m in s'.outputs ==> OutputOk(s, m);
  }

  lemma InterruptKeeps(s: State, s': State, machine: int)
    requires SendInv(s) && machine in s.outputs && s.outputs[machine].interrupts > 0
    requires var o := s.outputs[machine];
             s'.outputs == s.outputs[machine := Output(o.holder, o.messageSent + 1, o.interrupts - 1)]
    requires s'.home == s.home && s'.senders == s.senders
    ensures SendInv(s')
  {
    hide IsMessage;
    assert OutputOk(s, machine);
    forall u | u in s'.senders
      ensures SenderOk(s', u)
    {
      assert SenderOk(s, u);
    }
    forall m | m in s'.outputs
      ensures OutputOk(s', m)
    {
      assert OutputOk(s, m);
    }
  }

  lemma SameSenders(s: State, s': State)
    requires SendInv(s) && s'.home == s.home && s'.senders == s.senders && s'.outputs == s.outputs
    ensures SendInv(s')
  {
    hide IsMessage;
    assert forall t :: t in s'.senders ==> SenderOk(s, t);
    assert forall m :: m in s'.outputs ==> OutputOk(s, m);
  }

  lemma HolderStep(s: State, e: Event)
    requires SendInv(s) && Enabled(s, e) && (e.Acquire? || e.Transmit? || e.AwaitSent? || e.Release?)
    ensures SendInv(Do(s, e))
  {
    hide IsMessage, Wire;
    var s' := Do(s, e);
    assert SenderOk(s, e.t) && OutputOk(s, s.home[e.t]);
    hide SendInv;
    HolderMoves(s, s', e.t, s'.senders[e.t], s'.outputs[s.home[e.t]]);
  }

  lemma SendKeeps(s: State, e: Event)
    requires SendInv(s) && Enabled(s, e)
    ensures SendInv(Do(s, e))
  {
    hide IsMessage, Wire, Unpack, HeaderOf, Overwrite, Transmitted;
    match e
    case Send(t, m) =>
      assert SenderOk(s, t);
      hide SendInv;
      SenderStarts(s, Do(s, e), t, Locking(m));
    case SendInterrupt(machine) =>
      hide SendInv;
      InterruptKeeps(s, Do(s, e), machine);
    case Acquire(_) => HolderStep(s, e);
    case Transmit(_, _, _) => HolderStep(s, e);
    case AwaitSent(_) => HolderStep(s, e);
    case Release(_) => HolderStep(s, e);
    case _ =>
      hide SendInv;
      SameSenders(s, Do(s, e));
  }

  // ---- what is on its way and what has arrived ----

  function PacketIndices(ps: seq<Packet>): (r: seq<nat>)
    ensures |r| == |ps| && forall i :: 0 <= i < |r| ==> r[i] == ps[i].index
  { seq(|ps|, i requires 0 <= i < |ps| => ps[i].index) }

  /**
   The packets between the network and the mailboxes, oldest first: in the worker's hands, in the device, in
   the socket.
   */
  function InFlight(s: State): seq<nat> {
    (if s.worker.Holding? then [s.worker.index] else [])
    + (if s.inHdr.length != 0 then [s.inIndex] else [])
    + PacketIndices(s.socket)
  }

  /** Everything that ever reached a box: the messages taken from it, then those still in it. */
  function Trail(s: State, b: int): seq<Mail>
    requires 0 <= b < |s.boxes| == |s.received|
  { s.received[b] + s.boxes[b] }

  function Trails(s: State): (r: seq<seq<Mail>>)
    requires |s.boxes| == |s.received|
    ensures |r| == |s.boxes| && forall b :: 0 <= b < |r| ==> r[b] == Trail(s, b)
  { seq(|s.boxes|, b requires 0 <= b < |s.boxes| => Trail(s, b)) }

  predicate Increasing(s: seq<nat>) { forall i, j :: 0 <= i < j < |s| ==> s[i] < s[j] }

  /** One box's history: the very messages sent to it, in the order they were sent, before anything still in flight. */
  predicate TrailOk(trail: seq<Mail>, b: int, flight: seq<nat>, sent: seq<Message>) {
    && (forall i :: 0 <= i < |trail| ==>
          trail[i].index < |sent| && trail[i].message == sent[trail[i].index] && trail[i].message.toBox == b)
    && (forall i, j :: 0 <= i < j < |trail| ==> trail[i].index < trail[j].index)
    && (forall i, j :: 0 <= i < |trail| && 0 <= j < |flight| ==> trail[i].index < flight[j])
  }

  predicate InTrail(trail: seq<Mail>, index: nat) { exists i :: 0 <= i < |trail| && trail[i].index == index }

  /** Where a message can be: dropped by the network, on its way, or in some box's history. */
  predicate Arrived(trails: seq<seq<Mail>>, index: nat) { exists b :: 0 <= b < |trails| && InTrail(trails[b], index) }

  predicate Ordered(flight: seq<nat>, trails: seq<seq<Mail>>, sent: seq<Message>, lost: set<nat>) {
    && Increasing(flight) && (forall i :: 0 <= i < |flight| ==> flight[i] < |sent|)
    && (forall b :: 0 <= b < |trails| ==> TrailOk(trails[b], b, flight, sent))
    && (forall n :: n in lost ==> n < |sent| && n !in flight && !Arrived(trails, n))
    && (forall n :: 0 <= n < |sent| ==> n in lost || n in flight || Arrived(trails, n))
  }

  lemma OrderedSend(flight: seq<nat>, trails: seq<seq<Mail>>, sent: seq<Message>, lost: set<nat>, m: Message)
    requires Ordered(flight, trails, sent, lost)
    ensures Ordered(flight + [|sent|], trails, sent + [m], lost)
  {
    forall b | 0 <= b < |trails|
      ensures TrailOk(trails[b], b, flight + [|sent|], sent + [m])
    {
      assert TrailOk(trails[b], b, flight, sent);
    }
  }

  lemma OrderedDrop(flight: seq<nat>, trails: seq<seq<Mail>>, sent: seq<Message>, lost: set<nat>, m: Message)
    requires Ordered(flight, trails, sent, lost)
    ensures Ordered(flight, trails, sent + [m], lost + {|sent|})
  {
    forall b | 0 <= b < |trails|
      ensures TrailOk(trails[b], b, flight, sent + [m]) && !InTrail(trails[b], |sent|)
    {
      assert TrailOk(trails[b], b, flight, sent);
    }
  }

  lemma OrderedDeliver(flight: seq<nat>, trails: seq<seq<Mail>>, sent: seq<Message>, lost: set<nat>, b: nat)
    requires Ordered(flight, trails, sent, lost) && flight != [] && b < |trails| && sent[flight[0]].toBox == b
    ensures Ordered(flight[1..], trails[b := trails[b] + [Mail(sent[flight[0]], flight[0])]], sent, lost)
  {
    var n := flight[0];
    var trails' := trails[b := trails[b] + [Mail(sent[n], n)]];
    assert InTrail(trails'[b], n) by { assert trails'[b][|trails[b]|].index == n; }
    assert Arrived(trails', n);
    forall k: nat
      ensures Arrived(trails', k) <==> Arrived(trails, k) || k == n
    {
      ArrivedMore(trails, b, Mail(sent[n], n), k);
    }
    hide Arrived, InTrail;
    forall c | 0 <= c < |trails'|
      ensures TrailOk(trails'[c], c, flight[1..], sent)
    {
      TrailDelivered(trails[c], c, flight, sent);
    }
    hide TrailOk;
    assert flight == [n] + flight[1..];
  }

  lemma TrailDelivered(trail: seq<Mail>, b: int, flight: seq<nat>, sent: seq<Message>)
    requires TrailOk(trail, b, flight, sent) && Increasing(flight) && flight != [] && flight[0] < |sent|
    ensures TrailOk(trail, b, flight[1..], sent)
    ensures sent[flight[0]].toBox == b ==> TrailOk(trail + [Mail(sent[flight[0]], flight[0])], b, flight[1..], sent)
  {
  }

  lemma ArrivedMore(trails: seq<seq<Mail>>, b: nat, mail: Mail, k: nat)
    requires b < |trails|
    ensures Arrived(trails[b := trails[b] + [mail]], k) <==> Arrived(trails, k) || k == mail.index
  {
    var trails' := trails[b := trails[b] + [mail]];
    assert trails'[b][|trails[b]|] == mail;
    if Arrived(trails, k) {
      var c :| 0 <= c < |trails| && InTrail(trails[c], k);
      var i :| 0 <= i < |trails[c]| && trails[c][i].index == k;
      assert trails'[c][i].index == k;
      assert InTrail(trails'[c], k);
    }
    if k == mail.index {
      assert InTrail(trails'[b], k);
    }
    if Arrived(trails', k) && k != mail.index {
      var c :| 0 <= c < |trails'| && InTrail(trails'[c], k);
      var i :| 0 <= i < |trails'[c]| && trails'[c][i].index == k;
      assert trails[c][i].index == k;
      assert InTrail(trails[c], k);
    }
  }

  // ---- the receive side ----

  predicate OnWire(bytes: seq<Byte>, m: Message) {
    && |bytes| == MAX_WIRE_SIZE && IsMessage(m) && bytes[..HEADER_SIZE] == HeaderBytes(PacketHeader(m))
    && bytes[HEADER_SIZE..HEADER_SIZE + |Payload(m)|] == Payload(m)
  }

  /** Each place on the way holds the bytes of the message it stands for. */
  ghost predicate CarryInv(s: State) {
    && |s.inbox| == |s.buffer| == MAX_PACKET_SIZE && |s.boxes| == |s.received|
    && (forall n :: 0 <= n < |s.sent| ==> IsMessage(s.sent[n]) && s.sent[n].to == s.host)
    && (forall k :: 0 <= k < |s.socket| ==>
          s.socket[k].index < |s.sent| && OnWire(s.socket[k].bytes, s.sent[s.socket[k].index]))
    && (s.inHdr.length != 0 ==> s.inIndex < |s.sent| && Carries(s.inHdr, s.inbox, s.sent[s.inIndex]))
    && (s.worker.Holding? ==> s.worker.index < |s.sent| && Carries(s.worker.h, s.buffer, s.sent[s.worker.index]))
  }

  /** The semaphore's tokens, with the one the worker has taken, match the one-packet buffer. */
  predicate TokenInv(s: State) {
    s.messageAvailable + (if s.worker == Receiving then 1 else 0) == if s.inHdr.length != 0 then 1 else 0
  }

  ghost predicate Inv(s: State) {
    SendInv(s) && CarryInv(s) && TokenInv(s) && Ordered(InFlight(s), Trails(s), s.sent, s.lost)
  }

  lemma WireIsOnWire(m: Message, junk: seq<Byte>)
    requires IsMessage(m) && |junk| == MAX_PACKET_SIZE
    ensures OnWire(Wire(m, junk), m)
  {
    hide HeaderBytes;
    var p := Payload(m);
    hide Payload;
    var w := Wire(m, junk);
    assert w[..HEADER_SIZE] == HeaderBytes(PacketHeader(m));
    assert w[HEADER_SIZE..HEADER_SIZE + |p|] == p;
  }

  lemma WireIsCarried(bytes: seq<Byte>, m: Message, inbox: seq<Byte>)
    requires OnWire(bytes, m) && |inbox| == MAX_PACKET_SIZE
    ensures HeaderOf(bytes[..HEADER_SIZE]) == PacketHeader(m) && |Payload(m)| == PacketHeader(m).length
    ensures |bytes| == MAX_WIRE_SIZE && 0 < PacketHeader(m).length <= MAX_PACKET_SIZE
    ensures Carries(PacketHeader(m), Overwrite(inbox, bytes[HEADER_SIZE..HEADER_SIZE + PacketHeader(m).length]), m)
  {
    hide HeaderBytes, HeaderOf;
    HeaderBack(PacketHeader(m));
    var p := Payload(m);
    assert Overwrite(inbox, p)[..|p|] == p;
  }

  lemma CopyCarries(h: Header, inbox: seq<Byte>, buffer: seq<Byte>, m: Message)
    requires Carries(h, inbox, m) && |buffer| == MAX_PACKET_SIZE
    ensures HEADER_SIZE <= h.length <= MAX_PACKET_SIZE && Carries(h, Overwrite(buffer, inbox[..h.length]), m)
  {
    hide HeaderBytes;
    var p := Payload(m);
    assert Overwrite(buffer, p)[..|p|] == p;
  }

  /** The assertions of the interrupt handler and of the worker's receive hold in every state the invariant allows. */
  lemma ReceiveSideSafe(s: State)
    requires Inv(s) && !s.halted
    ensures Enabled(s, Poll)
    ensures s.worker == Receiving ==> s.inHdr.length != 0 && Enabled(s, WorkerReceive)
    ensures s.worker.Holding? ==> Enabled(s, WorkerPut)
  {
    hide SendInv, Ordered, HeaderOf, HeaderBytes, Payload, IsMessage, Carries, OnWire;
    if s.socket != [] {
      WireIsCarried(s.socket[0].bytes, s.sent[s.socket[0].index], s.inbox);
    }
    if s.inHdr.length != 0 {
      CopyCarries(s.inHdr, s.inbox, s.buffer, s.sent[s.inIndex]);
    }
  }

  lemma PollKeeps(s: State)
    requires Inv(s) && Enabled(s, Poll)
    ensures var s' := Polled(s);
            CarryInv(s') && TokenInv(s') && InFlight(s') == InFlight(s) && Trails(s') == Trails(s) && s'.sent == s.sent
              && s'.lost == s.lost
  {
    hide SendInv, Ordered, HeaderOf, HeaderBytes, Payload, Carries, OnWire, Overwrite, IsMessage;
    var s' := Polled(s);
    assert Trails(s') == Trails(s);
    if s.inHdr.length == 0 && s.socket != [] {
      WireIsCarried(s.socket[0].bytes, s.sent[s.socket[0].index], s.inbox);
      PollFlight(s, s');
    }
  }

  lemma PollFlight(s: State, s': State)
    requires s.socket != [] && s.inHdr.length == 0 && s'.inHdr.length != 0
    requires s'.worker == s.worker && s'.inIndex == s.socket[0].index && s'.socket == s.socket[1..]
    ensures InFlight(s') == InFlight(s)
  {
    hide PacketIndices;
    var indices, rest := PacketIndices(s.socket), PacketIndices(s.socket[1..]);
    assert indices == [s.socket[0].index] + rest;
    var held := if s.worker.Holding? then [s.worker.index] else [];
    assert held + [] + indices == held + [s.socket[0].index] + rest;
  }

  lemma TransmitKeeps(s: State, t: int, dropped: bool, junk: seq<Byte>)
    requires Inv(s) && Enabled(s, Transmit(t, dropped, junk))
    ensures var s' := Transmitted(s, t, dropped, junk);
            CarryInv(s') && TokenInv(s') && Ordered(InFlight(s'), Trails(s'), s'.sent, s'.lost)
  {
    hide SendInv, Ordered, HeaderBytes, Payload, Carries, OnWire, Wire, IsMessage;
    var m, s' := s.senders[t].m, Transmitted(s, t, dropped, junk);
    assert Trails(s') == Trails(s);
    if m.to == s.host {
      WireIsOnWire(m, junk);
      if dropped {
        OrderedDrop(InFlight(s), Trails(s), s.sent, s.lost, m);
      } else {
        OrderedSend(InFlight(s), Trails(s), s.sent, s.lost, m);
        assert InFlight(s') == InFlight(s) + [|s.sent|];
      }
    }
  }

  lemma TakeKeeps(s: State)
    requires Inv(s) && Enabled(s, WorkerReceive)
    ensures var s' := Do(s, WorkerReceive);
            CarryInv(s') && TokenInv(s') && InFlight(s') == InFlight(s) && Trails(s') == Trails(s) && s'.sent == s.sent
              && s'.lost == s.lost
  {
    hide SendInv, Ordered, HeaderBytes, Payload, Carries, OnWire, Overwrite;
    CopyCarries(s.inHdr, s.inbox, s.buffer, s.sent[s.inIndex]);
  }

  lemma PutTrails(s: State, s': State, b: nat, mail: Mail)
    requires |s.boxes| == |s.received| && b < |s.boxes| && s'.received == s.received
    requires s'.boxes == s.boxes[b := s.boxes[b] + [mail]]
    ensures Trails(s') == Trails(s)[b := Trails(s)[b] + [mail]]
  {
    assert Trail(s', b) == Trail(s, b) + [mail];
  }

  lemma PutFlight(s: State, s': State)
    requires s.worker.Holding? && !s'.worker.Holding? && s'.inHdr == s.inHdr && s'.inIndex == s.inIndex
    requires s'.socket == s.socket
    ensures InFlight(s) == [s.worker.index] + InFlight(s')
  {
  }

  lemma PutKeeps(s: State)
    requires Inv(s) && Enabled(s, WorkerPut)
    ensures var s' := Do(s, WorkerPut);
            CarryInv(s') && TokenInv(s') && Ordered(InFlight(s'), Trails(s'), s'.sent, s'.lost)
  {
    hide SendInv, Ordered, HeaderBytes, Payload, Carries, OnWire, Unpack, PacketIndices;
    var m, s' := s.sent[s.worker.index], Do(s, WorkerPut);
    UnpackCarried(s.worker.h, s.buffer, m, |s.boxes|);
    if m.toBox < |s.boxes| {
      PutFlight(s, s');
      hide InFlight;
      OrderedDeliver(InFlight(s), Trails(s), s.sent, s.lost, m.toBox);
      PutTrails(s, s', m.toBox, Mail(m, s.worker.index));
      assert InFlight(s)[1..] == InFlight(s');
    } else {
      assert Trails(s') == Trails(s);
    }
  }

  lemma GetKeeps(s: State, box: int)
    requires Inv(s) && Enabled(s, Receive(box))
    ensures var s' := Do(s, Receive(box));
            CarryInv(s') && TokenInv(s') && InFlight(s') == InFlight(s) && Trails(s') == Trails(s) && s'.sent == s.sent
              && s'.lost == s.lost
  {
    hide SendInv, Ordered, HeaderBytes, Payload, Carries, OnWire, IsMessage;
    var s' := Do(s, Receive(box));
    assert s.boxes[box] == [s.boxes[box][0]] + s.boxes[box][1..];
    assert Trail(s', box) == Trail(s, box);
    assert Trails(s') == Trails(s);
  }

  lemma NextKeeps(s: State, e: Event)
    requires Inv(s) && Enabled(s, e)
    ensures Inv(Do(s, e))
  {
    hide Ordered, SendInv, HeaderBytes, HeaderOf, Payload, Carries, OnWire, IsMessage, Overwrite, Unpack, Transmitted;
    hide Polled;
    SendKeeps(s, e);
    match e
    case Transmit(t, dropped, junk) => TransmitKeeps(s, t, dropped, junk);
    case Poll => PollKeeps(s);
    case WorkerReceive => TakeKeeps(s);
    case WorkerPut => PutKeeps(s);
    case Receive(box) => GetKeeps(s, box);
    case _ => assert Trails(Do(s, e)) == Trails(s);
  }

  // ---- every run ----

  ghost predicate IsRun(states: seq<State>, events: seq<Event>) {
    && |states| == |events| + 1 && Init(states[0])
    && forall i :: 0 <= i < |events| ==> Enabled(states[i], events[i]) && states[i + 1] == Do(states[i], events[i])
  }

  lemma InitInv(s: State)
    requires Init(s)
    ensures Inv(s)
  {
    hide Ordered, Carries, OnWire, IsMessage, SendInv;
    InitSend(s);
    assert InFlight(s) == [];
    assert forall b :: 0 <= b < |s.boxes| ==> Trails(s)[b] == [];
    OrderedEmpty(Trails(s));
  }

  lemma InitSend(s: State)
    requires Init(s)
    ensures SendInv(s)
  {
    assert forall t :: t in s.senders ==> SenderOk(s, t);
  }

  lemma OrderedEmpty(trails: seq<seq<Mail>>)
    requires forall b :: 0 <= b < |trails| ==> trails[b] == []
    ensures Ordered([], trails, [], {})
  {
  }

  lemma {:induction false} RunKeeps(states: seq<State>, events: seq<Event>, i: nat)
    requires IsRun(states, events) && i < |states|
    ensures Inv(states[i])
  {
    hide Inv, Init, Enabled, Do;
    if i == 0 {
      InitInv(states[0]);
    } else {
      RunKeeps(states, events, i - 1);
      NextKeeps(states[i - 1], events[i - 1]);
    }
  }

  /** On every run, what has been received from a box are messages sent to it: in order, none twice, none altered. */
  lemma ReceivedInOrder(states: seq<State>, events: seq<Event>, i: nat, b: nat)
    requires IsRun(states, events) && i < |states| && b < |states[i].received|
    ensures var s := states[i];
            && (forall j :: 0 <= j < |s.received[b]| ==>
                  var mail := s.received[b][j];
                  mail.index < |s.sent| && mail.message == s.sent[mail.index] && mail.message.toBox == b)
            && (forall j, k :: 0 <= j < k < |s.received[b]| ==> s.received[b][j].index < s.received[b][k].index)
  {
    RunKeeps(states, events, i);
    hide IsRun, SendInv, Arrived, InTrail;
    var s := states[i];
    assert TrailOk(Trails(s)[b], b, InFlight(s), s.sent);
    assert forall j :: 0 <= j < |s.received[b]| ==> s.received[b][j] == Trail(s, b)[j];
  }

  /**
   On every run, each message sent is in exactly one place: dropped by the network, on its way, or in one box's
   history.
   */
  lemma ExactlyOnePlace(states: seq<State>, events: seq<Event>, i: nat, n: nat)
    requires IsRun(states, events) && i < |states| && n < |states[i].sent|
    ensures var s := states[i];
            && |s.boxes| == |s.received|
            && (n in s.lost || n in InFlight(s) || Arrived(Trails(s), n))
            && !(n in s.lost && n in InFlight(s)) && !(n in s.lost && Arrived(Trails(s), n))
            && !(n in InFlight(s) && Arrived(Trails(s), n))
  {
    RunKeeps(states, events, i);
    hide IsRun, SendInv, InFlight;
    var s := states[i];
    assert forall b :: 0 <= b < |Trails(s)| ==> TrailOk(Trails(s)[b], b, InFlight(s), s.sent);
  }

  /** On every run, a token means a packet: the worker never finds the buffer empty, and no poll overwrites a packet. */
  lemma TokensMatchBuffer(states: seq<State>, events: seq<Event>, i: nat)
    requires IsRun(states, events) && i < |states|
    ensures var s := states[i];
            && s.messageAvailable <= 1 && (s.messageAvailable == 1 || s.worker == Receiving <==> s.inHdr.length != 0)
            && (!s.halted ==> Enabled(s, Poll))
            && (!s.halted && s.inHdr.length != 0 ==> Polled(s) == s)
            && (!s.halted && s.worker == Receiving ==> s.inHdr.length != 0 && Enabled(s, WorkerReceive))
  {
    hide Enabled, Do;
    RunKeeps(states, events, i);
    if !states[i].halted {
      ReceiveSideSafe(states[i]);
    }
    hide SendInv, CarryInv, Ordered;
  }

  /** On every run, a machine has at most one packet at its network device, and a thread waits only for its own. */
  lemma OneSendAtATime(states: seq<State>, events: seq<Event>, i: nat, t: int, u: int)
    requires IsRun(states, events) && i < |states| && IsThread(states[i], t) && IsThread(states[i], u)
    requires states[i].home[t] == states[i].home[u] && Busy(states[i].senders[t])
    ensures Busy(states[i].senders[u]) ==> t == u
    ensures var o := OutputOf(states[i], t);
            o.interrupts + o.messageSent == if states[i].senders[t] == Awaiting then 1 else 0
  {
    RunKeeps(states, events, i);
    hide IsRun, CarryInv, Ordered;
    var s := states[i];
    assert SenderOk(s, t) && SenderOk(s, u) && OutputOk(s, s.home[t]);
  }

  lemma BoxHoldsSent(s: State, box: int)
    requires Inv(s) && 0 <= box < |s.boxes| && s.boxes[box] != []
    ensures var m := s.boxes[box][0].message;
            m in s.sent && m.toBox == box && |m.data| <= MAX_MAIL_SIZE
  {
    hide SendInv, Carries, OnWire, Arrived, InFlight;
    var trail := Trails(s)[box];
    assert TrailOk(trail, box, InFlight(s), s.sent);
    assert trail[|s.received[box]|] == s.boxes[box][0];
  }

  /** The mail the worker holds is in no box yet. */
  lemma MailIsNew(s: State, box: int)
    requires Inv(s) && s.worker.Holding? && !s.halted && 0 <= box < |s.boxes|
    ensures forall i :: 0 <= i < |s.boxes[box]| ==> s.boxes[box][i].index != s.worker.index
  {
    hide SendInv, Arrived, Carries, OnWire, IsMessage;
    var trail, flight := Trails(s)[box], InFlight(s);
    assert TrailOk(trail, box, flight, s.sent);
    assert s.worker.index == flight[0];
    forall i | 0 <= i < |s.boxes[box]|
      ensures s.boxes[box][i].index != s.worker.index
    {
      assert trail[|s.received[box]| + i] == s.boxes[box][i];
    }
  }
}
