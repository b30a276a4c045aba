/**
 The post office by the calls made on it: what a receiver gets is what some thread last asked to send, told from the
 events of the run alone.
 */
module PostOfficeEvents {
  import opened Options
  import opened PostOffice

  // ---- what was asked for ----

  /** The message of the last `Send` of a thread among the first `i` events. */
  function LastSend(events: seq<Event>, t: int, i: nat): Option<Message>
    requires i <= |events|
  {
    if i == 0 then None
    else if events[i - 1].Send? && events[i - 1].t == t then Some(events[i - 1].m)
    else LastSend(events, t, i - 1)
  }

  /**
   Event `j` is that `Send`: of this thread, with this message, and no other of the thread between it and event
   `i`.
   */
  predicate IsLastSend(events: seq<Event>, t: int, m: Message, j: nat, i: nat) {
    && j < i <= |events| && events[j] == Send(t, m)
    && forall k :: j < k < i ==> !(events[k].Send? && events[k].t == t)
  }

  lemma {:induction false} LastSendFound(events: seq<Event>, t: int, i: nat) returns (j: nat)
    requires i <= |events| && LastSend(events, t, i).Some?
    ensures IsLastSend(events, t, LastSend(events, t, i).value, j, i)
  {
    if events[i - 1].Send? && events[i - 1].t == t {
      j := i - 1;
    } else {
      j := LastSendFound(events, t, i - 1);
    }
  }

  /** Event `k` puts a message for this machine on its way. */
  predicate Sends(events: seq<Event>, host: int, k: nat)
    requires k < |events|
  {
    events[k].Transmit? && LastSend(events, events[k].t, k).Some? && LastSend(events, events[k].t, k).value.to == host
  }

  /** Such events among the first `i`, in order. */
  function Transmissions(events: seq<Event>, host: int, i: nat): (ks: seq<nat>)
    requires i <= |events|
    ensures forall n :: 0 <= n < |ks| ==> ks[n] < i && Sends(events, host, ks[n])
    ensures forall m, n :: 0 <= m < n < |ks| ==> ks[m] < ks[n]
  {
    if i == 0 then []
    else Transmissions(events, host, i - 1) + if Sends(events, host, i - 1) then [i - 1] else []
  }

  /** What receivers of a box were given by the first `i` events: at each `Receive`, the first mail of the box. */
  function Receipts(states: seq<State>, events: seq<Event>, box: int, i: nat): seq<Message>
    requires i <= |events| < |states|
  {
    if i == 0 then []
    else
      Receipts(states, events, box, i - 1)
      + if events[i - 1] == Receive(box) && 0 <= box < |states[i - 1].boxes| && states[i - 1].boxes[box] != []
        then [states[i - 1].boxes[box][0].message] else []
  }

  // ---- the logs of the model are these ----

  /** What each sender is about to send is what it last asked to. */
  predicate SendersAsked(events: seq<Event>, i: nat, s: State)
    requires i <= |events|
  {
    forall t :: t in s.senders && (s.senders[t].Locking? || s.senders[t].Sending?) ==>
      LastSend(events, t, i) == Some(s.senders[t].m)
  }

  lemma AskedNext(s: State, e: Event, t: int)
    requires Enabled(s, e) && t in Do(s, e).senders
    ensures t in s.senders
    ensures var x, x' := s.senders[t], Do(s, e).senders[t];
            x'.Locking? || x'.Sending? ==>
              if e.Send? && e.t == t then x'.m == e.m else (x.Locking? || x.Sending?) && x'.m == x.m
  {
    hide IsMessage, Wire, Unpack, HeaderOf, Overwrite;
  }

  /** The messages sent to this machine are those of the transmissions, and the lost ones those of the dropped. */
  ghost predicate Logged(events: seq<Event>, i: nat, s: State)
    requires i <= |events|
  {
    var ks := Transmissions(events, s.host, i);
    && |s.sent| == |ks|
    && (forall n :: 0 <= n < |ks| ==> LastSend(events, events[ks[n]].t, ks[n]) == Some(s.sent[n]))
    && (forall n: nat :: n in s.lost <==> n < |ks| && events[ks[n]].dropped)
  }

  lemma LogNext(s: State, e: Event)
    requires Enabled(s, e)
    ensures var s' := Do(s, e);
            && s'.host == s.host
            && (if e.Transmit? && s.senders[e.t].m.to == s.host then
                  s'.sent == s.sent + [s.senders[e.t].m] && s'.lost == if e.dropped then s.lost + {|s.sent|} else s.lost
                else s'.sent == s.sent && s'.lost == s.lost)
  {
    hide IsMessage, Wire, Unpack, HeaderOf, Overwrite;
  }

  lemma {:induction false} RunLogged(states: seq<State>, events: seq<Event>, i: nat)
    requires IsRun(states, events) && i < |states|
    ensures SendersAsked(events, i, states[i]) && Logged(events, i, states[i])
  {
    hide Do, Enabled, IsMessage;
    if i > 0 {
      RunLogged(states, events, i - 1);
      SendersNext(states[i - 1], events, i);
      LoggedNext(states[i - 1], events, i);
    } else {
      assert Transmissions(events, states[0].host, 0) == [];
    }
  }

  lemma SendersNext(s: State, events: seq<Event>, i: nat)
    requires 0 < i <= |events| && Enabled(s, events[i - 1]) && SendersAsked(events, i - 1, s)
    ensures SendersAsked(events, i, Do(s, events[i - 1]))
  {
    hide Do, Enabled;
    forall t | t in Do(s, events[i - 1]).senders
      ensures var x := Do(s, events[i - 1]).senders[t];
              x.Locking? || x.Sending? ==> LastSend(events, t, i) == Some(x.m)
    {
      AskedNext(s, events[i - 1], t);
    }
  }

  lemma LoggedNext(s: State, events: seq<Event>, i: nat)
    requires 0 < i <= |events| && Enabled(s, events[i - 1])
    requires SendersAsked(events, i - 1, s) && Logged(events, i - 1, s)
    ensures Logged(events, i, Do(s, events[i - 1]))
  {
    LogNext(s, events[i - 1]);
    var e := events[i - 1];
    if e.Transmit? {
      assert LastSend(events, e.t, i - 1) == Some(s.senders[e.t].m);
    }
    hide Do, Enabled, LastSend;
    var ks, ks' := Transmissions(events, s.host, i - 1), Transmissions(events, s.host, i);
    assert forall n :: 0 <= n < |ks| ==> ks'[n] == ks[n];
  }

  /** What the model records as received is what the receivers were given. */
  lemma {:induction false} RunReceipts(states: seq<State>, events: seq<Event>, i: nat, box: nat)
    requires IsRun(states, events) && i < |states| && box < |states[i].received|
    ensures |states[i].received[box]| == |Receipts(states, events, box, i)|
    ensures forall n :: 0 <= n < |Receipts(states, events, box, i)| ==>
              states[i].received[box][n].message == Receipts(states, events, box, i)[n]
  {
    hide Do, Enabled;
    if i > 0 {
      ReceivedNext(states[i - 1], events[i - 1], box);
      RunReceipts(states, events, i - 1, box);
    }
  }

  lemma ReceivedNext(s: State, e: Event, box: nat)
    requires Enabled(s, e) && box < |Do(s, e).received|
    ensures box < |s.received|
    ensures if e == Receive(box) then
              && box < |s.boxes| && s.boxes[box] != []
              && Do(s, e).received[box] == s.received[box] + [s.boxes[box][0]]
            else Do(s, e).received[box] == s.received[box]
  {
    hide IsMessage, Wire, Unpack, HeaderOf, Overwrite;
  }

  // ---- the theorem ----

  /**
   On every run: the messages that receivers of a box were given come from different transmissions, in the order of
   these, none of them dropped.  Each is the very message of the last `Send` that the transmitting thread had called,
   addressed to this machine and this box.
   */
  lemma ReceivedAsSent(states: seq<State>, events: seq<Event>, i: nat, box: nat)
    returns (from: seq<nat>, asked: seq<nat>)
    requires IsRun(states, events) && i < |states| && box < |states[i].received|
    ensures |from| == |asked| == |Receipts(states, events, box, i)|
    ensures forall m, n :: 0 <= m < n < |from| ==> from[m] < from[n]
    ensures forall n :: 0 <= n < |from| ==>
              var message := Receipts(states, events, box, i)[n];
              && from[n] < i && events[from[n]].Transmit? && !events[from[n]].dropped
              && IsLastSend(events, events[from[n]].t, message, asked[n], from[n])
              && message.to == states[i].host && message.toBox == box
  {
    var s := states[i];
    RunLogged(states, events, i);
    RunReceipts(states, events, i, box);
    ReceivedInOrder(states, events, i, box);
    NotLost(states, events, i, box);
    hide IsRun, LastSend, Receipts;
    var ks := Transmissions(events, s.host, i);
    from := seq(|s.received[box]|, n requires 0 <= n < |s.received[box]| => ks[s.received[box][n].index]);
    asked := FindSends(events, from, Receipts(states, events, box, i));
  }

  /** The last calls before some transmissions. */
  lemma FindSends(events: seq<Event>, from: seq<nat>, messages: seq<Message>) returns (asked: seq<nat>)
    requires |from| == |messages| && forall n :: 0 <= n < |from| ==> from[n] < |events| && events[from[n]].Transmit?
    requires forall n :: 0 <= n < |from| ==> LastSend(events, events[from[n]].t, from[n]) == Some(messages[n])
    ensures |asked| == |from|
    ensures forall n :: 0 <= n < |from| ==> IsLastSend(events, events[from[n]].t, messages[n], asked[n], from[n])
  {
    hide LastSend, IsLastSend;
    asked := [];
    while |asked| < |from|
      invariant |asked| <= |from|
      invariant forall n :: 0 <= n < |asked| ==>
                  IsLastSend(events, events[from[n]].t, messages[n], asked[n], from[n])
    {
      var j := LastSendFound(events, events[from[|asked|]].t, from[|asked|]);
      asked := asked + [j];
    }
  }

  /** A message received was not dropped. */
  lemma NotLost(states: seq<State>, events: seq<Event>, i: nat, box: nat)
    requires IsRun(states, events) && i < |states| && box < |states[i].received|
    ensures forall n :: 0 <= n < |states[i].received[box]| ==> states[i].received[box][n].index !in states[i].lost
  {
    hide IsRun, InFlight;
    var s := states[i];
    ReceivedInOrder(states, events, i, box);
    forall n | 0 <= n < |s.received[box]|
      ensures s.received[box][n].index !in s.lost
    {
      ExactlyOnePlace(states, events, i, s.received[box][n].index);
      assert Trails(s)[box][n] == s.received[box][n];
      assert InTrail(Trails(s)[box], s.received[box][n].index);
    }
  }

  // ---- each packet moves on ----

  /**
   On every run: a poll takes the first packet of the socket into the device if that is empty, and signals once; the
   worker takes it over and empties the device; then it puts the message at the end of its box, if there is such a
   box, and waits for the next signal; a receiver takes the first message out of its box.
   */
  lemma PacketsMove(states: seq<State>, events: seq<Event>, k: nat)
    requires IsRun(states, events) && k < |events|
    ensures var s, e, s' := states[k], events[k], states[k + 1];
            && (e == Poll ==>
                  if s.inHdr.length == 0 && s.socket != [] then
                    && s'.inHdr.length != 0 && s'.inIndex == s.socket[0].index && s'.socket == s.socket[1..]
                    && s'.messageAvailable == s.messageAvailable + 1
                  else s' == s)
            && (e == WorkerP ==> s'.messageAvailable == s.messageAvailable - 1 && s'.worker == Receiving)
            && (e == WorkerReceive ==>
                  s'.inHdr.length == 0 && s'.worker.Holding? && s'.worker.index == s.inIndex && s'.socket == s.socket)
            && (e.Receive? ==>
                  && 0 <= e.box < |s.boxes| == |s'.boxes| && s.boxes[e.box] != []
                  && s'.boxes == s.boxes[e.box := s.boxes[e.box][1..]])
  {
    RunKeeps(states, events, k);
    if events[k] == Poll { PollMoves(states[k]); }
    hide IsRun, Inv, IsMessage, Wire, Unpack, Overwrite, HeaderOf;
  }

  /** A packet has a length: that of its headers at least. */
  lemma PollMoves(s: State)
    requires Inv(s) && Enabled(s, Poll)
    ensures s.inHdr.length == 0 && s.socket != [] ==> Polled(s).inHdr.length != 0
  {
    hide SendInv, Ordered, HeaderOf, HeaderBytes, Payload, IsMessage, Carries, OnWire, Overwrite;
    if s.inHdr.length == 0 && s.socket != [] {
      WireIsCarried(s.socket[0].bytes, s.sent[s.socket[0].index], s.inbox);
    }
  }

  /** What the worker delivers: the message the packet was sent as, to its box; or the machine stops. */
  lemma WorkerDelivers(states: seq<State>, events: seq<Event>, k: nat)
    requires IsRun(states, events) && k < |events| && events[k] == WorkerPut
    ensures var s, s' := states[k], states[k + 1];
            && s.worker.Holding? && s.worker.index < |s.sent|
            && var m := s.sent[s.worker.index];
            && 0 <= m.toBox
            && if m.toBox < |s.boxes| then
                 && s'.worker == Waiting && !s'.halted
                 && s'.boxes == s.boxes[m.toBox := s.boxes[m.toBox] + [Mail(m, s.worker.index)]]
               else s'.halted && s'.boxes == s.boxes
  {
    RunKeeps(states, events, k);
    var s := states[k];
    UnpackCarried(s.worker.h, s.buffer, s.sent[s.worker.index], |s.boxes|);
    hide SendInv, Ordered, HeaderOf, HeaderBytes, Payload, Carries, OnWire, Overwrite, Unpack;
  }

  /**
   On every run: a thread that got the send lock puts its packet out, which schedules one interrupt; the interrupt
   gives one token; the thread takes it and gives the lock back.
   */
  lemma SendersMove(states: seq<State>, events: seq<Event>, k: nat)
    requires IsRun(states, events) && k < |events|
    ensures var s, e, s' := states[k], events[k], states[k + 1];
            && (e.SendInterrupt? ==>
                  && e.machine in s.outputs && e.machine in s'.outputs
                  && s'.outputs[e.machine].messageSent == s.outputs[e.machine].messageSent + 1
                  && s'.outputs[e.machine].interrupts == s.outputs[e.machine].interrupts - 1)
            && (e.Acquire? || e.Transmit? || e.AwaitSent? || e.Release? ==>
                  && IsThread(s, e.t) && IsThread(s', e.t)
                  && var before, after := OutputOf(s, e.t), OutputOf(s', e.t);
                  && (e.Acquire? ==> after == before.(holder := Some(e.t)) && s'.senders[e.t].Sending?)
                  && (e.Transmit? ==>
                        after == before.(interrupts := before.interrupts + 1) && s'.senders[e.t] == Awaiting)
                  && (e.AwaitSent? ==>
                        && before.messageSent > 0 && s'.senders[e.t] == Releasing
                        && after == before.(messageSent := before.messageSent - 1))
                  && (e.Release? ==> after == before.(holder := None) && s'.senders[e.t] == Resting))
  {
    assert Enabled(states[k], events[k]);
    hide IsMessage, Wire, Unpack, HeaderOf, Overwrite;
    hide IsRun;
  }
}
