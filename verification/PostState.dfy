/**
 The objects of the post office (network/post.h, machine/network.h): the packet buffers are byte arrays
 that `bcopy` fills, and the mailboxes linked lists that share no element.
 */
module PostOfficeObjects {
  import opened Options
  import opened Words
  import Lists
  import opened PostOffice

  type Box = Lists.List<Mail>

  /** `bcopy`: some bytes of one buffer over the start of another. */
  method Bcopy(from: array<Byte>, start: nat, into: array<Byte>, length: nat)
    requires start + length <= from.Length && length <= into.Length && from != into
    modifies into
    ensures into[..] == Overwrite(old(into[..]), from[start..start + length])
  {
    var i := 0;
    while i < length
      invariant 0 <= i <= length && into[..i] == from[start..start + i] && into[i..] == old(into[i..])
    {
      into[i] := from[start + i];
      i := i + 1;
    }
    assert into[..] == into[..length] + into[length..];
    assert old(into[..])[length..] == old(into[length..]);
  }

  lemma AtRest(s: State)
    requires s.senders == map t | t in s.home :: Resting
    requires s.outputs == map m | m in s.home.Values :: Output(None, 0, 0)
    requires s.socket == [] && s.inHdr.length == 0 && |s.inbox| == MAX_PACKET_SIZE && |s.buffer| == MAX_PACKET_SIZE
    requires s.messageAvailable == 0 && s.worker == Waiting && !s.halted && s.sent == [] && s.lost == {}
    requires |s.received| == |s.boxes| && forall b :: 0 <= b < |s.boxes| ==> s.boxes[b] == [] && s.received[b] == []
    ensures Init(s)
  {
  }

  method NewBoxes(n: nat) returns (boxes: seq<Box>, ghost all: set<object>)
    ensures |boxes| == n && fresh(all)
    ensures forall b :: 0 <= b < n ==> IsNew(boxes[b], all)
    ensures forall b, c :: 0 <= b < c < n ==> boxes[b].Repr !! boxes[c].Repr
  {
    hide Lists.List<Mail>.Valid, Lists.List<Mail>.Holding;
    boxes, all := [], {};
    while |boxes| < n
      invariant |boxes| <= n && fresh(all)
      invariant forall b :: 0 <= b < |boxes| ==> IsNew(boxes[b], all)
      invariant forall b, c :: 0 <= b < c < |boxes| ==> boxes[b].Repr !! boxes[c].Repr
    {
      var box := new Lists.List<Mail>();
      boxes, all := boxes + [box], all + box.Repr;
    }
  }

  ghost predicate IsNew(box: Box, all: set<object>)
    reads all
  { box in all && box.Repr <= all && box.Valid() && box.Contents() == [] }

  class PostOfficeState {
    var home: map<int, int>
    var senders: map<int, Sender>
    var outputs: map<int, Output>
    var host: int
    var socket: seq<Packet>
    var inHdr: Header
    const inbox: array<Byte>
    var inIndex: nat
    var messageAvailable: nat
    var worker: Worker
    const buffer: array<Byte>
    var halted: bool
    const boxes: seq<Box>

    /** What was sent, which numbers the packets, what the network dropped, and what was taken out of each box. */
    ghost var received: seq<seq<Mail>>
    var sent: seq<Message>
    ghost var lost: set<nat>
    ghost var Repr: set<object>

    ghost predicate Valid()
      reads this, Repr
      ensures Valid() ==> this in Repr
    {
      && {this, inbox, buffer} <= Repr && inbox != buffer && inbox.Length == buffer.Length == MAX_PACKET_SIZE
      && (forall b :: 0 <= b < |boxes| ==> Owns(boxes[b]))
      && (forall b, c :: 0 <= b < c < |boxes| ==> boxes[b].Repr !! boxes[c].Repr)
    }

    ghost predicate Owns(box: Box)
      reads this, Repr
    {
      box in Repr && box.Repr <= Repr && box.Valid() && this !in box.Repr && inbox !in box.Repr && buffer !in box.Repr
    }

    ghost function Boxes(): (r: seq<seq<Mail>>)
      requires Valid()
      reads this, Repr
      ensures |r| == |boxes| && forall b :: 0 <= b < |r| ==> r[b] == boxes[b].Contents()
    { seq(|boxes|, b requires 0 <= b < |boxes| reads this, Repr requires Valid() => boxes[b].Contents()) }

    ghost function Value(): State
      requires Valid()
      reads this, Repr
    {
      State(home, senders, outputs, host, socket, inHdr, inbox[..], inIndex, messageAvailable, worker, buffer[..],
            halted, Boxes(), received, sent, lost)
    }

    constructor (host: int, home: map<int, int>, numBoxes: nat)
      ensures Valid() && fresh(Repr) && Init(Value()) && |boxes| == numBoxes
    {
      hide Owns, Boxes, Init, Lists.List<Mail>.Valid, Lists.List<Mail>.Holding;
      var bs, all := NewBoxes(numBoxes);
      boxes := bs;
      this.host, this.home, senders := host, home, map t | t in home :: Resting;
      outputs := map m | m in home.Values :: Output(None, 0, 0);
      socket, inHdr, inIndex, messageAvailable, worker, halted := [], Header(0, 0, 0), 0, 0, Waiting, false;
      inbox := new Byte[MAX_PACKET_SIZE](i => 0);
      buffer := new Byte[MAX_PACKET_SIZE](i => 0);
      received, sent, lost := seq(numBoxes, i => []), [], {};
      new;
      Repr := {this, inbox, buffer} + all;
      Assembled(all);
      AtRest(Value());
    }

    lemma Assembled(all: set<object>)
      requires Repr == {this, inbox, buffer} + all && {this, inbox, buffer} !! all
      requires inbox != buffer && inbox.Length == buffer.Length == MAX_PACKET_SIZE
      requires forall b :: 0 <= b < |boxes| ==> IsNew(boxes[b], all)
      requires forall b, c :: 0 <= b < c < |boxes| ==> boxes[b].Repr !! boxes[c].Repr
      ensures Valid() && forall b :: 0 <= b < |boxes| ==> Boxes()[b] == []
    {
      hide Lists.List<Mail>.Valid, Lists.List<Mail>.Holding;
      forall b | 0 <= b < |boxes|
        ensures Owns(boxes[b])
      {
        assert IsNew(boxes[b], all);
      }
    }

    /** What leaves the boxes alone leaves them as they were. */
    twostate lemma Kept()
      requires old(Valid()) && Repr == old(Repr)
      requires forall o :: o in old(Repr) && o !in {this, inbox, buffer} ==> unchanged(o)
      ensures Valid() && Boxes() == old(Boxes())
    {
      hide Lists.List<Mail>.Valid, Lists.List<Mail>.Holding;
      forall b | 0 <= b < |boxes|
        ensures Owns(boxes[b]) && boxes[b].Contents() == old(boxes[b].Contents())
      {
        assert old(Owns(boxes[b]));
      }
    }

    /** A change to one box leaves the others apart from it, and as they were. */
    twostate lemma OneChanged(b: nat)
      requires old(Valid()) && b < |boxes| && Repr == old(Repr) + boxes[b].Repr
      requires boxes[b].Valid() && fresh(boxes[b].Repr - old(boxes[b].Repr))
      requires forall o :: o in old(Repr) && o !in old(boxes[b].Repr) && o != this ==> unchanged(o)
      ensures Valid() && Boxes() == old(Boxes())[b := boxes[b].Contents()]
      ensures inbox[..] == old(inbox[..]) && buffer[..] == old(buffer[..])
    {
      hide Lists.List<Mail>.Valid, Lists.List<Mail>.Holding;
      forall c | 0 <= c < |boxes|
        ensures Owns(boxes[c]) && (c != b ==> boxes[c].Contents() == old(boxes[c].Contents()))
      {
        assert old(Owns(boxes[c]));
        assert c != b ==> boxes[c].Repr !! old(boxes[b].Repr);
      }
    }

    /** `NetworkOutput::Send`: schedule the interrupt, then drop the packet or put it on the wire. */
    method Transmit(t: int, dropped: bool, junk: seq<Byte>)
      requires Valid() && IsThread(Value(), t) && senders[t].Sending? && |junk| == MAX_PACKET_SIZE
      requires IsMessage(senders[t].m)
      modifies this
      ensures Valid() && Repr == old(Repr) && Value() == Transmitted(old(Value()), t, dropped, junk)
    {
      hide Wire, IsMessage, Owns, Boxes, Lists.List<Mail>.Valid, Lists.List<Mail>.Holding;
      var m, o := senders[t].m, outputs[home[t]];
      outputs := outputs[home[t] := o.(interrupts := o.interrupts + 1)];
      senders := senders[t := Awaiting];
      if m.to == host {
        if dropped {
          lost := lost + {|sent|};
        } else {
          socket := socket + [Packet(Wire(m, junk), |sent|)];
        }
        sent := sent + [m];
      }
      Kept();
    }

    /** `NetworkInput::CallBack`. */
    method NetworkCallBack()
      requires Valid() && Enabled(Value(), Poll)
      modifies this, inbox
      ensures Valid() && Repr == old(Repr) && Value() == Polled(old(Value()))
    {
      hide HeaderOf, Lists.List<Mail>.Valid, Lists.List<Mail>.Holding;
      if inHdr.length != 0 || socket == [] {
        return;
      }
      var bytes := ReadFromSocket();
      var h := HeaderOf(bytes[..HEADER_SIZE]);
      Bcopy(bytes, HEADER_SIZE, inbox, h.length);
      inHdr, inIndex, socket := h, socket[0].index, socket[1..];
      messageAvailable := messageAvailable + 1;
      Kept();
    }

    method ReadFromSocket() returns (bytes: array<Byte>)
      requires socket != []
      ensures fresh(bytes) && bytes[..] == socket[0].bytes
    {
      var packet := socket[0].bytes;
      bytes := new Byte[|packet|](i requires 0 <= i < |packet| => packet[i]);
    }

    /** `NetworkInput::Receive`, called by the worker: it finds a packet, since it holds a token. */
    method NetworkReceive()
      requires Valid() && Inv(Value()) && Enabled(Value(), WorkerReceive)
      modifies this, buffer
      ensures Valid() && Repr == old(Repr) && Value() == Do(old(Value()), WorkerReceive) && old(inHdr.length) != 0
    {
      hide Inv, Arrives, Unpack, Transmitted, Polled, Lists.List<Mail>.Valid, Lists.List<Mail>.Holding;
      ReceiveSideSafe(Value());
      var hdr := inHdr;
      inHdr := inHdr.(length := 0);
      if hdr.length != 0 {
        Bcopy(inbox, 0, buffer, hdr.length);
      }
      worker := Holding(hdr, inIndex);
      Kept();
    }

    /** The rest of a turn of `PostalDelivery`: check the mail and put it in its box. */
    method Deliver()
      requires Valid() && Inv(Value()) && Enabled(Value(), WorkerPut)
      modifies Repr
      ensures Valid() && fresh(Repr - old(Repr)) && Value() == Do(old(Value()), WorkerPut)
    {
      hide HeaderOf, Inv, Arrives, Transmitted, Polled, Owns, Lists.List<Mail>.Valid, Lists.List<Mail>.Holding;
      var mailHdr := HeaderOf(buffer[..HEADER_SIZE]);
      if !(0 <= mailHdr.to < |boxes|) || mailHdr.length > MAX_MAIL_SIZE {
        halted := true;
        Kept();
        return;
      }
      MailIsNew(Value(), mailHdr.to);
      var data := buffer[HEADER_SIZE..HEADER_SIZE + mailHdr.length];
      var mail := Mail(Message(worker.h.to, worker.h.from, mailHdr.to, mailHdr.from, data), worker.index);
      assert Unpack(worker.h, buffer[..], |boxes|) == Some(mail.message);
      hide Unpack;
      Put(mailHdr.to, mail);
      Rest();
    }

    method Rest()
      requires Valid()
      modifies this`worker
      ensures Valid() && Value() == old(Value()).(worker := Waiting)
    {
      hide Owns, Boxes, Lists.List<Mail>.Valid, Lists.List<Mail>.Holding;
      worker := Waiting;
      Kept();
    }

    method Put(box: nat, mail: Mail)
      requires Valid() && box < |boxes| && mail !in Value().boxes[box]
      modifies Repr
      ensures Valid() && fresh(Repr - old(Repr))
      ensures Value() == old(Value().(boxes := Value().boxes[box := Value().boxes[box] + [mail]]))
    {
      hide Lists.List<Mail>.Valid, Lists.List<Mail>.Holding;
      assert Owns(boxes[box]);
      boxes[box].Append(mail);
      Repr := Repr + boxes[box].Repr;
      OneChanged(box);
    }

    method Take(box: nat) returns (mail: Mail)
      requires Valid() && box < |boxes| && Value().boxes[box] != []
      modifies boxes[box]
      ensures Valid() && Repr == old(Repr) && mail == old(Value().boxes[box][0])
      ensures Value() == old(Value().(boxes := Value().boxes[box := Value().boxes[box][1..]]))
    {
      hide Lists.List<Mail>.Valid, Lists.List<Mail>.Holding;
      assert Owns(boxes[box]);
      mail := boxes[box].RemoveFront();
      OneChanged(box);
    }

    /** `PostOfficeInput::Receive` on a box with mail in it: the oldest message, which then leaves the box. */
    method TakeMail(box: int) returns (m: Message)
      requires Valid() && Inv(Value()) && Enabled(Value(), Receive(box))
      modifies this, boxes[box]
      ensures Valid() && Value() == Do(old(Value()), Receive(box)) && m == old(Value().boxes[box][0].message)
      ensures m in sent && m.toBox == box && |m.data| <= MAX_MAIL_SIZE
    {
      hide Inv, Arrives, Unpack, Transmitted, Polled, Lists.List<Mail>.Valid, Lists.List<Mail>.Holding;
      BoxHoldsSent(Value(), box);
      var mail := Take(box);
      received := received[box := received[box] + [mail]];
      m := mail.message;
    }
  }
}
