/** A sending buffer and a receiving buffer joined by a network that may lose, repeat and
    reorder packets, acknowledgements and drop requests. Packets are numbered 0, 1, 2, ... as
    src/udt/newlib/core.cpp numbers them; the buffers see offsets from their acknowledgement points. */
module UdtTransfer {
  import opened Prelude
  import opened UdtPackets
  import opened UdtSender
  import opened UdtNumbers
  import opened UdtWindow
  import opened UdtScan

  datatype Message = Message(data: seq<byte>, order: bool)

  /** The message that packets start..end carried, with the bytes handed to the reader. */
  datatype Delivery = Delivery(start: nat, end: nat, len: nat, bytes: seq<byte>)

  /** The request to drop the packets first..last, both included, of the message numbered no. */
  datatype DropRequest = DropRequest(no: bv32, first: nat, last: nat)

  datatype System = System(
    stream: bool,                 // stream or message mode
    snd: Sender,
    sndAcked: nat,                // number of the oldest unacknowledged packet
    next: nat,                    // number the next new packet will get
    net: set<(nat, Packet)>,      // every copy ever put on the network
    drops: set<DropRequest>,             // every drop request ever sent
    rcv: Window,
    gone: set<nat>,               // packets the receiver no longer waits for, or has struck out
    acks: set<nat>,               // every acknowledgement ever sent
    // history
    messages: seq<Message>,       // what was given to addBuffer
    log: seq<Packet>,             // the packets it was cut into
    read: seq<byte>,              // what readBuffer returned, in stream mode
    deliveries: seq<Delivery>)    // what readMsg returned, in message mode

  datatype Event =
    | Send(m: Message)
    | Transmit
    | Retransmit(offset: nat)
    | Expire(offset: nat)         // instead, the message of that packet has expired
    | Arrive(no: nat, packet: Packet)
    | DropArrives(drop: DropRequest)
    | Acknowledge(len: nat)
    | AckArrives(ack: nat)
    | Read(len: nat)
    | ReadMsg(len: nat)

  function Start(stream: bool, size: nat, mss: nat): System
    requires size > 0 && mss > 0
  {
    System(stream, Sender([], 0, 1, mss), 0, 0, {}, {}, Window(0, seq(size, _ => None), 0, 0, 0), {}, {}, [], [], [], [])
  }

  function AckPoint(s: System): nat {
    s.rcv.base + s.rcv.acked
  }

  function SentEnd(s: System): nat {
    s.sndAcked + s.snd.sent
  }

  /** The log is a row of complete messages. */
  ghost predicate Bounded(log: seq<Packet>) {
    && (forall k :: 0 <= k < |log| - 1 ==> (Ends(log[k]) <==> Begins(log[k + 1])))
    && (log != [] ==> Begins(log[0]) && Ends(log[|log| - 1]))
  }

  /** Whatever a slot holds is the packet of that number. */
  ghost predicate Mirrors(w: Window, log: seq<Packet>) {
    forall j :: 0 <= j < |w.slots| && w.slots[j].Some? ==>
      w.base + j < |log| && w.slots[j].value.packet == log[w.base + j]
  }

  /** The sender holds the log from its acknowledgement point on. */
  ghost predicate Sends(snd: Sender, acked: nat, log: seq<Packet>) {
    ValidSender(snd) && acked + |snd.packets| == |log| && snd.packets == log[acked..]
  }

  /** Every copy on the network is of a packet sent. */
  ghost predicate InNet(net: set<(nat, Packet)>, log: seq<Packet>) {
    forall c :: c in net ==> c.0 < |log| && c.1 == log[c.0]
  }

  /** An acknowledged slot is empty only if its packet is gone; in stream mode none is. */
  ghost predicate Excused(stream: bool, rcv: Window, gone: set<nat>) {
    if stream then Contiguous(rcv)
    else
      && rcv.notch == 0 && rcv.acked <= |rcv.slots|
      && forall j :: 0 <= j < rcv.acked && rcv.slots[j].None? ==> rcv.base + j in gone
  }

  ghost predicate Receives(stream: bool, rcv: Window, log: seq<Packet>, gone: set<nat>) {
    ValidWindow(rcv) && Excused(stream, rcv, gone) && Mirrors(rcv, log) && WellBounded(rcv)
  }

  /** Drop requests concern packets sent, and there are none in stream mode. */
  ghost predicate Forgets(stream: bool, drops: set<DropRequest>, gone: set<nat>, end: nat) {
    && (forall d :: d in drops ==> d.last < end)
    && (forall n :: n in gone ==> n < end)
    && (stream ==> drops == {} && gone == {})
  }

  /** What every step keeps, in both modes, as long as the packets are numbered as they were cut. */
  ghost predicate Inv(s: System) {
    && Sends(s.snd, s.sndAcked, s.log) && Bounded(s.log)
    && s.sndAcked <= AckPoint(s) <= SentEnd(s) <= |s.log| && s.next == SentEnd(s)
    && (forall a :: a in s.acks ==> a <= AckPoint(s))
    && InNet(s.net, s.log[..SentEnd(s)])
    && Forgets(s.stream, s.drops, s.gone, SentEnd(s))
    && Receives(s.stream, s.rcv, s.log[..SentEnd(s)], s.gone)
  }

  /** What the buffers themselves keep, however the packets are numbered. */
  ghost predicate Sound(s: System) {
    ValidSender(s.snd) && ValidWindow(s.rcv) && if s.stream then Contiguous(s.rcv) else s.rcv.notch == 0
  }

  /** What the surrounding protocol allows: packets and requests arrive only if they were sent, a
      packet is stored only inside the free window, only packets held or gone are acknowledged, and
      only messages have a time to live. */
  ghost predicate Enabled(s: System, e: Event)
    requires Sound(s)
  {
    match e
    case Send(m) => true
    case Transmit => s.snd.sent < |s.snd.packets|
    case Retransmit(offset) => offset < s.snd.sent
    case Expire(offset) => !s.stream && offset < s.snd.sent
    case Arrive(no, packet) => (no, packet) in s.net
    case DropArrives(drop) => drop in s.drops
    case Acknowledge(len) =>
      s.rcv.acked + len < |s.rcv.slots|
      && forall j :: s.rcv.acked <= j < s.rcv.acked + len ==>
           s.rcv.slots[j].Some? || (!s.stream && s.rcv.base + j in s.gone)
    case AckArrives(ack) => ack in s.acks && ack <= SentEnd(s)
    case Read(len) => s.stream
    case ReadMsg(len) => !s.stream && WellBounded(s.rcv)
  }

  /** The receiver's window after packet number no has come in. */
  ghost function Arrived(rcv: Window, no: nat, packet: Packet): Window
    requires ValidWindow(rcv)
  {
    var offset := no - (rcv.base + rcv.acked);
    if offset < 0 || offset >= AvailSize(rcv) then rcv else AddData(rcv, packet, offset)
  }

  /** Where the message of the packet at offset ends among those the sender holds. */
  function EndAt(snd: Sender, offset: nat): nat
    requires offset < |snd.packets|
  {
    RunEnd(snd.packets, MsgSeq(snd.packets[offset]), offset + 1)
  }

  function Larger(a: nat, b: nat): nat {
    if a < b then b else a
  }

  predicate InRange(n: nat, a: nat, b: nat) {
    a <= n <= b
  }

  function Range(a: nat, b: nat): set<nat> {
    set n: nat | n <= b && InRange(n, a, b)
  }

  /** The packets dropMsg strikes out. */
  function StruckOut(rcv: Window, no: bv32): set<nat> {
    set j | 0 <= j < |rcv.slots| && j < rcv.acked + rcv.maxPos && rcv.slots[j].Some? && rcv.slots[j].value.packet.msgNo == no
      :: rcv.base + j
  }

  ghost function Next(s: System, e: Event): System
    requires Sound(s) && Enabled(s, e)
  {
    match e
    case Send(m) =>
      s.(snd := Enqueue(s.snd, m.data, m.order), messages := s.messages + [m],
         log := s.log + Chop(m.data, s.snd.mss, s.snd.nextMsgNo, m.order))
    case Transmit =>
      s.(snd := s.snd.(sent := s.snd.sent + 1), next := s.next + 1,
         net := s.net + {(s.next, s.snd.packets[s.snd.sent])})
    case Retransmit(offset) =>
      s.(net := s.net + {(s.sndAcked + offset, s.snd.packets[offset])})
    case Expire(offset) =>
      var end := s.sndAcked + EndAt(s.snd, offset);
      s.(snd := SkipMessage(s.snd, offset), next := Larger(s.next, end + 2),
         drops := s.drops + {DropRequest(MsgSeq(s.snd.packets[offset]), s.sndAcked + offset, end)})
    case Arrive(no, packet) => s.(rcv := Arrived(s.rcv, no, packet))
    case DropArrives(drop) =>
      s.(rcv := DropMsg(s.rcv, drop.no), gone := s.gone + Range(drop.first, drop.last) + StruckOut(s.rcv, drop.no))
    case Acknowledge(len) =>
      s.(rcv := AckData(s.rcv, len), acks := s.acks + {AckPoint(s) + len})
    case AckArrives(ack) =>
      var offset := ack - s.sndAcked;
      if offset <= 0 then s else s.(snd := UdtSender.Acknowledge(s.snd, offset), sndAcked := ack)
    case Read(len) =>
      var (w, bytes) := UdtWindow.Read(s.rcv, len);
      s.(rcv := w, read := s.read + bytes)
    case ReadMsg(len) =>
      var (w, bytes) := UdtScan.ReadMsg(s.rcv, len);
      s.(rcv := w, deliveries := s.deliveries + Delivered(s.rcv, len))
  }

  /** The delivery a call of readMsg makes, if any. */
  ghost function Delivered(w: Window, len: nat): seq<Delivery>
    requires ValidWindow(w) && Scannable(w) && WellBounded(w)
  {
    var (w', r) := Scan(w);
    if r.Found? then [Delivery(w'.base + r.p, w'.base + r.q + 1, len, UdtScan.ReadMsg(w, len).1)] else []
  }

  lemma StartInv(stream: bool, size: nat, mss: nat)
    requires size > 0 && mss > 0
    ensures Inv(Start(stream, size, mss))
  {
  }

  /** Slots that mirror a well-bounded log are well bounded. */
  lemma MirrorBounded(w: Window, log: seq<Packet>, end: nat)
    requires Bounded(log) && end <= |log| && Mirrors(w, log[..end])
    ensures WellBounded(w)
  {
  }

  lemma BoundedConcat(a: seq<Packet>, b: seq<Packet>)
    requires Bounded(a) && (b == [] || IsMessage(b))
    ensures Bounded(a + b)
  {
  }

  lemma SendsMore(snd: Sender, acked: nat, log: seq<Packet>, m: Message)
    requires Sends(snd, acked, log)
    ensures Sends(Enqueue(snd, m.data, m.order), acked, log + Chop(m.data, snd.mss, snd.nextMsgNo, m.order))
  {
    NextMsgNoInRange(snd.nextMsgNo);
    ChopFilled(snd.packets, m.data, snd.mss, snd.nextMsgNo, m.order);
    hide Chop, NextMsgNo, Filled;
    assert (log + Chop(m.data, snd.mss, snd.nextMsgNo, m.order))[acked..]
        == log[acked..] + Chop(m.data, snd.mss, snd.nextMsgNo, m.order);
  }

  lemma SendInv(s: System, m: Message)
    requires Inv(s)
    ensures Inv(Next(s, Send(m)))
  {
    assert ValidSender(s.snd);
    WholeMessage(s, m);
    hide NextMsgNo, IsMessage, Bounded, Sends, InNet, Receives, Forgets, Chop, ValidSender;
    var ps := Chop(m.data, s.snd.mss, s.snd.nextMsgNo, m.order);
    SendsMore(s.snd, s.sndAcked, s.log, m);
    BoundedConcat(s.log, ps);
    InvExtended(s, Next(s, Send(m)), ps);
  }

  lemma InvExtended(s: System, s': System, ps: seq<Packet>)
    requires Inv(s) && s' == s.(snd := s'.snd, messages := s'.messages, log := s.log + ps) && s'.snd.sent == s.snd.sent
    requires Sends(s'.snd, s'.sndAcked, s'.log) && Bounded(s'.log)
    ensures Inv(s')
  {
    hide Bounded, Sends, InNet, Receives, Forgets;
    SamePrefix(s.log, ps, SentEnd(s));
  }

  lemma SamePrefix(log: seq<Packet>, ps: seq<Packet>, n: nat)
    requires n <= |log|
    ensures (log + ps)[..n] == log[..n]
  {
  }

  lemma WholeMessage(s: System, m: Message)
    requires Inv(s)
    ensures var ps := Chop(m.data, s.snd.mss, s.snd.nextMsgNo, m.order); ps == [] || IsMessage(ps)
  {
    if m.data != [] {
      ChopIsMessage(m.data, s.snd.mss, s.snd.nextMsgNo, m.order);
    }
  }

  /** What mirrors a log mirrors a longer one. */
  lemma ReceivesMore(stream: bool, rcv: Window, log: seq<Packet>, gone: set<nat>, end: nat, end': nat)
    requires end <= end' <= |log| && Receives(stream, rcv, log[..end], gone)
    ensures Receives(stream, rcv, log[..end'], gone)
  {
    hide ValidWindow, Excused, WellBounded;
  }

  lemma InNetMore(net: set<(nat, Packet)>, log: seq<Packet>, end: nat, end': nat, no: nat)
    requires end <= end' <= |log| && InNet(net, log[..end]) && no < end'
    ensures InNet(net + {(no, log[no])}, log[..end'])
  {
  }

  /** Handing out further packets leaves those held alone. */
  lemma SendsOn(snd: Sender, acked: nat, log: seq<Packet>, sent: nat)
    requires Sends(snd, acked, log) && sent <= |snd.packets|
    ensures Sends(snd.(sent := sent), acked, log)
  {
  }

  lemma SendsAt(snd: Sender, acked: nat, log: seq<Packet>, offset: nat)
    requires Sends(snd, acked, log) && offset < |snd.packets|
    ensures acked + offset < |log| && snd.packets[offset] == log[acked + offset]
  {
  }

  lemma TransmitInv(s: System)
    requires Inv(s) && Enabled(s, Transmit)
    ensures Inv(Next(s, Transmit))
  {
    var end := SentEnd(s);
    SendsOn(s.snd, s.sndAcked, s.log, s.snd.sent + 1);
    SendsAt(s.snd, s.sndAcked, s.log, s.snd.sent);
    hide Receives, InNet, Bounded, Sends;
    InNetMore(s.net, s.log, end, end + 1, end);
    ReceivesMore(s.stream, s.rcv, s.log, s.gone, end, end + 1);
  }

  lemma RetransmitInv(s: System, offset: nat)
    requires Inv(s) && Enabled(s, Retransmit(offset))
    ensures Inv(Next(s, Retransmit(offset)))
  {
    SendsAt(s.snd, s.sndAcked, s.log, offset);
    hide Receives, InNet, Bounded, Sends, Forgets;
    InNetMore(s.net, s.log, SentEnd(s), SentEnd(s), s.sndAcked + offset);
  }

  // ---- Expiry: the numbers of the packets ----

  /** An expiry keeps the numbers in step with the packets cut exactly when at least two packets
      behind the expired message have been sent before; the number is moved on by one too many. */
  lemma ExpireInStepIff(s: System, offset: nat)
    requires Sound(s) && Enabled(s, Expire(offset)) && s.next == SentEnd(s)
    ensures var s' := Next(s, Expire(offset));
      s'.next == SentEnd(s') <==> s.snd.sent >= EndAt(s.snd, offset) + 2
  {
  }

  ghost predicate Clear(s: System, e: Event)
    requires Sound(s) && Enabled(s, e)
  {
    e.Expire? ==> s.snd.sent >= EndAt(s.snd, e.offset) + 2
  }

  /** The numbers never fall behind, and once ahead they stay ahead. */
  lemma AheadStays(s: System, e: Event)
    requires Sound(s) && Enabled(s, e) && s.next >= SentEnd(s)
    ensures var s' := Next(s, e);
      s'.next >= SentEnd(s') && (s.next > SentEnd(s) ==> s'.next > SentEnd(s'))
  {
    if e.Expire? {
      RunEndFacts(s.snd.packets, MsgSeq(s.snd.packets[e.offset]), e.offset + 1);
    }
  }

  /** Giving up a message whose end has been passed by two only asks the receiver to drop it. */
  lemma ExpireInv(s: System, offset: nat)
    requires Inv(s) && Enabled(s, Expire(offset)) && Clear(s, Expire(offset))
    ensures Inv(Next(s, Expire(offset))) && Next(s, Expire(offset)).snd == s.snd
  {
    hide Receives, InNet, Bounded, Sends, RunEnd;
  }

  lemma StrikeMirrors(rcv: Window, no: bv32, log: seq<Packet>)
    requires ValidWindow(rcv) && Mirrors(rcv, log)
    ensures Mirrors(DropMsg(rcv, no), log)
  {
  }

  lemma StrikeReceives(rcv: Window, log: seq<Packet>, gone: set<nat>, more: set<nat>, no: bv32)
    requires Receives(false, rcv, log, gone)
    ensures Receives(false, DropMsg(rcv, no), log, gone + more)
  {
    DropMsgValid(rcv, no);
    StrikeMirrors(rcv, no, log);
    hide ValidWindow, Mirrors;
  }

  lemma StruckOutSent(rcv: Window, log: seq<Packet>, no: bv32, n: nat)
    requires Mirrors(rcv, log) && n in StruckOut(rcv, no)
    ensures n < |log|
  {
  }

  lemma DropInv(s: System, drop: DropRequest)
    requires Inv(s) && Enabled(s, DropArrives(drop))
    ensures Inv(Next(s, DropArrives(drop)))
  {
    var more := Range(drop.first, drop.last) + StruckOut(s.rcv, drop.no);
    assert s.gone + Range(drop.first, drop.last) + StruckOut(s.rcv, drop.no) == s.gone + more;
    StrikeReceives(s.rcv, s.log[..SentEnd(s)], s.gone, more, drop.no);
    forall n | n in StruckOut(s.rcv, drop.no)
      ensures n < SentEnd(s)
    {
      StruckOutSent(s.rcv, s.log[..SentEnd(s)], drop.no, n);
    }
    hide Receives, InNet, Bounded, Sends, StruckOut, DropMsg, Range;
    assert forall n :: n in Range(drop.first, drop.last) ==> n < SentEnd(s) by {
      RangeBelow(drop.first, drop.last, SentEnd(s));
    }
  }

  lemma RangeBelow(a: nat, b: nat, end: nat)
    requires b < end
    ensures forall n :: n in Range(a, b) ==> n < end
  {
  }

  // ---- The other events ----

  lemma AddDataMirrors(w: Window, p: Packet, offset: nat, log: seq<Packet>)
    requires ValidWindow(w) && Mirrors(w, log) && offset < AvailSize(w)
    requires w.base + w.acked + offset < |log| && p == log[w.base + w.acked + offset]
    ensures ValidWindow(AddData(w, p, offset)) && Mirrors(AddData(w, p, offset), log)
  {
  }

  lemma AddDataExcused(stream: bool, w: Window, p: Packet, offset: nat, gone: set<nat>)
    requires ValidWindow(w) && offset < AvailSize(w) && Excused(stream, w, gone)
    ensures Excused(stream, AddData(w, p, offset), gone)
  {
  }

  /** A packet sent is stored in its place, or the window stays as it was. */
  lemma ArrivedReceives(stream: bool, rcv: Window, log: seq<Packet>, gone: set<nat>, end: nat, no: nat)
    requires end <= |log| && Receives(stream, rcv, log[..end], gone) && Bounded(log) && no < end
    ensures var rcv' := Arrived(rcv, no, log[no]);
      Receives(stream, rcv', log[..end], gone) && rcv'.base == rcv.base && rcv'.acked == rcv.acked
  {
    hide ValidWindow, Excused, Mirrors, Bounded, WellBounded;
    var offset := no - (rcv.base + rcv.acked);
    if 0 <= offset < AvailSize(rcv) {
      AddDataMirrors(rcv, log[no], offset, log[..end]);
      AddDataExcused(stream, rcv, log[no], offset, gone);
      MirrorBounded(AddData(rcv, log[no], offset), log, end);
    }
  }

  lemma ArriveInv(s: System, no: nat, packet: Packet)
    requires Inv(s) && Enabled(s, Arrive(no, packet))
    ensures Inv(s.(rcv := Arrived(s.rcv, no, packet)))
  {
    assert (no, packet) in s.net;
    hide Arrived, Bounded, Sends, Receives, Forgets;
    ArrivedReceives(s.stream, s.rcv, s.log, s.gone, SentEnd(s), no);
  }

  /** The acknowledgement point moves over packets held or gone, none of them beyond what was sent. */
  lemma AckReceives(stream: bool, rcv: Window, log: seq<Packet>, gone: set<nat>, len: nat)
    requires Receives(stream, rcv, log, gone) && rcv.acked + len < |rcv.slots| && rcv.base + rcv.acked <= |log|
    requires forall j :: rcv.acked <= j < rcv.acked + len ==> rcv.slots[j].Some? || (!stream && rcv.base + j in gone)
    requires forall n :: n in gone ==> n < |log|
    ensures Receives(stream, AckData(rcv, len), log, gone) && rcv.base + rcv.acked + len <= |log|
  {
    AckDataValid(rcv, len);
    hide ValidWindow;
    if len > 0 {
      var j := rcv.acked + len - 1;
      assert rcv.slots[j].Some? || rcv.base + j in gone;
    }
  }

  lemma AcknowledgeInv(s: System, len: nat)
    requires Inv(s) && Enabled(s, Event.Acknowledge(len))
    ensures Inv(s.(rcv := AckData(s.rcv, len), acks := s.acks + {AckPoint(s) + len}))
  {
    hide Receives, InNet, Bounded, Sends;
    AckReceives(s.stream, s.rcv, s.log[..SentEnd(s)], s.gone, len);
  }

  lemma SendsLess(snd: Sender, acked: nat, log: seq<Packet>, offset: nat)
    requires Sends(snd, acked, log) && offset <= snd.sent
    ensures Sends(UdtSender.Acknowledge(snd, offset), acked + offset, log)
  {
    assert log[acked..][offset..] == log[acked + offset..];
  }

  lemma AckArrivesInv(s: System, ack: nat)
    requires Inv(s) && Enabled(s, AckArrives(ack))
    ensures Inv(Next(s, AckArrives(ack)))
  {
    var offset := ack - s.sndAcked;
    if offset > 0 {
      assert ValidSender(s.snd);
      hide Receives, InNet, Bounded, Forgets, Sends;
      SendsLess(s.snd, s.sndAcked, s.log, offset);
      var s' := Next(s, AckArrives(ack));
      assert s' == s.(snd := UdtSender.Acknowledge(s.snd, offset), sndAcked := ack) && SentEnd(s') == SentEnd(s);
    }
  }

  /** w' holds the packets of w that it still holds at the same packet numbers. */
  ghost predicate Kept(w: Window, w': Window) {
    && w.base <= w'.base && w'.base + w'.acked == w.base + w.acked
    && |w'.slots| == |w.slots|
    && forall j :: 0 <= j < |w'.slots| && w'.slots[j].Some? ==>
         var i := w'.base - w.base + j;
         i < |w.slots| && w.slots[i].Some? && w'.slots[j].value.packet == w.slots[i].value.packet
  }

  lemma ShiftKeeps(w: Window, w': Window, k: nat)
    requires Shifted(w, w', k) && ValidWindow(w) && ValidWindow(w')
    ensures Kept(w, w')
    ensures (forall j :: 0 <= j < w.acked ==> w.slots[j].Some?) ==> forall j :: 0 <= j < w'.acked ==> w'.slots[j].Some?
  {
  }

  lemma KeptInv(s: System, w: Window, read: seq<byte>, deliveries: seq<Delivery>)
    requires Inv(s) && ValidWindow(w) && Excused(s.stream, w, s.gone) && Kept(s.rcv, w)
    ensures Inv(s.(rcv := w, read := read, deliveries := deliveries))
  {
    var log := s.log[..SentEnd(s)];
    KeptMirrors(s.rcv, w, log);
    hide Mirrors, Bounded, WellBounded, ValidWindow, Excused, Sends, InNet, Forgets;
    MirrorBounded(w, s.log, SentEnd(s));
  }

  lemma KeptMirrors(w: Window, w': Window, log: seq<Packet>)
    requires Kept(w, w') && Mirrors(w, log)
    ensures Mirrors(w', log)
  {
  }

  lemma ReadInv(s: System, len: nat)
    requires Inv(s) && Enabled(s, Event.Read(len))
    ensures var (w, bytes) := UdtWindow.Read(s.rcv, len); Inv(s.(rcv := w, read := s.read + bytes))
  {
    var k := ReadShifts(s.rcv, len);
    ReadValid(s.rcv, len);
    ShiftKeeps(s.rcv, UdtWindow.Read(s.rcv, len).0, k);
    KeptInv(s, UdtWindow.Read(s.rcv, len).0, s.read + UdtWindow.Read(s.rcv, len).1, s.deliveries);
  }

  lemma MarkKeeps(w: Window, p: nat, q: nat, gone: set<nat>)
    requires p <= q < |w.slots| && Excused(false, w, gone)
    ensures Kept(w, Mark(w, p, q)) && Excused(false, Mark(w, p, q), gone)
  {
  }

  lemma DropKeeps(w: Window, k: nat, gone: set<nat>)
    requires k <= w.acked <= |w.slots| && Excused(false, w, gone)
    ensures Kept(w, Drop(w, k)) && Excused(false, Drop(w, k), gone)
  {
  }

  lemma TakeKeeps(w: Window, r: ScanResult, len: nat, gone: set<nat>)
    requires Takeable(w, r) && Excused(false, w, gone)
    ensures Kept(w, Take(w, r, len).0) && Excused(false, Take(w, r, len).0, gone)
  {
    hide Excused, Kept, Drop, Mark, Gather, Taken;
    if r.Found? {
      if r.passack {
        MarkKeeps(w, r.p, r.q, gone);
      } else {
        DropKeeps(w, r.q + 1, gone);
      }
    } else {
      KeptSelf(w);
    }
  }

  lemma KeptSelf(w: Window)
    ensures Kept(w, w)
  {
  }

  /** Moving the start position keeps every excuse for an empty slot. */
  lemma ShiftExcused(w: Window, w': Window, k: nat, gone: set<nat>)
    requires Shifted(w, w', k) && w.acked <= |w.slots| && w'.notch == 0 && Excused(false, w, gone)
    ensures Excused(false, w', gone)
  {
  }

  lemma ReadMsgKeeps(w: Window, len: nat, gone: set<nat>)
    requires ValidWindow(w) && Scannable(w) && WellBounded(w) && Excused(false, w, gone)
    ensures var w' := UdtScan.ReadMsg(w, len).0;
            ValidWindow(w') && Excused(false, w', gone) && Kept(w, w')
  {
    var (w', r) := Scan(w);
    var k := ScanMoves(w);
    ScanTakeable(w);
    ShiftKeeps(w, w', k);
    ShiftExcused(w, w', k, gone);
    TakeValid(w', r, len);
    TakeKeeps(w', r, len, gone);
    KeptTrans(w, w', Take(w', r, len).0);
  }

  lemma KeptTrans(a: Window, b: Window, c: Window)
    requires Kept(a, b) && Kept(b, c)
    ensures Kept(a, c)
  {
  }

  lemma ReadMsgInv(s: System, len: nat)
    requires Inv(s) && Enabled(s, Event.ReadMsg(len))
    ensures Inv(Next(s, Event.ReadMsg(len)))
  {
    ReadMsgKeeps(s.rcv, len, s.gone);
    KeptInv(s, UdtScan.ReadMsg(s.rcv, len).0, s.read, s.deliveries + Delivered(s.rcv, len));
  }

  lemma StepInv(s: System, e: Event)
    requires Inv(s) && Enabled(s, e) && Clear(s, e)
    ensures Inv(Next(s, e))
  {
    match e
    case Send(m) => SendInv(s, m);
    case Transmit => TransmitInv(s);
    case Retransmit(offset) => RetransmitInv(s, offset);
    case Expire(offset) => ExpireInv(s, offset);
    case Arrive(no, packet) => ArriveInv(s, no, packet);
    case DropArrives(drop) => DropInv(s, drop);
    case Acknowledge(len) => AcknowledgeInv(s, len);
    case AckArrives(ack) => AckArrivesInv(s, ack);
    case Read(len) => ReadInv(s, len);
    case ReadMsg(len) => ReadMsgInv(s, len);
  }

  // ---- Runs ----

  /** es leads from s to s', every event being enabled when it happens. */
  ghost predicate Run(s: System, es: seq<Event>, s': System)
    decreases |es|
  {
    if es == [] then s' == s
    else Sound(s) && Enabled(s, es[0]) && Run(Next(s, es[0]), es[1..], s')
  }

  ghost predicate Leads(s: System, e: Event, t: System) {
    Sound(s) && Enabled(s, e) && Next(s, e) == t
  }

  lemma RunCons(s: System, e: Event, t: System, es: seq<Event>, s': System)
    requires Leads(s, e, t) && Run(t, es, s')
    ensures Run(s, [e] + es, s')
  {
    assert ([e] + es)[1..] == es;
  }

  lemma {:induction false} RunConcat(s: System, es: seq<Event>, t: System, es': seq<Event>, u: System)
    requires Run(s, es, t) && Run(t, es', u)
    ensures Run(s, es + es', u)
    decreases |es|
  {
    hide Next, Enabled, Sound;
    if es == [] {
      assert es + es' == es';
    } else {
      RunConcat(Next(s, es[0]), es[1..], t, es', u);
      assert (es + es')[1..] == es[1..] + es';
    }
  }

  /** Every expiry of the run comes when two packets behind the message have been sent. */
  ghost predicate ClearRun(s: System, es: seq<Event>, s': System)
    requires Run(s, es, s')
    decreases |es|
  {
    es == [] || (Clear(s, es[0]) && ClearRun(Next(s, es[0]), es[1..], s'))
  }

  lemma {:induction false} RunAhead(s: System, es: seq<Event>, s': System)
    requires Run(s, es, s') && s.next >= SentEnd(s)
    ensures s'.next >= SentEnd(s') && (s.next > SentEnd(s) ==> s'.next > SentEnd(s'))
    decreases |es|
  {
    if es != [] {
      AheadStays(s, es[0]);
      RunAhead(Next(s, es[0]), es[1..], s');
    }
  }

  /** A run ends with its packets numbered as they were cut exactly when all its expiries were clear. */
  lemma {:induction false} InStepIff(s: System, es: seq<Event>, s': System)
    requires Run(s, es, s') && s.next == SentEnd(s)
    ensures s'.next == SentEnd(s') <==> ClearRun(s, es, s')
    decreases |es|
  {
    if es != [] {
      var e, t := es[0], Next(s, es[0]);
      AheadStays(s, e);
      if e.Expire? {
        ExpireInStepIff(s, e.offset);
      }
      if t.next == SentEnd(t) {
        InStepIff(t, es[1..], s');
      } else {
        RunAhead(t, es[1..], s');
      }
    }
  }

  lemma {:induction false} RunInv(s: System, es: seq<Event>, s': System)
    requires Run(s, es, s') && Inv(s) && ClearRun(s, es, s')
    ensures Inv(s')
    decreases |es|
  {
    if es != [] {
      StepInv(s, es[0]);
      RunInv(Next(s, es[0]), es[1..], s');
    }
  }
}
